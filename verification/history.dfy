/** The history page (`History`): the listing of stored files is joined,
    file by file, with the prediction looked up for each; a failed lookup
    becomes a placeholder record. Selecting a record opens it in a video
    player that replaces, and first disposes, any earlier player. The
    listing service, the lookups, the clock and the player library are
    parameters. */
module HistoryPage {
  import opened Wrappers
  import Text
  import Uri

  /** What a per-file prediction lookup came to; `verdict` is the response's
      `label` field, and a `None` frame path is `null`. */
  datatype Lookup =
    | Found(verdict: string, confidence: real, framePath: Option<string>)
    | LookupFailed

  /** What the listing request came to. */
  datatype Listing = Listed(files: seq<string>) | ListingFailed(message: string)

  /** `new Date().toISOString()` at the moment a record was built. */
  type Timestamp = string

  /** One entry of the published list; `prediction` is the label text. */
  datatype Record = Record(
    filename: string,
    prediction: string,
    confidence: real,
    anomalousFramePath: Option<string>,
    uploadDate: Timestamp)

  /** Whether the player library constructed a player or threw. */
  datatype PlayerInit = PlayerCreated | PlayerThrew(message: string)

  /** The player held in the player slot: its handle, source URL and MIME type. */
  datatype Session = Session(id: nat, source: string, mimeType: string)

  /** What happens to players, in order: a disposal, or a creation together
      with the handles that were alive just before it. */
  datatype PlayerEvent = Disposed(id: nat) | Created(id: nat, aliveBefore: set<nat>)

  const UploadsBase := "http://localhost:5000/uploads/"
  const UnknownLabel := "Unknown"
  const HistoryErrorPrefix := "Error loading video history: "
  const PlayerErrorPrefix := "Error playing video: "
  const ThumbnailErrorPrefix := "Error loading video: "

  /** The record built for one listed file. */
  function RecordFor(filename: string, lookup: Lookup, date: Timestamp): (r: Record)
    ensures r.filename == filename && r.uploadDate == date
    ensures lookup.Found? ==>
      r.prediction == lookup.verdict && r.confidence == lookup.confidence &&
      r.anomalousFramePath == lookup.framePath
    ensures lookup.LookupFailed? ==>
      r.prediction == UnknownLabel && r.confidence == 0.0 && r.anomalousFramePath == None
  {
    match lookup
    case Found(verdict, confidence, framePath) => Record(filename, verdict, confidence, framePath, date)
    case LookupFailed => Record(filename, UnknownLabel, 0.0, None, date)
  }

  /** The `Promise.all` join: one record per listed file, in listing order,
      each carrying its own lookup's data or the placeholder. */
  function Join(files: seq<string>, lookups: seq<Lookup>, dates: seq<Timestamp>): (r: seq<Record>)
    requires |lookups| == |files| && |dates| == |files|
    ensures |r| == |files|
    ensures forall i :: 0 <= i < |r| ==> r[i].filename == files[i] && r[i].uploadDate == dates[i]
    ensures forall i :: 0 <= i < |r| && lookups[i].Found? ==>
      r[i].prediction == lookups[i].verdict && r[i].confidence == lookups[i].confidence &&
      r[i].anomalousFramePath == lookups[i].framePath
    ensures forall i :: 0 <= i < |r| && lookups[i].LookupFailed? ==>
      r[i].prediction == UnknownLabel && r[i].confidence == 0.0 && r[i].anomalousFramePath == None
  {
    if files == [] then []
    else [RecordFor(files[0], lookups[0], dates[0])] + Join(files[1..], lookups[1..], dates[1..])
  }

  /** The published filenames are the listing itself: same order, same
      repetitions. */
  lemma {:induction false} JoinKeepsListing(files: seq<string>, lookups: seq<Lookup>, dates: seq<Timestamp>)
    requires |lookups| == |files| && |dates| == |files|
    ensures Filenames(Join(files, lookups, dates)) == files
  {
    if files != [] {
      JoinKeepsListing(files[1..], lookups[1..], dates[1..]);
    }
  }

  function Filenames(rs: seq<Record>): (r: seq<string>)
    ensures |r| == |rs|
  {
    if rs == [] then [] else [rs[0].filename] + Filenames(rs[1..])
  }

  /** Two listed files, the first found as a fight, the lookup of the second
      failing: the first keeps its own data, the second gets the placeholder,
      in listing order. */
  lemma JoinWithOneFailedLookup(frame: string, d1: Timestamp, d2: Timestamp)
    ensures var r := Join(["v1.mp4", "v2.mp4"], [Found("Fight", 0.92, Some(frame)), LookupFailed], [d1, d2]);
      r == [Record("v1.mp4", "Fight", 0.92, Some(frame), d1), Record("v2.mp4", UnknownLabel, 0.0, None, d2)]
  {
    var r := Join(["v1.mp4", "v2.mp4"], [Found("Fight", 0.92, Some(frame)), LookupFailed], [d1, d2]);
    assert |r| == 2;
  }

  /** The MIME type given to the player, from the lower-cased filename. */
  function MimeTypeFor(filename: string): (r: string)
    ensures Text.EndsWith(Text.ToLower(filename), ".webm") ==> r == "video/webm"
    ensures !Text.EndsWith(Text.ToLower(filename), ".webm") && Text.EndsWith(Text.ToLower(filename), ".ogg") ==> r == "video/ogg"
    ensures !Text.EndsWith(Text.ToLower(filename), ".webm") && !Text.EndsWith(Text.ToLower(filename), ".ogg") ==> r == "video/mp4"
  {
    var lower := Text.ToLower(filename);
    if Text.EndsWith(lower, ".webm") then "video/webm"
    else if Text.EndsWith(lower, ".ogg") then "video/ogg"
    else "video/mp4"
  }

  /** The suffix test ignores case: `.WEBM`, `.WebM` and so on give `video/webm`. */
  lemma WebmInAnyCase(base: string, ext: string)
    requires Text.ToLower(ext) == ".webm"
    ensures MimeTypeFor(base + ext) == "video/webm"
  {
    Text.EndsWithLowered(base, ext, ".webm");
  }

  /** The address of a stored video or frame image: the uploads prefix,
      then the identifier percent-encoded as one path segment, from which
      the identifier is recovered exactly. */
  function MediaUrl(id: string): (r: string)
    ensures Text.StartsWith(r, UploadsBase)
    ensures forall i :: |UploadsBase| <= i < |r| ==> Uri.SegmentChar(r[i])
    ensures Uri.DecodeUriComponent(r[|UploadsBase|..]) == Some(id)
  {
    Uri.DecodeEncode(id);
    var r := UploadsBase + Uri.EncodeUriComponent(id);
    assert r[|UploadsBase|..] == Uri.EncodeUriComponent(id);
    r
  }

  /** Different identifiers never share an address. */
  lemma MediaUrlInjective(a: string, b: string)
    requires MediaUrl(a) == MediaUrl(b)
    ensures a == b
  {
    assert MediaUrl(a)[|UploadsBase|..] == MediaUrl(b)[|UploadsBase|..];
  }

  /** The red "Fight" badge is chosen exactly when the label contains `Fight`. */
  function ShowsFightBadge(r: Record): (b: bool)
    ensures b <==> exists i: nat :: Text.OccursAt(r.prediction, "Fight", i)
  {
    Text.Includes(r.prediction, "Fight")
  }

  /** The anomalous frame is shown exactly when the label contains `Fight`
      and the frame path is truthy: present and non-empty. */
  function ShowsAnomalousFrame(r: Record): (b: bool)
    ensures b <==>
      (exists i: nat :: Text.OccursAt(r.prediction, "Fight", i)) &&
      r.anomalousFramePath.Some? && |r.anomalousFramePath.value| > 0
  {
    ShowsFightBadge(r) && r.anomalousFramePath.Some? && r.anomalousFramePath.value != ""
  }

  /** The address of the anomalous-frame image shown under a fight
      record's player, or `None` when no image is shown. */
  function FrameUrl(r: Record): (u: Option<string>)
    ensures u.Some? <==> ShowsAnomalousFrame(r)
    ensures u.Some? ==> Text.StartsWith(u.value, UploadsBase)
    ensures u.Some? ==>
      Uri.DecodeUriComponent(u.value[|UploadsBase|..]) == Some(r.anomalousFramePath.value)
  {
    if ShowsAnomalousFrame(r) then Some(MediaUrl(r.anomalousFramePath.value)) else None
  }

  /** A placeholder record shows neither the badge nor a frame. */
  lemma PlaceholderShowsNothing(filename: string, date: Timestamp)
    ensures !ShowsFightBadge(RecordFor(filename, LookupFailed, date))
    ensures !ShowsAnomalousFrame(RecordFor(filename, LookupFailed, date))
  {
    forall i: nat
      ensures !Text.OccursAt(UnknownLabel, "Fight", i)
    {
      if i + 5 <= |UnknownLabel| {
        assert UnknownLabel[i..i + 5][0] != 'F';
      }
    }
  }

  /** The history component's state. */
  class History {
    var videos: seq<Record>
    var loading: bool
    /** Index in `videos` of the record handed to `handleVideoClick`. */
    var selected: Option<nat>
    var error: Option<string>
    /** `playerRef.current`: the last player assigned, disposed or not. */
    var player: Option<Session>
    /** Handles of players created and not yet disposed. */
    var livePlayers: set<nat>
    /** The handle the next player gets. */
    var nextPlayer: nat
    ghost var playerTrace: seq<PlayerEvent>

    /** While loading the list is still the initial empty one and nothing
        is selected; a selection names a record; the only player that may
        be alive is the one in the slot; and no player was ever created
        while another was alive. */
    ghost predicate Valid()
      reads this
    {
      && (loading ==> videos == [] && selected.None?)
      && CreatedAlone(playerTrace)
      && (selected.Some? ==> selected.value < |videos|)
      && livePlayers <= (if player.Some? then {player.value.id} else {})
      && (player.Some? ==> player.value.id < nextPlayer)
    }

    constructor ()
      ensures Valid()
      ensures videos == [] && loading && selected == None && error == None
      ensures player == None && livePlayers == {} && playerTrace == []
    {
      videos, loading, selected, error := [], true, None, None;
      player, livePlayers, nextPlayer := None, {}, 0;
      playerTrace := [];
    }

    /** At most one player is alive. */
    lemma AtMostOnePlayer()
      requires Valid()
      ensures |livePlayers| <= 1
    {
      if player.Some? && player.value.id in livePlayers {
        assert livePlayers == {player.value.id};
      } else {
        assert livePlayers == {};
      }
    }

    /** The mount effect `fetchVideos`: on a successful listing the joined
        records are published in one assignment; on a failed listing the
        list keeps its initial empty value and the error names the failure; loading ends
        either way. */
    method FetchVideos(listing: Listing, lookups: seq<Lookup>, dates: seq<Timestamp>)
      requires Valid() && loading
      requires listing.Listed? ==> |lookups| == |listing.files| && |dates| == |listing.files|
      modifies this
      ensures Valid() && !loading
      ensures listing.Listed? ==> videos == Join(listing.files, lookups, dates) && error == old(error)
      ensures listing.ListingFailed? ==>
        videos == [] && error == Some(HistoryErrorPrefix + listing.message)
      ensures selected == None && player == old(player) && playerTrace == old(playerTrace)
      ensures livePlayers == old(livePlayers) && nextPlayer == old(nextPlayer)
    {
      match listing {
        case Listed(files) =>
          videos := Join(files, lookups, dates);
        case ListingFailed(message) =>
          error := Some(HistoryErrorPrefix + message);
      }
      loading := false;
    }

    /** The selection effect's `initializePlayer`: any player in the slot is
        disposed before the new one is assigned; if the library throws, the
        error is reported and the slot keeps the disposed player. */
    method InitializePlayer(r: Record, init: PlayerInit)
      requires Valid()
      modifies this
      ensures Valid()
      ensures old(player).Some? ==> old(player).value.id !in livePlayers
      ensures init.PlayerCreated? ==>
        player == Some(Session(old(nextPlayer), MediaUrl(r.filename), MimeTypeFor(r.filename))) &&
        livePlayers == {old(nextPlayer)} && nextPlayer == old(nextPlayer) + 1 && error == old(error)
      ensures init.PlayerThrew? ==>
        player == old(player) && livePlayers == {} && nextPlayer == old(nextPlayer) &&
        error == Some(PlayerErrorPrefix + init.message)
      ensures playerTrace == old(playerTrace) + DisposalOf(old(player)) + CreationOf(init, old(nextPlayer))
      ensures videos == old(videos) && loading == old(loading) && selected == old(selected)
    {
      var source := MediaUrl(r.filename);
      var mimeType := MimeTypeFor(r.filename);
      if player.Some? {
        livePlayers := livePlayers - {player.value.id};
        playerTrace := playerTrace + [Disposed(player.value.id)];
      }
      assert livePlayers == {};
      CreationsStayClean(old(playerTrace), DisposalOf(old(player)));
      match init {
        case PlayerCreated =>
          playerTrace := playerTrace + [Created(nextPlayer, livePlayers)];
          player := Some(Session(nextPlayer, source, mimeType));
          livePlayers := livePlayers + {nextPlayer};
          nextPlayer := nextPlayer + 1;
        case PlayerThrew(message) =>
          error := Some(PlayerErrorPrefix + message);
      }
      CreationsStayClean(old(playerTrace) + DisposalOf(old(player)), CreationOf(init, old(nextPlayer)));
    }

    /** Every creation in a trace happened with no player alive. */
    static ghost predicate CreatedAlone(trace: seq<PlayerEvent>)
    {
      forall k :: 0 <= k < |trace| && trace[k].Created? ==> trace[k].aliveBefore == {}
    }

    /** Appending events whose creations saw no live player keeps a clean
        trace clean. */
    static lemma CreationsStayClean(trace: seq<PlayerEvent>, extra: seq<PlayerEvent>)
      requires CreatedAlone(trace) && CreatedAlone(extra)
      ensures CreatedAlone(trace + extra)
    {
    }

    /** What disposing the slot's player adds to the trace. */
    static function DisposalOf(slot: Option<Session>): seq<PlayerEvent>
    {
      if slot.Some? then [Disposed(slot.value.id)] else []
    }

    /** What constructing a player adds to the trace: a creation with no
        player alive, or nothing when the library threw. */
    static function CreationOf(init: PlayerInit, id: nat): seq<PlayerEvent>
    {
      if init.PlayerCreated? then [Created(id, {})] else []
    }

    /** `handleVideoClick` and the effect it triggers: the record becomes
        the selection and the error is cleared; the player is re-initialised
        only when the selection actually changed. */
    method HandleVideoClick(i: nat, init: PlayerInit)
      requires Valid() && !loading && i < |videos|
      modifies this
      ensures Valid()
      ensures selected == Some(i) && videos == old(videos) && !loading
      ensures old(selected) == Some(i) ==> playerTrace == old(playerTrace)
      ensures old(selected) != Some(i) ==>
        playerTrace == old(playerTrace) + DisposalOf(old(player)) + CreationOf(init, old(nextPlayer))
      ensures old(selected) == Some(i) ==>
        error == None && player == old(player) && livePlayers == old(livePlayers) && nextPlayer == old(nextPlayer)
      ensures old(selected) != Some(i) && init.PlayerCreated? ==>
        error == None && livePlayers == {old(nextPlayer)} && nextPlayer == old(nextPlayer) + 1 &&
        player == Some(Session(old(nextPlayer), MediaUrl(videos[i].filename), MimeTypeFor(videos[i].filename)))
      ensures old(selected) != Some(i) && init.PlayerThrew? ==>
        error == Some(PlayerErrorPrefix + init.message) && livePlayers == {} &&
        player == old(player) && nextPlayer == old(nextPlayer)
    {
      var changed := selected != Some(i);
      selected := Some(i);
      error := None;
      if changed {
        InitializePlayer(videos[i], init);
      }
    }

    /** `handleCloseModal`: the selection and the error are cleared; the
        player is left as it is, alive, since no cleanup disposes it. */
    method HandleCloseModal()
      requires Valid()
      modifies this
      ensures Valid()
      ensures selected == None && error == None
      ensures player == old(player) && livePlayers == old(livePlayers) && nextPlayer == old(nextPlayer)
      ensures videos == old(videos) && loading == old(loading) && playerTrace == old(playerTrace)
    {
      selected := None;
      error := None;
    }

    /** A thumbnail's `onError` reports the load failure. */
    method HandleThumbnailError(message: string)
      requires Valid()
      modifies this`error
      ensures Valid()
      ensures error == Some(ThumbnailErrorPrefix + message)
    {
      error := Some(ThumbnailErrorPrefix + message);
    }
  }
}
