/** The upload page (`Home`): a chosen file is checked to be a video,
    converted from AVI to MP4 by the embedded transcoding engine when its
    name ends in `.avi`, previewed through an object URL, and sent to the
    prediction service. The engine and the service are outcome parameters. */
module HomePage {
  import opened Wrappers
  import Text
  import Utf8

  /** A browser `File`: name, MIME type and contents (its size is `|bytes|`). */
  datatype MediaFile = MediaFile(name: string, mimeType: string, bytes: seq<Utf8.Byte>)

  /** The prediction service's answer to an upload; `verdict` is its `label` field. */
  datatype Prediction = Prediction(verdict: string, confidence: real, anomalousFramePath: string, route: string)

  /** What the transcoding engine's write/exec/read sequence came to. */
  datatype EngineOutcome = Transcoded(output: seq<Utf8.Byte>) | EngineFailed(message: string)

  /** What the upload request came to. */
  datatype UploadOutcome = Responded(body: Prediction) | RequestFailed(message: string)

  /** What the outside world sees happen: an engine run with the value the
      `converting` flag had meanwhile, or a prediction request with its
      payload and the value the `loading` flag had meanwhile. */
  datatype Event =
    | EngineRun(input: seq<Utf8.Byte>, convertingFlag: bool)
    | PredictRequest(payload: MediaFile, loadingFlag: bool)

  /** An object URL (`blob:` URL), identified by creation order. */
  type ObjectUrl = nat

  const ApiBase := "http://localhost:5000"
  const Mp4Type := "video/mp4"

  /** The MIME type test: it starts with `video/`. */
  predicate IsVideo(f: MediaFile)
  {
    Text.StartsWith(f.mimeType, "video/")
  }

  /** Conversion is attempted exactly when the lower-cased name ends in `.avi`. */
  predicate NeedsConversion(f: MediaFile)
  {
    Text.EndsWith(Text.ToLower(f.name), ".avi")
  }

  /** `name.replace('.avi', '.mp4')`: the first case-sensitive `.avi`
      becomes `.mp4`, wherever it is; a name without one is kept. */
  function ConvertedName(name: string): (r: string)
    ensures (forall i: nat :: !Text.OccursAt(name, ".avi", i)) ==> r == name
    ensures forall i: nat :: Text.FirstOccurrence(name, ".avi", i) ==> r == name[..i] + ".mp4" + name[i + 4..]
  {
    Text.ReplaceFirst(name, ".avi", ".mp4")
  }

  /** The new file built from the engine's output. */
  function Converted(f: MediaFile, output: seq<Utf8.Byte>): (r: MediaFile)
    ensures r.mimeType == Mp4Type && r.bytes == output && r.name == ConvertedName(f.name)
  {
    MediaFile(ConvertedName(f.name), Mp4Type, output)
  }

  /** The file `handleVideoChange` ends up using, if any: nothing for no
      file, a non-video type or a failed conversion; the converted file
      for an AVI name; the file itself for any other video. */
  function Chosen(file: Option<MediaFile>, engine: EngineOutcome): (r: Option<MediaFile>)
    ensures r.Some? <==> file.Some? && IsVideo(file.value) && (NeedsConversion(file.value) ==> engine.Transcoded?)
    ensures r.Some? && !NeedsConversion(file.value) ==> r == file
    ensures r.Some? && NeedsConversion(file.value) ==> r == Some(Converted(file.value, engine.output))
  {
    match file
    case None => None
    case Some(f) =>
      if !IsVideo(f) then None
      else if !NeedsConversion(f) then file
      else match engine
        case Transcoded(output) => Some(Converted(f, output))
        case EngineFailed(_) => None
  }

  /** The `.avi` test ignores case: `.AVI`, `.Avi` and so on all trigger a
      conversion. */
  lemma AviInAnyCaseNeedsConversion(base: string, ext: string, mimeType: string)
    requires Text.ToLower(ext) == ".avi"
    ensures NeedsConversion(MediaFile(base + ext, mimeType, []))
  {
    Text.EndsWithLowered(base, ext, ".avi");
  }

  /** A name whose only `.avi` is its suffix gets that suffix replaced. */
  lemma AviSuffixReplaced(base: string)
    requires !Text.Includes(base, ".avi")
    ensures NeedsConversion(MediaFile(base + ".avi", "video/avi", []))
    ensures ConvertedName(base + ".avi") == base + ".mp4"
  {
    var name := base + ".avi";
    assert Text.OccursAt(name, ".avi", |base|);
    forall j: nat | j < |base|
      ensures !Text.OccursAt(name, ".avi", j)
    {
      if j + 4 <= |base| {
        assert name[j..j + 4] == base[j..j + 4];
        assert !Text.OccursAt(base, ".avi", j);
      } else if j + 4 <= |name| {
        assert name[|base|] == '.';
        assert name[j..j + 4][|base| - j] == '.';
      }
    }
    assert Text.FirstOccurrence(name, ".avi", |base|);
    assert name[|base| + 4..] == [];
    assert Text.ToLower(name)[|name| - 4..] == ".avi";
  }

  /** An upper-case `.AVI` suffix triggers the conversion but survives the
      rename: `CLIP.AVI` stays `CLIP.AVI`, now typed `video/mp4`. */
  lemma UpperCaseAviKeepsItsName(base: string, engineOutput: seq<Utf8.Byte>)
    requires !Text.Includes(base, ".avi")
    ensures var f := MediaFile(base + ".AVI", "video/avi", []);
      NeedsConversion(f) && Converted(f, engineOutput) == MediaFile(base + ".AVI", Mp4Type, engineOutput)
  {
    var name := base + ".AVI";
    forall j: nat
      ensures !Text.OccursAt(name, ".avi", j)
    {
      if j + 4 <= |base| {
        assert name[j..j + 4] == base[j..j + 4];
        assert !Text.OccursAt(base, ".avi", j);
      } else if j < |base| && j + 4 <= |name| {
        assert name[j..j + 4][|base| - j] == '.';
      } else if j == |base| {
        assert name[j..j + 4][1] == 'A';
      }
    }
    assert Text.ToLower(name)[|name| - 4..] == ".avi";
  }

  /** A double extension keeps an `.avi` suffix on the converted MP4. */
  lemma DoubleExtensionKeepsAviSuffix()
    ensures ConvertedName("a.avi.avi") == "a.mp4.avi"
  {
    var name := "a.avi.avi";
    assert Text.OccursAt(name, ".avi", 1) by {
      assert name[1..5] == ".avi";
    }
    assert !Text.OccursAt(name, ".avi", 0) by {
      assert name[0] == 'a';
    }
    assert Text.FirstOccurrence(name, ".avi", 1);
    assert name[..1] + ".mp4" + name[5..] == "a.mp4.avi";
  }

  /** The upload component's state. */
  class Home {
    var video: Option<MediaFile>
    var prediction: Option<Prediction>
    var loading: bool
    var previewUrl: Option<ObjectUrl>
    var converting: bool
    /** Object URLs created and not yet revoked. */
    var liveUrls: set<ObjectUrl>
    /** The next URL `URL.createObjectURL` hands out. */
    var nextUrl: ObjectUrl
    ghost var trace: seq<Event>

    /** Between two handlers both busy flags are down, the only live object
        URL is the preview's, and every flag seen by the outside world while
        the engine or the service was busy was up. */
    ghost predicate Valid()
      reads this
    {
      && !loading && !converting
      && liveUrls == (if previewUrl.Some? then {previewUrl.value} else {})
      && (forall u :: u in liveUrls ==> u < nextUrl)
      && (forall i :: 0 <= i < |trace| ==> FlagRaised(trace[i]))
    }

    static predicate FlagRaised(e: Event)
    {
      match e
      case EngineRun(_, c) => c
      case PredictRequest(_, l) => l
    }

    constructor ()
      ensures Valid() && trace == []
      ensures video == None && prediction == None && previewUrl == None
      ensures liveUrls == {}
    {
      video, prediction, loading, previewUrl, converting := None, None, false, None, false;
      liveUrls, nextUrl := {}, 0;
      trace := [];
    }

    /** At most one object URL is alive. */
    lemma AtMostOnePreview()
      requires Valid()
      ensures |liveUrls| <= 1
    {
    }

    /** `disabled={loading || !video}` */
    predicate UploadDisabled()
      reads this
    {
      loading || video.None?
    }

    /** The address of the anomalous-frame image the result panel shows, if
        it shows one: there is a prediction and its frame path is non-empty;
        the address is the service base, the route, then the frame path, not
        percent-encoded. */
    function ShownFrame(): Option<string>
      reads this
    {
      if prediction.Some? && prediction.value.anomalousFramePath != ""
      then Some(ApiBase + prediction.value.route + prediction.value.anomalousFramePath)
      else None
    }

    /** `convertAVIToMP4`: `converting` is up while the engine runs and down
        again whether it succeeds or fails; nothing else changes. */
    method ConvertAviToMp4(file: MediaFile, engine: EngineOutcome) returns (r: Result<MediaFile, string>)
      requires Valid()
      modifies this
      ensures Valid()
      ensures !converting
      ensures trace == old(trace) + [EngineRun(file.bytes, true)]
      ensures engine.Transcoded? ==> r == Ok(Converted(file, engine.output))
      ensures engine.EngineFailed? ==> r == Err(engine.message)
      ensures video == old(video) && prediction == old(prediction) && previewUrl == old(previewUrl)
      ensures liveUrls == old(liveUrls) && nextUrl == old(nextUrl) && loading == old(loading)
    {
      converting := true;
      trace := trace + [EngineRun(file.bytes, converting)];
      match engine {
        case Transcoded(output) =>
          r := Ok(MediaFile(ConvertedName(file.name), Mp4Type, output));
        case EngineFailed(message) =>
          r := Err(message);
      }
      converting := false;
    }

    /** `handleVideoChange` followed by the preview effect's cleanup: the
        chosen file becomes current, the prediction is cleared, a fresh
        preview URL replaces the old one and the old one is revoked. With no
        file, a non-video type or a failed conversion nothing changes. */
    method HandleVideoChange(file: Option<MediaFile>, engine: EngineOutcome)
      requires Valid()
      modifies this
      ensures Valid()
      ensures file.Some? && IsVideo(file.value) && NeedsConversion(file.value)
        ==> trace == old(trace) + [EngineRun(file.value.bytes, true)]
      ensures !(file.Some? && IsVideo(file.value) && NeedsConversion(file.value)) ==> trace == old(trace)
      ensures Chosen(file, engine).None? ==>
        video == old(video) && prediction == old(prediction) && previewUrl == old(previewUrl) &&
        liveUrls == old(liveUrls) && nextUrl == old(nextUrl)
      ensures Chosen(file, engine).Some? ==>
        video == Chosen(file, engine) && prediction == None && ShownFrame() == None &&
        previewUrl == Some(old(nextUrl)) && liveUrls == {old(nextUrl)} && nextUrl == old(nextUrl) + 1
      ensures loading == old(loading)
    {
      if file.None? {
        return;
      }
      var f := file.value;
      if !Text.StartsWith(f.mimeType, "video/") {
        return;
      }
      var videoFile := f;
      if Text.EndsWith(Text.ToLower(f.name), ".avi") {
        var converted := ConvertAviToMp4(f, engine);
        if converted.Err? {
          assert Chosen(file, engine).None?;
          return;
        }
        videoFile := converted.value;
      }
      assert Chosen(file, engine) == Some(videoFile);
      video := Some(videoFile);
      prediction := None;
      // URL.createObjectURL
      var url := nextUrl;
      nextUrl := nextUrl + 1;
      liveUrls := liveUrls + {url};
      var previous := previewUrl;
      previewUrl := Some(url);
      // the effect cleanup registered for the previous preview URL
      if previous.Some? {
        liveUrls := liveUrls - {previous.value};
      }
    }

    /** `handleUpload`: with no current video no request is sent; otherwise
        `loading` is up for the request and down afterwards, and the
        prediction becomes the response or stays as it was on failure. */
    method HandleUpload(outcome: UploadOutcome)
      requires Valid()
      modifies this
      ensures Valid()
      ensures old(video).None? ==> trace == old(trace) && prediction == old(prediction)
      ensures old(video).Some? ==> trace == old(trace) + [PredictRequest(old(video).value, true)]
      ensures old(video).Some? && outcome.Responded? ==> prediction == Some(outcome.body)
      ensures old(video).Some? && outcome.Responded? ==>
        (ShownFrame().Some? <==> outcome.body.anomalousFramePath != "") &&
        (ShownFrame().Some? ==> ShownFrame().value == ApiBase + outcome.body.route + outcome.body.anomalousFramePath)
      ensures outcome.RequestFailed? ==> prediction == old(prediction) && ShownFrame() == old(ShownFrame())
      ensures !loading && UploadDisabled() == video.None?
      ensures video == old(video) && previewUrl == old(previewUrl)
      ensures liveUrls == old(liveUrls) && nextUrl == old(nextUrl)
    {
      if video.None? {
        return;
      }
      loading := true;
      trace := trace + [PredictRequest(video.value, loading)];
      match outcome {
        case Responded(body) =>
          prediction := Some(body);
        case RequestFailed(_) =>
      }
      loading := false;
    }

    /** The preview effect's cleanup on unmount revokes the current preview URL. */
    method Unmount()
      requires Valid()
      modifies this
      ensures liveUrls == {}
      ensures video == old(video) && prediction == old(prediction) && previewUrl == old(previewUrl)
      ensures nextUrl == old(nextUrl) && trace == old(trace) && !loading && !converting
    {
      if previewUrl.Some? {
        liveUrls := liveUrls - {previewUrl.value};
      }
    }
  }
}
