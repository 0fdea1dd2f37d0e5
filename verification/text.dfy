/** The JavaScript string operations the two components rely on:
    `includes`, `replace` with a string pattern, `startsWith`, `endsWith`
    and `toLowerCase`. `IndexOf` is the search for the first occurrence of
    a pattern that `includes` and `replace` both perform. */
module Text {
  import opened Wrappers

  /** `p` occurs in `s` starting at position `i`. */
  predicate OccursAt(s: string, p: string, i: nat)
  {
    i + |p| <= |s| && s[i..i + |p|] == p
  }

  /** `i` is the first position at which `p` occurs in `s`. */
  predicate FirstOccurrence(s: string, p: string, i: nat)
  {
    OccursAt(s, p, i) && forall j: nat :: j < i ==> !OccursAt(s, p, j)
  }

  /** The first position at or after `from` at which `p` occurs in `s`. */
  function IndexOfFrom(s: string, p: string, from: nat): (r: Option<nat>)
    decreases |s| - from
    ensures r.Some? ==> from <= r.value && OccursAt(s, p, r.value)
    ensures r.Some? ==> forall j: nat :: from <= j < r.value ==> !OccursAt(s, p, j)
    ensures r.None? ==> forall j: nat :: from <= j ==> !OccursAt(s, p, j)
  {
    if from + |p| > |s| then None
    else if s[from..from + |p|] == p then Some(from)
    else IndexOfFrom(s, p, from + 1)
  }

  /** The first occurrence of `p` in `s`, as `includes` and `replace`
      search for it; "not found" is `None`. */
  function IndexOf(s: string, p: string): (r: Option<nat>)
    ensures r.Some? <==> exists i: nat :: OccursAt(s, p, i)
    ensures r.Some? ==> FirstOccurrence(s, p, r.value)
  {
    IndexOfFrom(s, p, 0)
  }

  /** `String.prototype.includes`. */
  predicate Includes(s: string, p: string)
  {
    IndexOf(s, p).Some?
  }

  /** `String.prototype.replace` with a string pattern and a replacement
      without `$` patterns: only the first occurrence is replaced. */
  function ReplaceFirst(s: string, p: string, rep: string): (r: string)
    ensures (forall i: nat :: !OccursAt(s, p, i)) ==> r == s
    ensures forall i: nat :: FirstOccurrence(s, p, i) ==> r == s[..i] + rep + s[i + |p|..]
  {
    match IndexOf(s, p)
    case None => s
    case Some(i) => s[..i] + rep + s[i + |p|..]
  }

  predicate StartsWith(s: string, prefix: string)
  {
    |prefix| <= |s| && s[..|prefix|] == prefix
  }

  predicate EndsWith(s: string, suffix: string)
  {
    |suffix| <= |s| && s[|s| - |suffix|..] == suffix
  }

  /** Lower-casing of one character; only the ASCII letters are mapped. */
  function LowerChar(c: char): char
  {
    if 'A' <= c <= 'Z' then (c as int + 32) as char else c
  }

  /** `String.prototype.toLowerCase` on ASCII letters. */
  function ToLower(s: string): (r: string)
    ensures |r| == |s|
    ensures forall i :: 0 <= i < |s| ==> r[i] == LowerChar(s[i])
  {
    seq(|s|, i requires 0 <= i < |s| => LowerChar(s[i]))
  }

  /** Lower-casing is position by position, so a name ends, once
      lower-cased, with whatever its own ending lower-cases to. */
  lemma EndsWithLowered(base: string, ending: string, suffix: string)
    requires ToLower(ending) == suffix
    ensures EndsWith(ToLower(base + ending), suffix)
  {
    var s := base + ending;
    assert ToLower(s)[|s| - |suffix|..] == ToLower(ending) by {
      forall k | 0 <= k < |ending|
        ensures ToLower(s)[|s| - |suffix|..][k] == ToLower(ending)[k]
      {
        assert s[|base| + k] == ending[k];
      }
    }
  }
}
