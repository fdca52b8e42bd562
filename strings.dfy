/** The JavaScript string operations the feature uses on storage keys and
    element ids: `startsWith`, `indexOf`, `replace` with a string pattern,
    and `split` followed by `pop`. */
module Strings {
  import opened Wrappers

  /** `s.startsWith(prefix)`. */
  predicate StartsWith(s: string, prefix: string) {
    |prefix| <= |s| && s[..|prefix|] == prefix
  }

  /** `pat` occurs in `s` starting at index `i`. */
  predicate OccursAt(s: string, pat: string, i: nat) {
    i + |pat| <= |s| && s[i..i + |pat|] == pat
  }

  /** `s.indexOf(pat, from)` for `from <= |s|`, with None for -1: the first
      occurrence at or after `from`. */
  function IndexOfFrom(s: string, pat: string, from: nat): (r: Option<nat>)
    ensures r.Some? ==> from <= r.value && OccursAt(s, pat, r.value)
    ensures forall j: nat :: from <= j && (r.None? || j < r.value) ==> !OccursAt(s, pat, j)
    decreases |s| + 1 - from
  {
    if from + |pat| > |s| then None
    else if s[from..from + |pat|] == pat then Some(from)
    else IndexOfFrom(s, pat, from + 1)
  }

  /** `s.replace(pat, rep)` with a string pattern: only the first occurrence is replaced. */
  function ReplaceFirst(s: string, pat: string, rep: string): (r: string)
    ensures StartsWith(s, pat) ==> r == rep + s[|pat|..]
    ensures IndexOfFrom(s, pat, 0).None? ==> r == s
  {
    match IndexOfFrom(s, pat, 0)
    case None => s
    case Some(i) => s[..i] + rep + s[i + |pat|..]
  }

  /** The inverse of `Split`: the parts glued together with the separator. */
  function Join(parts: seq<string>, sep: char): string
    requires |parts| >= 1
  {
    if |parts| == 1 then parts[0] else parts[0] + [sep] + Join(parts[1..], sep)
  }

  /** `s.split(sep)` for a one-character separator. */
  function Split(s: string, sep: char): (parts: seq<string>)
    ensures |parts| >= 1
    ensures |parts| == 1 <==> sep !in s
    ensures forall i :: 0 <= i < |parts| ==> sep !in parts[i]
    ensures Join(parts, sep) == s
  {
    if |s| == 0 then [""]
    else
      var rest := Split(s[1..], sep);
      if s[0] == sep then
        assert s == [sep] + s[1..];
        [""] + rest
      else
        var parts := [[s[0]] + rest[0]] + rest[1..];
        assert parts[1..] == rest[1..];
        assert s == [s[0]] + s[1..];
        parts
  }

  /** `s.split(sep).pop()`: the text after the last separator. */
  function LastSegment(s: string, sep: char): (last: string)
    ensures sep !in last
    ensures sep !in s ==> last == s
  {
    var parts := Split(s, sep);
    parts[|parts| - 1]
  }

  /** Dropping a first character that is a separator, or that precedes
      another separator, leaves the last segment as it is. */
  lemma LastSegmentTail(s: string, sep: char)
    requires |s| > 0 && (s[0] == sep || sep in s[1..])
    ensures LastSegment(s, sep) == LastSegment(s[1..], sep)
  {
  }

  /** Whatever precedes the last separator, the last segment is what follows it. */
  lemma {:induction false} LastSegmentAfter(p: string, t: string, sep: char)
    requires sep !in t
    ensures LastSegment(p + [sep] + t, sep) == t
    decreases |p|
  {
    var s := p + [sep] + t;
    if |p| == 0 {
      assert s[1..] == t;
    } else {
      assert s[1..] == p[1..] + [sep] + t;
      LastSegmentAfter(p[1..], t, sep);
      assert sep in s[1..] by { assert s[1..][|p| - 1] == sep; }
    }
    LastSegmentTail(s, sep);
  }
}
