/** The two string operations of the splitter: the filename sanitizer used by the
    newspaper and spatial strategies, and the separator join that concatenates a
    group's OCR texts, together with the split that undoes it. */
module Text {

  /** The alphanumeric test of Python's `str.isalnum`, restricted to ASCII. */
  predicate IsAlnum(c: char) {
    'a' <= c <= 'z' || 'A' <= c <= 'Z' || '0' <= c <= '9'
  }

  /** The characters the sanitizer keeps: alphanumerics, space, hyphen, underscore. */
  predicate IsSafe(c: char) {
    IsAlnum(c) || c == ' ' || c == '-' || c == '_'
  }

  predicate AllSafe(s: string) {
    forall i :: 0 <= i < |s| ==> IsSafe(s[i])
  }

  /** Character-wise sanitizing of a group key before `.txt` is appended. */
  function Sanitize(s: string): (r: string)
    ensures |r| == |s|
    ensures AllSafe(r)
    ensures forall i :: 0 <= i < |s| && IsSafe(s[i]) ==> r[i] == s[i]
    ensures forall i :: 0 <= i < |s| && !IsSafe(s[i]) ==> r[i] == '_'
    decreases |s|
  {
    if s == [] then []
    else [if IsSafe(s[0]) then s[0] else '_'] + Sanitize(s[1..])
  }

  /** A string is left alone by the sanitizer exactly when it is already safe. */
  lemma SanitizeFixedPoint(s: string)
    ensures Sanitize(s) == s <==> AllSafe(s)
  {
    if AllSafe(s) {
      assert forall i :: 0 <= i < |s| ==> Sanitize(s)[i] == s[i];
    }
  }

  /** Sanitizing twice is the same as sanitizing once. */
  lemma SanitizeIdempotent(s: string)
    ensures Sanitize(Sanitize(s)) == Sanitize(s)
  {
    SanitizeFixedPoint(Sanitize(s));
  }

  /** The record separator placed between the OCR texts of one group. */
  const Separator: string := "\n\n---\n\n"

  /** Python's `sep.join(parts)`. */
  function Join(parts: seq<string>, sep: string): (r: string)
    decreases |parts|
  {
    if |parts| == 0 then ""
    else if |parts| == 1 then parts[0]
    else parts[0] + sep + Join(parts[1..], sep)
  }

  /** The texts `A`, `B` and `C` join to `A`, separator, `B`, separator, `C`. */
  lemma JoinExample(parts: seq<string>)
    requires parts == ["A", "B", "C"]
    ensures Join(parts, Separator) == "A\n\n---\n\nB\n\n---\n\nC"
  {
    var tail := parts[1..];
    assert tail == ["B", "C"];
    assert tail[1..] == ["C"];
    assert Join(tail[1..], Separator) == "C";
    assert Join(tail, Separator) == "B" + Separator + "C";
    assert Join(parts, Separator) == "A" + Separator + ("B" + Separator + "C");
  }

  function TotalLength(parts: seq<string>): (r: nat)
    decreases |parts|
  {
    if parts == [] then 0 else |parts[0]| + TotalLength(parts[1..])
  }

  /** Joining k >= 1 parts adds exactly k - 1 separators to their text. */
  lemma {:induction false} JoinLength(parts: seq<string>, sep: string)
    requires |parts| >= 1
    ensures |Join(parts, sep)| == TotalLength(parts) + (|parts| - 1) * |sep|
    decreases |parts|
  {
    if |parts| > 1 {
      JoinLength(parts[1..], sep);
    }
  }

  /** `sep` occurs in `s` at index `i`. */
  predicate MatchAt(s: string, sep: string, i: nat) {
    i + |sep| <= |s| && s[i..i + |sep|] == sep
  }

  /** The first index at or after `from` where `sep` occurs, or `|s|` if none. */
  function Find(s: string, sep: string, from: nat): (r: nat)
    requires |sep| > 0 && from <= |s|
    ensures from <= r <= |s|
    ensures r < |s| ==> MatchAt(s, sep, r)
    ensures r == |s| ==> !MatchAt(s, sep, r)
    ensures forall j :: from <= j < r ==> !MatchAt(s, sep, j)
    decreases |s| - from
  {
    if from + |sep| > |s| then
      assert forall j :: from <= j ==> !MatchAt(s, sep, j);
      |s|
    else if MatchAt(s, sep, from) then from
    else Find(s, sep, from + 1)
  }

  /** Python's `s.split(sep)`: the pieces between successive leftmost occurrences. */
  function Split(s: string, sep: string): (r: seq<string>)
    requires |sep| > 0
    decreases |s|
  {
    var i := Find(s, sep, 0);
    if i == |s| then [s] else [s[..i]] + Split(s[i + |sep|..], sep)
  }

  /** A part after which `sep` is first found at the boundary, never earlier
      (in particular the part does not contain `sep`). */
  predicate Clean(part: string, sep: string) {
    forall i :: 0 <= i < |part| ==> !MatchAt(part + sep, sep, i)
  }

  lemma MatchInPrefix(s: string, t: string, sep: string, i: nat)
    requires i + |sep| <= |s|
    ensures MatchAt(s + t, sep, i) <==> MatchAt(s, sep, i)
  {
    assert (s + t)[i..i + |sep|] == s[i..i + |sep|];
  }

  /** Splitting the join of clean, non-empty-list parts gives the parts back. */
  lemma {:induction false} SplitJoin(parts: seq<string>, sep: string)
    requires |sep| > 0 && |parts| >= 1
    requires forall k :: 0 <= k < |parts| ==> Clean(parts[k], sep)
    ensures Split(Join(parts, sep), sep) == parts
    decreases |parts|
  {
    var p := parts[0];
    var s := Join(parts, sep);
    var i := Find(s, sep, 0);
    if |parts| == 1 {
      if i < |p| {
        MatchInPrefix(p, sep, sep, i);
        assert false;
      }
    } else {
      var rest := Join(parts[1..], sep);
      assert s == (p + sep) + rest;
      MatchInPrefix(p + sep, rest, sep, |p|);
      assert (p + sep)[|p|..|p| + |sep|] == sep;
      if i < |p| {
        MatchInPrefix(p + sep, rest, sep, i);
        assert false;
      }
      assert i == |p|;
      assert s[..i] == p;
      assert s[i + |sep|..] == rest;
      SplitJoin(parts[1..], sep);
    }
  }
}
