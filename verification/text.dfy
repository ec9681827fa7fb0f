/** The string primitives of Python 2 that the script relies on: `str.split(sep)`,
    `str.strip()` and `os.path.basename`. Strings are sequences of characters. */
module Text {
  import opened Base

  /** `sep` occurs in `s` starting at index `k`. */
  predicate OccursAt(s: string, sep: string, k: int)
  {
    0 <= k && k + |sep| <= |s| && s[k..k + |sep|] == sep
  }

  /** `sep` occurs somewhere in `s`. */
  ghost predicate Contains(s: string, sep: string)
  {
    exists k :: OccursAt(s, sep, k)
  }

  /** In `piece + sep`, the first occurrence of `sep` is the one appended at the end:
      a left-to-right scan for `sep` stops exactly after `piece`. */
  ghost predicate EndsAtFirstOccurrence(piece: string, sep: string)
  {
    forall k :: 0 <= k < |piece| ==> !OccursAt(piece + sep, sep, k)
  }

  /** The inverse of splitting: `sep.join(parts)`. */
  function Join(parts: seq<string>, sep: string): string
    requires |parts| > 0
  {
    if |parts| == 1 then parts[0] else parts[0] + sep + Join(parts[1..], sep)
  }

  /** Index of the leftmost occurrence of `sep` in `s` at or after `from`. */
  function FindFrom(s: string, sep: string, from: nat): (r: Option<nat>)
    requires from <= |s|
    ensures r.Some? ==> from <= r.value && OccursAt(s, sep, r.value)
    ensures r.Some? ==> forall k :: from <= k < r.value ==> !OccursAt(s, sep, k)
    ensures r.None? ==> forall k :: from <= k ==> !OccursAt(s, sep, k)
    decreases |s| - from
  {
    if from + |sep| > |s| then None
    else if s[from..from + |sep|] == sep then Some(from)
    else FindFrom(s, sep, from + 1)
  }

  /** An occurrence inside a prefix is an occurrence in the whole string. */
  lemma OccursInPrefix(s: string, sep: string, n: nat, k: int)
    requires n <= |s|
    requires OccursAt(s[..n], sep, k)
    ensures OccursAt(s, sep, k)
  {
    assert s[..n][k..k + |sep|] == s[k..k + |sep|];
  }

  /** Python's `s.split(sep)` for a non-empty separator: cut at every occurrence of
      `sep`, scanning left to right without overlaps. There is always at least one
      piece, and an input ending in `sep` yields an empty last piece. */
  function Split(s: string, sep: string): (parts: seq<string>)
    requires |sep| > 0
    ensures |parts| > 0
    decreases |s|
  {
    match FindFrom(s, sep, 0)
    case None => [s]
    case Some(k) => [s[..k]] + Split(s[k + |sep|..], sep)
  }

  /** The text before the leftmost occurrence of `sep` contains no `sep`, and the
      scan over it followed by `sep` stops exactly at its end. */
  lemma HeadBeforeFirst(s: string, sep: string, k: nat)
    requires |sep| > 0 && k <= |s|
    requires OccursAt(s, sep, k)
    requires forall j :: 0 <= j < k ==> !OccursAt(s, sep, j)
    ensures !Contains(s[..k], sep)
    ensures EndsAtFirstOccurrence(s[..k], sep)
  {
    var head := s[..k];
    forall j | OccursAt(head, sep, j) ensures false {
      OccursInPrefix(s, sep, k, j);
    }
    assert head + sep == s[..k + |sep|];
    forall j | 0 <= j < |head| && OccursAt(head + sep, sep, j) ensures false {
      OccursInPrefix(s, sep, k + |sep|, j);
    }
  }

  /** Splitting loses nothing: the pieces join back to `s`. */
  lemma {:induction false} SplitJoin(s: string, sep: string)
    requires |sep| > 0
    ensures Join(Split(s, sep), sep) == s
    decreases |s|
  {
    match FindFrom(s, sep, 0)
    case None =>
    case Some(k) =>
      var tail := s[k + |sep|..];
      SplitJoin(tail, sep);
      assert Split(s, sep) == [s[..k]] + Split(tail, sep);
      assert s == s[..k] + sep + tail;
  }

  /** No piece of a split contains `sep`, and every piece but the last stops at the
      first occurrence of `sep`. */
  lemma {:induction false} SplitPieces(s: string, sep: string)
    requires |sep| > 0
    ensures forall i :: 0 <= i < |Split(s, sep)| ==> !Contains(Split(s, sep)[i], sep)
    ensures forall i :: 0 <= i < |Split(s, sep)| - 1 ==> EndsAtFirstOccurrence(Split(s, sep)[i], sep)
    decreases |s|
  {
    match FindFrom(s, sep, 0)
    case None =>
      assert !Contains(s, sep);
    case Some(k) =>
      var tail := s[k + |sep|..];
      SplitPieces(tail, sep);
      HeadBeforeFirst(s, sep, k);
      var parts := Split(s, sep);
      assert parts == [s[..k]] + Split(tail, sep);
      assert forall i :: 1 <= i < |parts| ==> parts[i] == Split(tail, sep)[i - 1];
  }

  /** The pieces `Split` produces are the only ones with its three properties: no
      piece contains `sep`, every piece but the last ends where the left-to-right
      scan finds `sep`, and the pieces join back to `s`. */
  lemma {:induction false} SplitUnique(s: string, sep: string, parts: seq<string>)
    requires |sep| > 0
    requires |parts| > 0
    requires Join(parts, sep) == s
    requires !Contains(parts[|parts| - 1], sep)
    requires forall i :: 0 <= i < |parts| - 1 ==> EndsAtFirstOccurrence(parts[i], sep)
    ensures Split(s, sep) == parts
    decreases |parts|
  {
    if |parts| == 1 {
      assert s == parts[0];
      assert forall k :: !OccursAt(s, sep, k);
      assert FindFrom(s, sep, 0).None?;
    } else {
      var p := parts[0];
      var tail := Join(parts[1..], sep);
      assert s == p + sep + tail;
      assert s[..|p| + |sep|] == p + sep;
      assert OccursAt(s, sep, |p|);
      forall k | 0 <= k < |p| ensures !OccursAt(s, sep, k) {
        assert EndsAtFirstOccurrence(parts[0], sep);
        assert (p + sep)[k..k + |sep|] == s[k..k + |sep|];
        assert !OccursAt(p + sep, sep, k);
      }
      assert FindFrom(s, sep, 0) == Some(|p|);
      assert s[|p| + |sep|..] == tail;
      assert s[..|p|] == p;
      var rest := parts[1..];
      assert rest[|rest| - 1] == parts[|parts| - 1];
      forall i | 0 <= i < |rest| - 1 ensures EndsAtFirstOccurrence(rest[i], sep) {
        assert rest[i] == parts[i + 1];
      }
      SplitUnique(tail, sep, rest);
      assert parts == [p] + rest;
      assert Split(s, sep) == [s[..|p|]] + Split(tail, sep);
    }
  }

  /** A piece free of the one-character separator `[c]` contains no separator and
      ends where a scan for it would stop. */
  lemma SingleCharPiece(piece: string, c: char)
    requires c !in piece
    ensures !Contains(piece, [c])
    ensures EndsAtFirstOccurrence(piece, [c])
  {
    forall k | 0 <= k < |piece| ensures !OccursAt(piece, [c], k) {
      assert piece[k..k + 1][0] == piece[k];
    }
    var t := piece + [c];
    forall k | 0 <= k < |piece| ensures !OccursAt(t, [c], k) {
      assert t[k..k + 1][0] == t[k] == piece[k];
    }
  }

  /** The whitespace Python 2's byte-string `strip()` removes: space, tab, newline,
      carriage return, vertical tab and form feed. */
  predicate IsSpace(c: char)
  {
    c == ' ' || c == '\t' || c == '\n' || c == '\r' || c == '\U{B}' || c == '\U{C}'
  }

  function StripLeft(s: string): (r: string)
    ensures |r| <= |s| && r == s[|s| - |r|..]
    ensures forall i :: 0 <= i < |s| - |r| ==> IsSpace(s[i])
    ensures |r| > 0 ==> !IsSpace(r[0])
  {
    if |s| > 0 && IsSpace(s[0]) then StripLeft(s[1..]) else s
  }

  function StripRight(s: string): (r: string)
    ensures |r| <= |s| && r == s[..|r|]
    ensures forall i :: |r| <= i < |s| ==> IsSpace(s[i])
    ensures |r| > 0 ==> !IsSpace(r[|r| - 1])
  {
    if |s| > 0 && IsSpace(s[|s| - 1]) then StripRight(s[..|s| - 1]) else s
  }

  /** `r` is `s` with the first `a` characters and some last characters cut off,
      all of them whitespace. */
  ghost predicate TrimmedAt(s: string, r: string, a: int)
  {
    && 0 <= a <= a + |r| <= |s| && r == s[a..a + |r|]
    && (forall i :: 0 <= i < a ==> IsSpace(s[i]))
    && (forall i :: a + |r| <= i < |s| ==> IsSpace(s[i]))
  }

  /** Python's `s.strip()`: the infix of `s` left after removing leading and
      trailing whitespace; it neither starts nor ends with whitespace. */
  function Strip(s: string): (r: string)
    ensures exists a :: TrimmedAt(s, r, a)
    ensures |r| > 0 ==> !IsSpace(r[0]) && !IsSpace(r[|r| - 1])
  {
    var l := StripLeft(s);
    var r := StripRight(l);
    var a := |s| - |l|;
    assert TrimmedAt(s, r, a);
    r
  }

  /** `os.path.basename(p)`: the text after the last '/' of `p`, all of `p` if it has none. */
  function Basename(p: string): string
  {
    if |p| == 0 || p[|p| - 1] == '/' then ""
    else Basename(p[..|p| - 1]) + [p[|p| - 1]]
  }

  /** `os.path.basename`: the part of the path after its last '/'. */
  lemma {:induction false} BasenameMeaning(p: string)
    ensures '/' !in Basename(p)
    ensures |Basename(p)| <= |p| && Basename(p) == p[|p| - |Basename(p)|..]
    ensures |Basename(p)| < |p| ==> p[|p| - |Basename(p)| - 1] == '/'
    decreases |p|
  {
    if |p| > 0 && p[|p| - 1] != '/' {
      var q := p[..|p| - 1];
      BasenameMeaning(q);
      assert Basename(p) == Basename(q) + [p[|p| - 1]];
      assert '/' !in [p[|p| - 1]];
      assert p[|p| - |Basename(p)|..] == q[|q| - |Basename(q)|..] + [p[|p| - 1]];
    }
  }
}
