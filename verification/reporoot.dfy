/** Repo-root inference (debianSync.py lines 57-74). Five regexes of the shape
    `(.*MARKER/)` are searched for in the index URL, in a fixed order, and every
    one that matches overwrites the root, so the last matching marker decides. */
module RepoRoot {
  import opened Base

  /** One element of a marker regex: a literal character, or an unescaped `.`,
      which matches any character except a newline. */
  datatype Atom = Lit(c: char) | AnyButNewline

  type Pattern = seq<Atom>

  predicate AtomMatches(a: Atom, c: char)
  {
    match a
    case Lit(d) => c == d
    case AnyButNewline => c != '\n'
  }

  /** The pattern `p` matches `s` starting at index `j`. */
  predicate MatchesAt(s: string, p: Pattern, j: int)
  {
    0 <= j && j + |p| <= |s| && forall k :: 0 <= k < |p| ==> AtomMatches(p[k], s[j + k])
  }

  /** A regex made only of escaped or ordinary literal characters. */
  function Literal(t: string): Pattern
  {
    seq(|t|, k requires 0 <= k < |t| => Lit(t[k]))
  }

  const Ubuntu: Pattern := Literal("ubuntu/")
  const Debian: Pattern := Literal("debian/")
  const SecurityDebian: Pattern := Literal("security.debian.org/")
  const CanonicalArchive: Pattern := Literal("archive.canonical.com/")
  /** The dot between "postgresql" and "org" is not escaped in the script, so it
      stands for any character but a newline. */
  const PostgresApt: Pattern := Literal("postgresql") + [AnyButNewline] + Literal("org/pub/repos/apt/")

  /** The unescaped dot in the postgresql marker: any character but a newline
      may stand between "postgresql" and "org". */
  lemma PostgresDotIsWildcard(c: char)
    ensures MatchesAt("postgresql" + [c] + "org/pub/repos/apt/", PostgresApt, 0) <==> c != '\n'
  {
    var s := "postgresql" + [c] + "org/pub/repos/apt/";
    var a, b := Literal("postgresql"), Literal("org/pub/repos/apt/");
    assert |s| == |PostgresApt|;
    assert PostgresApt[10] == AnyButNewline && s[10] == c;
    if c != '\n' {
      forall k | 0 <= k < |PostgresApt| ensures AtomMatches(PostgresApt[k], s[k]) {
        if k < 10 {
          assert PostgresApt[k] == a[k] && s[k] == "postgresql"[k];
        } else if k > 10 {
          assert PostgresApt[k] == b[k - 11] && s[k] == "org/pub/repos/apt/"[k - 11];
        }
      }
    }
  }

  /** The markers in the order the script tries them. */
  const Markers: seq<Pattern> := [Ubuntu, Debian, SecurityDebian, CanonicalArchive, PostgresApt]

  /** `(.*P)` can match `s[i..j + |p|]`: the `.*` spans `s[i..j]`, which holds no
      newline, and `p` matches at `j`. */
  predicate Candidate(s: string, p: Pattern, i: int, j: int)
  {
    0 <= i <= j && MatchesAt(s, p, j) && forall k :: i <= k < j ==> s[k] != '\n'
  }

  /** The match `re.search` picks for `(.*P)`: the leftmost start `i`, and for it
      the longest `.*`, ending the match at `j + |p|`. */
  ghost predicate IsSearchMatch(s: string, p: Pattern, i: int, j: int)
  {
    && Candidate(s, p, i, j)
    && (forall a, b :: 0 <= a < i ==> !Candidate(s, p, a, b))
    && (forall b :: j < b ==> !Candidate(s, p, i, b))
  }

  /** The index of the first newline at or after `i`, or `|s|`. */
  function LineEnd(s: string, i: nat): (e: nat)
    requires i <= |s|
    ensures i <= e <= |s|
    ensures e < |s| ==> s[e] == '\n'
    ensures forall k :: i <= k < e ==> s[k] != '\n'
    decreases |s| - i
  {
    if i == |s| || s[i] == '\n' then i else LineEnd(s, i + 1)
  }

  /** The greatest `j` in `[lo, hi]` at which `p` matches, if any. */
  function LastMatch(s: string, p: Pattern, lo: nat, hi: nat): (r: Option<nat>)
    requires lo <= hi
    ensures r.Some? ==> lo <= r.value <= hi && MatchesAt(s, p, r.value)
    ensures r.Some? ==> forall j :: r.value < j <= hi ==> !MatchesAt(s, p, j)
    ensures r.None? ==> forall j :: lo <= j <= hi ==> !MatchesAt(s, p, j)
    decreases hi - lo
  {
    if MatchesAt(s, p, hi) then Some(hi)
    else if hi == lo then None
    else LastMatch(s, p, lo, hi - 1)
  }

  /** Searches line by line from index `i`, no earlier start having a match. */
  function SearchFrom(s: string, p: Pattern, i: nat): (r: Option<string>)
    requires i <= |s|
    requires forall a, b :: 0 <= a < i ==> !Candidate(s, p, a, b)
    ensures r.None? <==> forall a, b :: !Candidate(s, p, a, b)
    ensures r.Some? ==> exists a, b :: IsSearchMatch(s, p, a, b) && r.value == s[a..b + |p|]
    ensures r.Some? ==> |r.value| >= |p|
    decreases |s| - i
  {
    var e := LineEnd(s, i);
    match LastMatch(s, p, i, e)
    case Some(j) =>
      assert Candidate(s, p, i, j);
      assert forall b :: j < b ==> !Candidate(s, p, i, b);
      assert IsSearchMatch(s, p, i, j);
      Some(s[i..j + |p|])
    case None =>
      assert forall a, b :: i <= a <= e ==> !Candidate(s, p, a, b);
      if e == |s| then None else SearchFrom(s, p, e + 1)
  }

  /** `re.search("(.*P)", s).group(1)`, or `None` when there is no match. */
  function Search(s: string, p: Pattern): (r: Option<string>)
    ensures r.None? <==> forall a, b :: !Candidate(s, p, a, b)
    ensures r.Some? ==> exists a, b :: IsSearchMatch(s, p, a, b) && r.value == s[a..b + |p|]
    ensures r.Some? ==> |r.value| >= |p|
  {
    SearchFrom(s, p, 0)
  }

  /** For a URL without newlines (the usual case), the match is the prefix of the
      URL that ends with the LAST occurrence of the marker. */
  lemma SearchWithoutNewline(s: string, p: Pattern, j: nat)
    requires '\n' !in s
    requires MatchesAt(s, p, j)
    requires forall b :: j < b ==> !MatchesAt(s, p, b)
    ensures Search(s, p) == Some(s[..j + |p|])
  {
    assert Candidate(s, p, 0, j);
    var r := Search(s, p);
    var a, b :| IsSearchMatch(s, p, a, b) && r.value == s[a..b + |p|];
    assert Candidate(s, p, a, b);
  }

  /** For a URL without newlines, the search fails exactly when the marker occurs nowhere. */
  lemma SearchFailsWithoutNewline(s: string, p: Pattern)
    requires '\n' !in s
    ensures Search(s, p).None? <==> forall j :: !MatchesAt(s, p, j)
  {
    if j :| MatchesAt(s, p, j) {
      assert Candidate(s, p, 0, j);
    }
  }

  /** Folds the per-marker search results in order, each match overwriting the
      root found so far, while a failed search leaves it as it was. */
  function Overwrite(matches: seq<Option<string>>, root: Option<string>): Option<string>
    decreases |matches|
  {
    if matches == [] then root
    else if matches[|matches| - 1].Some? then matches[|matches| - 1]
    else Overwrite(matches[..|matches| - 1], root)
  }

  /** The last present match wins; with none, the initial root stays. */
  lemma {:induction false} OverwriteMeaning(matches: seq<Option<string>>, root: Option<string>)
    ensures Overwrite(matches, root).None? <==> root.None? && forall k :: 0 <= k < |matches| ==> matches[k].None?
    ensures (forall k :: 0 <= k < |matches| ==> matches[k].None?) ==> Overwrite(matches, root) == root
    ensures forall k :: 0 <= k < |matches| && matches[k].Some?
                        && (forall k' :: k < k' < |matches| ==> matches[k'].None?)
                        ==> Overwrite(matches, root) == matches[k]
    ensures Overwrite(matches, root) == root || exists k :: 0 <= k < |matches| && Overwrite(matches, root) == matches[k]
    decreases |matches|
  {
    if matches != [] {
      var n := |matches| - 1;
      var front := matches[..n];
      OverwriteMeaning(front, root);
      assert forall k :: 0 <= k < n ==> front[k] == matches[k];
      if matches[n].Some? {
        assert Overwrite(matches, root) == matches[n];
      } else {
        if Overwrite(front, root) != root {
          var k :| 0 <= k < n && Overwrite(front, root) == front[k];
          assert Overwrite(matches, root) == matches[k];
        }
        forall k | 0 <= k < |matches| && matches[k].Some?
                   && (forall k' :: k < k' < |matches| ==> matches[k'].None?)
          ensures Overwrite(matches, root) == matches[k]
        {
          assert k < n && front[k] == matches[k];
        }
      }
    }
  }

  /** The search result of every marker, in script order. */
  function MarkerMatches(url: string): (ms: seq<Option<string>>)
    ensures |ms| == |Markers|
    ensures forall k :: 0 <= k < |Markers| ==> ms[k] == Search(url, Markers[k])
  {
    seq(|Markers|, k requires 0 <= k < |Markers| => Search(url, Markers[k]))
  }

  /** The repo root the script infers from the index URL: `None` when no marker
      matches, otherwise the match of the last marker, in script order, that matches. */
  function Resolve(url: string): (root: Option<string>)
    ensures root.None? <==> forall k :: 0 <= k < |Markers| ==> Search(url, Markers[k]).None?
    ensures forall k :: 0 <= k < |Markers| && Search(url, Markers[k]).Some?
                        && (forall k' :: k < k' < |Markers| ==> Search(url, Markers[k']).None?)
                        ==> root == Search(url, Markers[k])
    ensures root.None? || exists k :: 0 <= k < |Markers| && root == Search(url, Markers[k])
  {
    OverwriteMeaning(MarkerMatches(url), None);
    Overwrite(MarkerMatches(url), None)
  }

  /** `r` is the prefix of `url` that ends with the last occurrence of `p`. */
  ghost predicate PrefixThroughLast(url: string, r: string, p: Pattern)
  {
    && |p| <= |r| <= |url| && r == url[..|r|]
    && MatchesAt(url, p, |r| - |p|)
    && forall b :: |r| - |p| < b ==> !MatchesAt(url, p, b)
  }

  /** For a string without newlines, a successful search returns the prefix that
      ends with the last occurrence of the pattern. */
  lemma SearchIsPrefix(s: string, p: Pattern)
    requires '\n' !in s
    requires Search(s, p).Some?
    ensures PrefixThroughLast(s, Search(s, p).value, p)
  {
    var r := Search(s, p).value;
    var a, b :| IsSearchMatch(s, p, a, b) && r == s[a..b + |p|];
    assert Candidate(s, p, 0, b);
    assert a == 0;
    forall b' | b < b' ensures !MatchesAt(s, p, b') {
      assert !Candidate(s, p, 0, b');
    }
  }

  /** The shape of an inferred root: for a URL without newlines, it is the prefix
      of the URL that ends with the last occurrence of one of the markers. */
  lemma RootIsUrlPrefix(url: string)
    requires '\n' !in url
    requires Resolve(url).Some?
    ensures exists k :: 0 <= k < |Markers| && PrefixThroughLast(url, Resolve(url).value, Markers[k])
  {
    var k :| 0 <= k < |Markers| && Resolve(url) == Search(url, Markers[k]);
    SearchIsPrefix(url, Markers[k]);
  }

  lemma MarkersNonEmpty(k: nat)
    requires k < |Markers|
    ensures |Markers[k]| > 0
  {
    assert |Literal("ubuntu/")| == 7;
  }

  /** `if not repoRoot`: Python also treats the empty string as missing. */
  predicate NeedsRootWarning(root: Option<string>)
  {
    root.None? || root.value == ""
  }

  /** A matched root is never empty, so the error line is printed exactly when no
      marker matched; the run goes on either way. */
  lemma RootWarningIffNoMarker(url: string)
    ensures NeedsRootWarning(Resolve(url)) <==> Resolve(url).None?
  {
    var root := Resolve(url);
    if root.Some? {
      var k :| 0 <= k < |Markers| && root == Search(url, Markers[k]);
      MarkersNonEmpty(k);
    }
  }
}
