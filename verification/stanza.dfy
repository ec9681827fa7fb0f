/** Field parsing inside one stanza (debianSync.py lines 98-120). Every line is
    split on ':'; the text before the first colon is compared with eight keys and
    the text between the first and second colon, stripped, becomes the value.
    The parsed fields live in Python variables that survive from one stanza to
    the next; only `sha1` and `multiarch` are reset at the start of a stanza. */
module Stanza {
  import opened Base
  import opened Text

  /** The eight recognised keys; each names one script variable. */
  datatype Key = Package | Filename | MD5sum | SHA1 | SHA256 | Version | Architecture | MultiArch

  const AllKeys: set<Key> := {Package, Filename, MD5sum, SHA1, SHA256, Version, Architecture, MultiArch}

  function KeyName(k: Key): string
  {
    match k
    case Package => "Package"
    case Filename => "Filename"
    case MD5sum => "MD5sum"
    case SHA1 => "SHA1"
    case SHA256 => "SHA256"
    case Version => "Version"
    case Architecture => "Architecture"
    case MultiArch => "Multi-Arch"
  }

  lemma KeyNameFacts(k: Key)
    ensures ':' !in KeyName(k)
    ensures k in AllKeys
  {
  }

  /** The key a line head names, compared exactly (no case folding, no trimming). */
  function KeyOf(s: string): (r: Option<Key>)
    ensures r.Some? ==> KeyName(r.value) == s
    ensures r.None? ==> forall k :: KeyName(k) != s
  {
    if s == "Package" then Some(Package)
    else if s == "Filename" then Some(Filename)
    else if s == "MD5sum" then Some(MD5sum)
    else if s == "SHA1" then Some(SHA1)
    else if s == "SHA256" then Some(SHA256)
    else if s == "Version" then Some(Version)
    else if s == "Architecture" then Some(Architecture)
    else if s == "Multi-Arch" then Some(MultiArch)
    else None
  }

  /** Why the script stops with an exception: `IndexError` when `line[1]` is read
      from a line that is exactly a key with no colon, `NameError` when a variable
      is read before any stanza assigned it. */
  datatype Fault = IndexError(key: Key) | NameError(key: Key)

  /** What one line does to the variables. */
  datatype Effect = Ignore | Assign(key: Key, value: string)

  /** The script's variables: a key is absent while its variable is unassigned
      (for `multiarch`, also while it holds `None`). */
  type Fields = map<Key, string>

  /** `line` is `head + ":" + seg` followed by nothing or by another colon, and
      `seg` holds no colon. */
  ghost predicate FieldLineParts(line: string, head: string, seg: string)
  {
    var n := |head| + 1 + |seg|;
    && head + ":" + seg <= line
    && ':' !in seg
    && (n == |line| || line[n] == ':')
  }

  /** `line` sets key `k` from segment `seg`: `line` is `KeyName(k) + ":" + seg`
      followed by nothing or by another colon. */
  ghost predicate FieldLine(line: string, k: Key, seg: string)
  {
    FieldLineParts(line, KeyName(k), seg)
  }

  lemma NoColonInPiece(t: string)
    requires !Contains(t, ":")
    ensures ':' !in t
  {
    if i :| 0 <= i < |t| && t[i] == ':' {
      assert OccursAt(t, ":", i);
    }
  }

  /** What `line.split(':')` gives in `line[0]` and `line[1]`. */
  lemma HeadOfSplit(line: string)
    ensures var parts := Split(line, ":");
      && ':' !in parts[0]
      && (|parts| == 1 ==> parts[0] == line)
      && (|parts| > 1 ==> parts[0] + ":" <= line && FieldLineParts(line, parts[0], parts[1]))
  {
    var parts := Split(line, ":");
    SplitJoin(line, ":");
    SplitPieces(line, ":");
    NoColonInPiece(parts[0]);
    if |parts| > 1 {
      NoColonInPiece(parts[1]);
      var rest := parts[1..];
      assert line == parts[0] + ":" + Join(rest, ":");
      if |rest| == 1 {
        assert Join(rest, ":") == parts[1];
      } else {
        assert Join(rest, ":") == parts[1] + ":" + Join(rest[1..], ":");
      }
    }
  }

  /** Two colon-free prefixes that both end at a colon (or at the end) coincide. */
  lemma ColonFreeHeads(line: string, a: string, b: string)
    requires ':' !in a && ':' !in b
    requires a + ":" <= line || a == line
    requires b + ":" <= line || b == line
    ensures a == b
  {
    assert forall i :: 0 <= i < |a| ==> line[i] == a[i] != ':';
    assert forall i :: 0 <= i < |b| ==> line[i] == b[i] != ':';
    assert |a| < |line| ==> line[|a|] == ':';
    assert |b| < |line| ==> line[|b|] == ':';
    assert |a| == |b|;
    assert forall i :: 0 <= i < |a| ==> a[i] == line[i] == b[i];
  }

  /** One line of a stanza: split it on every ':', compare the first piece with
      the keys, and read the second piece only for a recognised key. */
  function ParseLine(line: string): Result<Effect, Fault>
  {
    var parts := Split(line, ":");
    match KeyOf(parts[0])
    case None => Success(Ignore)
    case Some(k) =>
      if |parts| < 2 then Failure(IndexError(k)) else Success(Assign(k, Strip(parts[1])))
  }

  /** A line is ignored exactly when it neither is a key nor starts with a key and
      a colon; it raises `IndexError` exactly when it is a bare key; otherwise it
      sets that key to the stripped text between its first and second colon. */
  lemma ParseLineMeaning(line: string)
    ensures ParseLine(line).Failure? <==> exists k :: line == KeyName(k)
    ensures ParseLine(line).Failure? ==>
              ParseLine(line).error.IndexError? && line == KeyName(ParseLine(line).error.key)
    ensures ParseLine(line) == Success(Ignore) <==>
              forall k :: line != KeyName(k) && !(KeyName(k) + ":" <= line)
    ensures ParseLine(line).Success? && ParseLine(line).value.Assign? ==>
              exists seg :: FieldLine(line, ParseLine(line).value.key, seg)
                            && ParseLine(line).value.value == Strip(seg)
  {
    var parts := Split(line, ":");
    HeadOfSplit(line);
    match KeyOf(parts[0])
    case None =>
      forall k ensures line != KeyName(k) && !(KeyName(k) + ":" <= line) {
        KeyNameFacts(k);
        if line == KeyName(k) || KeyName(k) + ":" <= line {
          ColonFreeHeads(line, parts[0], KeyName(k));
        }
      }
    case Some(k) =>
      if |parts| >= 2 {
        assert FieldLine(line, k, parts[1]);
        forall k' ensures line != KeyName(k') {
          KeyNameFacts(k');
        }
      }
  }

  /** The outcome of every line of a stanza, in order. */
  function ParseLines(lines: seq<string>): (rs: seq<Result<Effect, Fault>>)
    ensures |rs| == |lines|
    ensures forall i :: 0 <= i < |lines| ==> rs[i] == ParseLine(lines[i])
  {
    seq(|lines|, i requires 0 <= i < |lines| => ParseLine(lines[i]))
  }

  /** A line outcome that sets the variable of `k`. */
  predicate Sets(r: Result<Effect, Fault>, k: Key)
  {
    r.Success? && r.value.Assign? && r.value.key == k
  }

  /** `line` sets the variable of `k`. */
  predicate AssignsKey(line: string, k: Key)
  {
    Sets(ParseLine(line), k)
  }

  /** The value the last outcome that sets `k` gives it, if any does. */
  function LastSet(rs: seq<Result<Effect, Fault>>, k: Key): Option<string>
    decreases |rs|
  {
    if rs == [] then None
    else
      var later := LastSet(rs[1..], k);
      if later.Some? then later
      else if Sets(rs[0], k) then Some(rs[0].value.value)
      else None
  }

  lemma {:induction false} LastSetMeaning(rs: seq<Result<Effect, Fault>>, k: Key)
    ensures LastSet(rs, k).None? <==> forall i :: 0 <= i < |rs| ==> !Sets(rs[i], k)
    ensures LastSet(rs, k).Some? ==>
              exists i :: 0 <= i < |rs| && rs[i] == Success(Assign(k, LastSet(rs, k).value))
                          && forall j :: i < j < |rs| ==> !Sets(rs[j], k)
    decreases |rs|
  {
    if rs != [] {
      var rest := rs[1..];
      LastSetMeaning(rest, k);
      assert forall i :: 1 <= i < |rs| ==> rs[i] == rest[i - 1];
      var later := LastSet(rest, k);
      if later.Some? {
        var i :| 0 <= i < |rest| && rest[i] == Success(Assign(k, later.value))
                 && forall j :: i < j < |rest| ==> !Sets(rest[j], k);
        assert rs[i + 1] == Success(Assign(k, later.value));
      }
    }
  }

  /** The value the last line of `lines` that sets `k` gives it, if any line does. */
  function LastValue(lines: seq<string>, k: Key): Option<string>
  {
    LastSet(ParseLines(lines), k)
  }

  /** `LastValue` finds the value of the last line that sets `k`, and nothing when
      no line sets it. */
  lemma LastValueMeaning(lines: seq<string>, k: Key)
    ensures LastValue(lines, k).None? <==> forall i :: 0 <= i < |lines| ==> !AssignsKey(lines[i], k)
    ensures LastValue(lines, k).Some? ==>
              exists i :: 0 <= i < |lines| && ParseLine(lines[i]) == Success(Assign(k, LastValue(lines, k).value))
                          && forall j :: i < j < |lines| ==> !AssignsKey(lines[j], k)
  {
    var rs := ParseLines(lines);
    LastSetMeaning(rs, k);
    if LastSet(rs, k).Some? {
      var i :| 0 <= i < |rs| && rs[i] == Success(Assign(k, LastSet(rs, k).value))
               && forall j :: i < j < |rs| ==> !Sets(rs[j], k);
      assert ParseLine(lines[i]) == Success(Assign(k, LastValue(lines, k).value));
    }
  }

  /** The inner loop over the outcomes of the lines, in order; the first line that
      raises stops the script. */
  function Apply(rs: seq<Result<Effect, Fault>>, f: Fields): Result<Fields, Fault>
    decreases |rs|
  {
    if rs == [] then Success(f)
    else
      match rs[0]
      case Failure(e) => Failure(e)
      case Success(Ignore) => Apply(rs[1..], f)
      case Success(Assign(k, v)) => Apply(rs[1..], f[k := v])
  }

  lemma {:induction false} ApplyAllSucceed(rs: seq<Result<Effect, Fault>>, f: Fields)
    requires forall i :: 0 <= i < |rs| ==> rs[i].Success?
    ensures Apply(rs, f).Success?
    decreases |rs|
  {
    if rs != [] {
      var e := rs[0].value;
      var rest := rs[1..];
      assert forall i :: 0 <= i < |rest| ==> rest[i] == rs[i + 1];
      ApplyAllSucceed(rest, if e.Assign? then f[e.key := e.value] else f);
    }
  }

  lemma {:induction false} ApplyFirstFailure(rs: seq<Result<Effect, Fault>>, f: Fields, i: nat)
    requires i < |rs| && rs[i].Failure?
    requires forall j :: 0 <= j < i ==> rs[j].Success?
    ensures Apply(rs, f) == Failure(rs[i].error)
    decreases i
  {
    if i > 0 {
      var e := rs[0].value;
      var rest := rs[1..];
      assert rest[i - 1] == rs[i];
      assert forall j :: 0 <= j < i - 1 ==> rest[j] == rs[j + 1];
      ApplyFirstFailure(rest, if e.Assign? then f[e.key := e.value] else f, i - 1);
    }
  }

  lemma {:induction false} ApplyLastWins(rs: seq<Result<Effect, Fault>>, f: Fields)
    requires Apply(rs, f).Success?
    ensures forall k :: LastSet(rs, k).Some? ==>
              k in Apply(rs, f).value && Apply(rs, f).value[k] == LastSet(rs, k).value
    ensures forall k :: LastSet(rs, k).None? ==>
              (k in Apply(rs, f).value <==> k in f)
              && (k in f ==> Apply(rs, f).value[k] == f[k])
    decreases |rs|
  {
    if rs != [] {
      match rs[0]
      case Success(Ignore) =>
        ApplyLastWins(rs[1..], f);
      case Success(Assign(k, v)) =>
        ApplyLastWins(rs[1..], f[k := v]);
    }
  }

  /** The inner loop over the lines of one stanza. */
  function ApplyLines(lines: seq<string>, f: Fields): Result<Fields, Fault>
  {
    Apply(ParseLines(lines), f)
  }

  /** The inner loop goes through when no line raises. */
  lemma ApplyLinesSucceed(lines: seq<string>, f: Fields)
    requires forall i :: 0 <= i < |lines| ==> ParseLine(lines[i]).Success?
    ensures ApplyLines(lines, f).Success?
  {
    ApplyAllSucceed(ParseLines(lines), f);
  }

  /** The inner loop stops with the exception of the first line that raises. */
  lemma ApplyLinesFirstFailure(lines: seq<string>, f: Fields, i: nat)
    requires i < |lines| && ParseLine(lines[i]).Failure?
    requires forall j :: 0 <= j < i ==> ParseLine(lines[j]).Success?
    ensures ApplyLines(lines, f) == Failure(ParseLine(lines[i]).error)
  {
    ApplyFirstFailure(ParseLines(lines), f, i);
  }

  /** Last occurrence wins: after the lines, a key holds the value of the last line
      that sets it, and a key no line sets keeps what it held before. */
  lemma ApplyLinesLastWins(lines: seq<string>, f: Fields)
    requires ApplyLines(lines, f).Success?
    ensures forall k :: LastValue(lines, k).Some? ==>
              k in ApplyLines(lines, f).value && ApplyLines(lines, f).value[k] == LastValue(lines, k).value
    ensures forall k :: LastValue(lines, k).None? ==>
              (k in ApplyLines(lines, f).value <==> k in f)
              && (k in f ==> ApplyLines(lines, f).value[k] == f[k])
  {
    ApplyLastWins(ParseLines(lines), f);
  }

  /** The start of every stanza: `sha1 = ''` and `multiarch = None`. */
  function Reset(f: Fields): (r: Fields)
    ensures SHA1 in r && r[SHA1] == ""
    ensures MultiArch !in r
    ensures forall k :: k != SHA1 && k != MultiArch ==> (k in r <==> k in f) && (k in f ==> r[k] == f[k])
  {
    f[SHA1 := ""] - {MultiArch}
  }

  /** The variables after one stanza, `pkg`, starting from those the previous
      stanzas left: reset, then the lines of `pkg.split('\n')` in order. */
  function ParseStanza(pkg: string, f: Fields): (r: Result<Fields, Fault>)
  {
    ApplyLines(Split(pkg, "\n"), Reset(f))
  }

  /** Per-stanza reset: a key the stanza sets holds the stanza's last value for it;
      otherwise `sha1` is '', `multiarch` is unset, and every other variable keeps
      the value an earlier stanza gave it. */
  lemma StanzaCarriesOver(pkg: string, f: Fields, k: Key)
    requires ParseStanza(pkg, f).Success?
    ensures var g := ParseStanza(pkg, f).value;
            var v := LastValue(Split(pkg, "\n"), k);
            && (v.Some? ==> k in g && g[k] == v.value)
            && (v.None? && k == SHA1 ==> k in g && g[k] == "")
            && (v.None? && k == MultiArch ==> k !in g)
            && (v.None? && k != SHA1 && k != MultiArch ==> (k in g <==> k in f) && (k in f ==> g[k] == f[k]))
  {
    ApplyLinesLastWins(Split(pkg, "\n"), Reset(f));
  }
}
