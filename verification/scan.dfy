/** The main loop over the index (debianSync.py lines 91-135): split the
    decompressed text on "\n\n", and for each stanza count it, parse it, diff it
    and maybe report it. Variables carry over from stanza to stanza. */
module Scan {
  import opened Base
  import opened Text
  import opened Stanza
  import opened Diff
  import opened Report

  /** The counters and lists the loop builds: `repoPkgCount`, `syncedPkgCount`,
      `syncPkgs` and the lines written to the Multi-Arch file. */
  datatype Plan = Plan(repoCount: nat, syncedCount: nat, toSync: seq<string>, report: seq<string>)

  /** Loop state: the script variables and the counters. */
  datatype State = State(fields: Fields, plan: Plan)

  const Start: State := State(map[], Plan(0, 0, [], []))

  /** One iteration of `for pkg in pkgs.split('\n\n')`. */
  function Step(pkg: string, known: set<string>, st: State): (r: Result<State, Fault>)
    ensures r.Success? ==> r.value.plan.repoCount == st.plan.repoCount + 1
    ensures r.Success? ==> r.value.plan.syncedCount + |r.value.plan.toSync|
                             == st.plan.syncedCount + |st.plan.toSync| + 1
    ensures r.Success? ==> st.plan.toSync <= r.value.plan.toSync && st.plan.report <= r.value.plan.report
    ensures r.Success? ==>
              || (r.value.plan.syncedCount == st.plan.syncedCount + 1 && r.value.plan.toSync == st.plan.toSync)
              || (r.value.plan.syncedCount == st.plan.syncedCount && |r.value.plan.toSync| == |st.plan.toSync| + 1)
  {
    var f :- ParseStanza(pkg, st.fields);
    var d :- Decide(f, known);
    var line :- ReportLine(f);
    var p := st.plan;
    Success(State(f, Plan(
      p.repoCount + 1,
      if d.AlreadySynced? then p.syncedCount + 1 else p.syncedCount,
      if d.NeedsSync? then p.toSync + [d.filename] else p.toSync,
      if line.Some? then p.report + [line.value] else p.report)))
  }

  /** The loop over the remaining stanzas; the first exception ends the script. */
  function ScanStanzas(pkgs: seq<string>, known: set<string>, st: State): (r: Result<State, Fault>)
    ensures r.Success? ==> r.value.plan.repoCount == st.plan.repoCount + |pkgs|
    ensures r.Success? ==> r.value.plan.syncedCount + |r.value.plan.toSync|
                             == st.plan.syncedCount + |st.plan.toSync| + |pkgs|
    ensures r.Success? ==> st.plan.toSync <= r.value.plan.toSync && st.plan.report <= r.value.plan.report
    ensures r.Success? ==> st.plan.syncedCount <= r.value.plan.syncedCount
    decreases |pkgs|
  {
    if pkgs == [] then Success(st)
    else
      var next :- Step(pkgs[0], known, st);
      ScanStanzas(pkgs[1..], known, next)
  }

  /** The whole parse-and-diff phase for the decompressed index text. Every
      "\n\n"-separated chunk counts as a package, including an empty last chunk,
      and each is either already synced or queued for sync. */
  function ScanIndex(text: string, known: set<string>): (r: Result<Plan, Fault>)
    ensures r.Success? ==> r.value.repoCount == |Split(text, "\n\n")|
    ensures r.Success? ==> r.value.repoCount == r.value.syncedCount + |r.value.toSync|
  {
    var st :- ScanStanzas(Split(text, "\n\n"), known, Start);
    Success(st.plan)
  }

  // ---- Reference definitions: what each stanza leaves in the variables, stated
  // ---- per key, and the plan as filters over the resulting states.

  /** The variables after stanza `pkg`: each key holds the stanza's last value for
      it, or else what the stanza reset left. */
  ghost function Settle(f: Fields, pkg: string): Fields
  {
    var lines := Split(pkg, "\n");
    var base := Reset(f);
    map k | k in AllKeys && (LastValue(lines, k).Some? || k in base) ::
      if LastValue(lines, k).Some? then LastValue(lines, k).value else base[k]
  }

  /** The variables after each stanza in turn. */
  ghost function Trace(pkgs: seq<string>, f: Fields): (t: seq<Fields>)
    ensures |t| == |pkgs|
    decreases |pkgs|
  {
    if pkgs == [] then [] else [Settle(f, pkgs[0])] + Trace(pkgs[1..], Settle(f, pkgs[0]))
  }

  /** What one state adds to `syncPkgs`: its filename when its checksums are all unknown. */
  ghost function SyncOf(g: Fields, known: set<string>): seq<string>
  {
    if MissingFromServer(g, known) && Filename in g then [g[Filename]] else []
  }

  /** What one state adds to the synced count: one when a checksum is known. */
  ghost function CountOf(g: Fields, known: set<string>): nat
  {
    if IsKnown(g, MD5sum, known) || IsKnown(g, SHA1, known) || IsKnown(g, SHA256, known) then 1 else 0
  }

  /** What one state adds to the report: a line when `multiarch` is set. */
  ghost function ReportOf(g: Fields): seq<string>
  {
    if MultiArch in g && Package in g && Version in g && Architecture in g
    then [FormatLine(g[Package], g[Version], g[Architecture], g[MultiArch])] else []
  }

  /** The filenames of the states whose checksums are all unknown, in order. */
  ghost function SyncList(t: seq<Fields>, known: set<string>): seq<string>
  {
    if t == [] then [] else SyncOf(t[0], known) + SyncList(t[1..], known)
  }

  /** The number of states with at least one known checksum. */
  ghost function SyncedCount(t: seq<Fields>, known: set<string>): nat
  {
    if t == [] then 0 else CountOf(t[0], known) + SyncedCount(t[1..], known)
  }

  /** One report line per state whose `multiarch` is set, in order. */
  ghost function ReportLines(t: seq<Fields>): seq<string>
  {
    if t == [] then [] else ReportOf(t[0]) + ReportLines(t[1..])
  }

  /** Parsing a stanza gives exactly the per-key description `Settle`. */
  lemma ParseStanzaSettles(pkg: string, f: Fields)
    requires ParseStanza(pkg, f).Success?
    ensures ParseStanza(pkg, f).value == Settle(f, pkg)
  {
    var g := ParseStanza(pkg, f).value;
    var h := Settle(f, pkg);
    forall k ensures (k in g <==> k in h) && (k in g ==> g[k] == h[k]) {
      KeyNameFacts(k);
      StanzaCarriesOver(pkg, f, k);
    }
    assert g.Keys == h.Keys;
  }

  /** The loop takes one step, then continues with the rest. */
  lemma ScanCons(pkgs: seq<string>, known: set<string>, st: State)
    requires pkgs != []
    requires ScanStanzas(pkgs, known, st).Success?
    ensures Step(pkgs[0], known, st).Success?
    ensures ScanStanzas(pkgs, known, st) == ScanStanzas(pkgs[1..], known, Step(pkgs[0], known, st).value)
  {
  }

  lemma TraceCons(pkgs: seq<string>, f: Fields)
    requires pkgs != []
    ensures Trace(pkgs, f) == [Settle(f, pkgs[0])] + Trace(pkgs[1..], Settle(f, pkgs[0]))
  {
  }

  /** One iteration adds exactly the contributions of the state `Settle` describes. */
  lemma StepFollowsSettle(pkg: string, known: set<string>, st: State, next: State)
    requires Step(pkg, known, st) == Success(next)
    ensures next.fields == Settle(st.fields, pkg)
    ensures next.plan.toSync == st.plan.toSync + SyncOf(next.fields, known)
    ensures next.plan.syncedCount == st.plan.syncedCount + CountOf(next.fields, known)
    ensures next.plan.report == st.plan.report + ReportOf(next.fields)
  {
    ParseStanzaSettles(pkg, st.fields);
  }

  /** The filters over a trace split at its first state. */
  lemma FiltersCons(t: seq<Fields>, g: Fields, rest: seq<Fields>, known: set<string>)
    requires t == [g] + rest
    ensures SyncList(t, known) == SyncOf(g, known) + SyncList(rest, known)
    ensures SyncedCount(t, known) == CountOf(g, known) + SyncedCount(rest, known)
    ensures ReportLines(t) == ReportOf(g) + ReportLines(rest)
  {
    assert t[0] == g && t[1..] == rest;
  }

  /** The loop computes the reference plan: `syncPkgs` is the filenames of the
      stanzas none of whose checksums is known, in index order; the synced count
      is the number of stanzas with a known checksum; the report has one line per
      stanza whose `multiarch` is set, in index order. */
  lemma {:induction false} ScanFollowsTrace(pkgs: seq<string>, known: set<string>, st: State, fin: State)
    requires ScanStanzas(pkgs, known, st) == Success(fin)
    ensures fin.plan.toSync == st.plan.toSync + SyncList(Trace(pkgs, st.fields), known)
    ensures fin.plan.syncedCount == st.plan.syncedCount + SyncedCount(Trace(pkgs, st.fields), known)
    ensures fin.plan.report == st.plan.report + ReportLines(Trace(pkgs, st.fields))
    decreases |pkgs|
  {
    if pkgs != [] {
      var next := Step(pkgs[0], known, st).value;
      var g := next.fields;
      var rest := Trace(pkgs[1..], g);
      var t := Trace(pkgs, st.fields);
      assert ScanStanzas(pkgs[1..], known, next) == Success(fin) by {
        ScanCons(pkgs, known, st);
      }
      assert next.plan.toSync == st.plan.toSync + SyncOf(g, known)
             && next.plan.syncedCount == st.plan.syncedCount + CountOf(g, known)
             && next.plan.report == st.plan.report + ReportOf(g)
             && t == [g] + rest by {
        ScanCons(pkgs, known, st);
        StepFollowsSettle(pkgs[0], known, st, next);
        TraceCons(pkgs, st.fields);
      }
      ScanFollowsTrace(pkgs[1..], known, next, fin);
      FiltersCons(t, g, rest, known);
      Assemble(st.plan, next.plan, fin.plan, SyncOf(g, known), SyncList(rest, known),
               CountOf(g, known), SyncedCount(rest, known), ReportOf(g), ReportLines(rest));
    }
  }

  /** Chains one step with the rest of the loop: contributions `a` of the step
      and `b` of the rest add up to those of the whole trace. */
  lemma Assemble(p0: Plan, p1: Plan, p2: Plan, a: seq<string>, b: seq<string>, m: nat, n: nat,
                 c: seq<string>, d: seq<string>)
    requires p1.toSync == p0.toSync + a && p2.toSync == p1.toSync + b
    requires p1.syncedCount == p0.syncedCount + m && p2.syncedCount == p1.syncedCount + n
    requires p1.report == p0.report + c && p2.report == p1.report + d
    ensures p2.toSync == p0.toSync + (a + b)
    ensures p2.syncedCount == p0.syncedCount + (m + n)
    ensures p2.report == p0.report + (c + d)
  {
    assert p0.toSync + a + b == p0.toSync + (a + b);
    assert p0.report + c + d == p0.report + (c + d);
  }

  /** The reset of `multiarch` at the start of each stanza: a state of the trace
      has `multiarch` set exactly when its own stanza has a Multi-Arch line. */
  lemma {:induction false} MultiArchOnlyFromOwnStanza(pkgs: seq<string>, f: Fields, i: nat)
    requires i < |pkgs|
    ensures MultiArch in Trace(pkgs, f)[i] <==> LastValue(Split(pkgs[i], "\n"), MultiArch).Some?
    decreases i
  {
    if i > 0 {
      MultiArchOnlyFromOwnStanza(pkgs[1..], Settle(f, pkgs[0]), i - 1);
    }
  }

  /** The stanzas that themselves carry a Multi-Arch line. */
  ghost function MultiArchStanzas(pkgs: seq<string>): nat
  {
    if pkgs == [] then 0
    else (if LastValue(Split(pkgs[0], "\n"), MultiArch).Some? then 1 else 0) + MultiArchStanzas(pkgs[1..])
  }

  /** A successful iteration writes a report line exactly when the stanza itself
      has a Multi-Arch line. */
  lemma StepReports(pkg: string, known: set<string>, st: State, next: State)
    requires Step(pkg, known, st) == Success(next)
    ensures |next.plan.report| == |st.plan.report|
              + (if LastValue(Split(pkg, "\n"), MultiArch).Some? then 1 else 0)
  {
    var f := ParseStanza(pkg, st.fields).value;
    ParseStanzaSettles(pkg, st.fields);
    assert ReportLine(f).Success?;
    assert MultiArch in f <==> LastValue(Split(pkg, "\n"), MultiArch).Some?;
  }

  /** When the loop finishes, the report holds exactly one line per stanza that
      has its own Multi-Arch line; stanzas without one write nothing, whatever
      earlier stanzas held. */
  lemma {:induction false} ReportCountsMultiArchStanzas(pkgs: seq<string>, known: set<string>, st: State, fin: State)
    requires ScanStanzas(pkgs, known, st) == Success(fin)
    ensures |fin.plan.report| == |st.plan.report| + MultiArchStanzas(pkgs)
    decreases |pkgs|
  {
    if pkgs != [] {
      var next := Step(pkgs[0], known, st).value;
      assert ScanStanzas(pkgs[1..], known, next) == Success(fin) by {
        ScanCons(pkgs, known, st);
      }
      assert |next.plan.report| == |st.plan.report|
               + (if LastValue(Split(pkgs[0], "\n"), MultiArch).Some? then 1 else 0) by {
        ScanCons(pkgs, known, st);
        StepReports(pkgs[0], known, st, next);
      }
      ReportCountsMultiArchStanzas(pkgs[1..], known, next, fin);
    }
  }

  /** The whole phase, from the index text: what `ScanIndex` returns is the
      reference plan over the stanzas, starting with no variable assigned. */
  lemma ScanIndexPlan(text: string, known: set<string>)
    requires ScanIndex(text, known).Success?
    ensures var p := ScanIndex(text, known).value;
            var pkgs := Split(text, "\n\n");
            && p.toSync == SyncList(Trace(pkgs, map[]), known)
            && p.syncedCount == SyncedCount(Trace(pkgs, map[]), known)
            && p.report == ReportLines(Trace(pkgs, map[]))
            && |p.report| == MultiArchStanzas(pkgs)
  {
    var pkgs := Split(text, "\n\n");
    var fin := ScanStanzas(pkgs, known, Start).value;
    ScanFollowsTrace(pkgs, known, Start, fin);
    ReportCountsMultiArchStanzas(pkgs, known, Start, fin);
  }

  /** An empty chunk (what a final "\n\n" leaves) raises nothing and only does
      the per-stanza reset. */
  lemma EmptyChunkIsReset(f: Fields)
    ensures ParseStanza("", f) == Success(Reset(f))
  {
    assert Split("", "\n") == [""] by {
      assert FindFrom("", "\n", 0).None?;
    }
    assert ParseLine("") == Success(Ignore) by {
      assert Split("", ":") == [""] by {
        assert FindFrom("", ":", 0).None?;
      }
    }
    var rs := ParseLines([""]);
    assert rs == [Success(Ignore)];
    assert Apply(rs, Reset(f)) == Apply(rs[1..], Reset(f));
  }

  /** The decision for an empty chunk is the decision for the previous stanza's
      variables with `sha1` set to ''. */
  lemma EmptyChunkDecides(f: Fields, known: set<string>)
    ensures ParseStanza("", f).Success?
    ensures Decide(ParseStanza("", f).value, known) == Decide(f[SHA1 := ""], known)
  {
    EmptyChunkIsReset(f);
  }

  /** With '' not a known checksum, a package the previous stanza queued is
      queued a second time by the empty chunk. */
  lemma EmptyChunkRequeues(f: Fields, known: set<string>)
    requires "" !in known
    requires Decide(f, known).Success? && Decide(f, known).value.NeedsSync?
    ensures ParseStanza("", f).Success?
    ensures Decide(ParseStanza("", f).value, known) == Decide(f, known)
  {
    EmptyChunkDecides(f, known);
  }

  /** A package the previous stanza found on the server only through its SHA1 is
      queued by the empty chunk, since `sha1` is reset to '': it is downloaded
      and pushed although the server has it. */
  lemma EmptyChunkQueuesSha1Match(f: Fields, known: set<string>)
    requires "" !in known
    requires MD5sum in f && SHA1 in f && SHA256 in f && Filename in f
    requires f[MD5sum] !in known && f[SHA1] in known && f[SHA256] !in known
    ensures Decide(f, known) == Success(AlreadySynced)
    ensures ParseStanza("", f).Success?
    ensures Decide(ParseStanza("", f).value, known) == Success(NeedsSync(f[Filename]))
  {
    EmptyChunkDecides(f, known);
  }

  /** When '' is a known checksum, the empty chunk counts as already synced
      whenever `md5` is assigned, whatever the previous stanza decided. */
  lemma EmptyChunkSyncedWhenEmptyKnown(f: Fields, known: set<string>)
    requires "" in known
    requires MD5sum in f
    ensures ParseStanza("", f).Success?
    ensures Decide(ParseStanza("", f).value, known) == Success(AlreadySynced)
  {
    EmptyChunkDecides(f, known);
  }
}
