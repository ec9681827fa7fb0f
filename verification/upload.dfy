/** The download-and-push loop (debianSync.py lines 137-159). Packages are taken
    in `syncPkgs` order; each is downloaded from `repoRoot + pkg` to a temporary
    file, pushed with `rhnpush`, and the file is removed before the exit status is
    looked at. The first nonzero status ends the run with exit code 1. */
module Upload {
  import opened Base
  import opened Text

  /** What the loop does to the outside world, in order. */
  datatype Event =
    | Progress(count: nat, total: nat, name: string)  // the "INFO: n/total: name" line
    | Download(url: string, path: string)
    | Push(path: string, status: int)
    | Remove(path: string)

  /** How the loop ends: every package pushed; a push failed (`sys.exit(1)`); or
      `repoRoot` was `None`, so `repoRoot + pkg` raised `TypeError`. */
  datatype Outcome = Complete | PushFailed(index: nat, status: int) | RootMissing

  /** The temporary file a package is downloaded to: its base name inside `tmp`. */
  function TempPath(tmp: string, pkg: string): string
  {
    tmp + "/" + Basename(pkg)
  }

  /** The events of package `i` when the push returns `status`. */
  function Attempt(root: string, pkgs: seq<string>, i: nat, status: int, tmp: string): seq<Event>
    requires i < |pkgs|
  {
    var path := TempPath(tmp, pkgs[i]);
    [Progress(i + 1, |pkgs|, Basename(pkgs[i])), Download(root + pkgs[i], path), Push(path, status), Remove(path)]
  }

  /** The events of the first `n` packages, all of them pushed. */
  function Attempts(root: string, pkgs: seq<string>, status: nat -> int, n: nat, tmp: string): (es: seq<Event>)
    requires n <= |pkgs|
    ensures |es| == 4 * n
  {
    if n == 0 then []
    else Attempts(root, pkgs, status, n - 1, tmp) + Attempt(root, pkgs, n - 1, status(n - 1), tmp)
  }

  /** The loop. `status(i)` is the exit status `rhnpush` returns for the i-th
      package pushed; `tmp` is the temporary directory. */
  method UploadAll(root: Option<string>, pkgs: seq<string>, status: nat -> int, tmp: string)
    returns (events: seq<Event>, pushes: nat, outcome: Outcome)
    ensures pushes <= |pkgs|
    ensures outcome.Complete? <==> |pkgs| == 0 || (root.Some? && forall i :: 0 <= i < |pkgs| ==> status(i) == 0)
    ensures outcome.Complete? ==> pushes == |pkgs|
    ensures outcome.PushFailed? ==>
              && root.Some? && pushes == outcome.index + 1 && outcome.index < |pkgs|
              && outcome.status == status(outcome.index) && outcome.status != 0
              && forall i :: 0 <= i < outcome.index ==> status(i) == 0
    ensures outcome.RootMissing? <==> root.None? && |pkgs| > 0
    ensures outcome.RootMissing? ==> pushes == 0 && events == [Progress(1, |pkgs|, Basename(pkgs[0]))]
    ensures root.None? ==>
              pushes == 0 && events == (if |pkgs| == 0 then [] else [Progress(1, |pkgs|, Basename(pkgs[0]))])
    ensures root.Some? ==> events == Attempts(root.value, pkgs, status, pushes, tmp)
  {
    events := [];
    pushes := 0;
    var i := 0;
    while i < |pkgs|
      invariant i <= |pkgs|
      invariant pushes == i
      invariant forall j :: 0 <= j < i ==> status(j) == 0
      invariant root.Some? ==> events == Attempts(root.value, pkgs, status, i, tmp)
      invariant root.None? ==> i == 0 && events == []
    {
      var pkg := pkgs[i];
      var progress := Progress(i + 1, |pkgs|, Basename(pkg));
      if root.None? {
        assert i == 0 && events == [];
        events := [progress];
        outcome := RootMissing;
        return;
      }
      var path := TempPath(tmp, pkg);
      var ret := status(i);
      pushes := pushes + 1;
      events := events + [progress, Download(root.value + pkg, path), Push(path, ret), Remove(path)];
      if ret != 0 {
        outcome := PushFailed(i, ret);
        return;
      }
      i := i + 1;
    }
    outcome := Complete;
  }

  /** Every push is immediately followed by the removal of the file it pushed. */
  ghost predicate RemovedAfterPush(es: seq<Event>)
  {
    forall j :: 0 <= j < |es| && es[j].Push? ==> j + 1 < |es| && es[j + 1] == Remove(es[j].path)
  }

  /** The paths pushed, in order. */
  function Pushed(es: seq<Event>): seq<string>
  {
    if es == [] then []
    else (if es[0].Push? then [es[0].path] else []) + Pushed(es[1..])
  }

  lemma {:induction false} PushedAppend(a: seq<Event>, b: seq<Event>)
    ensures Pushed(a + b) == Pushed(a) + Pushed(b)
    decreases |a|
  {
    if a == [] {
      assert a + b == b;
    } else {
      PushedAppend(a[1..], b);
      assert (a + b)[0] == a[0];
      assert (a + b)[1..] == a[1..] + b;
    }
  }

  lemma PushedOne(e: Event)
    ensures Pushed([e]) == if e.Push? then [e.path] else []
  {
    assert [e][1..] == [];
  }

  /** The temporary file of every attempted package is removed right after its
      push, before the status is checked, and the packages are pushed in
      `syncPkgs` order, each once. */
  lemma {:induction false} AttemptsShape(root: string, pkgs: seq<string>, status: nat -> int, n: nat, tmp: string)
    requires n <= |pkgs|
    ensures RemovedAfterPush(Attempts(root, pkgs, status, n, tmp))
    ensures Pushed(Attempts(root, pkgs, status, n, tmp)) == seq(n, i requires 0 <= i < n => TempPath(tmp, pkgs[i]))
  {
    if n > 0 {
      var a := Attempts(root, pkgs, status, n - 1, tmp);
      var b := Attempt(root, pkgs, n - 1, status(n - 1), tmp);
      AttemptsShape(root, pkgs, status, n - 1, tmp);
      PushedAppend(a, b);
      var path := TempPath(tmp, pkgs[n - 1]);
      assert Pushed(b) == [path] by {
        var e0, e1, e2, e3 := b[0], b[1], b[2], b[3];
        assert b == [e0] + [e1] + [e2] + [e3];
        PushedOne(e0); PushedOne(e1); PushedOne(e2); PushedOne(e3);
        PushedAppend([e0], [e1]);
        PushedAppend([e0] + [e1], [e2]);
        PushedAppend([e0] + [e1] + [e2], [e3]);
      }
      forall j | 0 <= j < |a + b| && (a + b)[j].Push?
        ensures j + 1 < |a + b| && (a + b)[j + 1] == Remove((a + b)[j].path)
      {
        if j < |a| {
          assert (a + b)[j] == a[j];
        }
      }
    }
  }

  /** The exit status of the run after the loop. */
  function ExitCode(o: Outcome): int
  {
    if o.Complete? then 0 else 1
  }
}
