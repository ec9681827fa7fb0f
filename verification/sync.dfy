/** One run of the script end to end (debianSync.py lines 57-159), with the
    outside world passed in: the repository URL, the checksums the channel
    already holds, the text of the uncompressed `Packages.gz`, and the exit
    status of each `rhnpush`. */
module Sync {
  import opened Base
  import opened Text
  import opened RepoRoot
  import opened Stanza
  import opened Diff
  import opened Scan
  import opened Upload

  /** What a run produces: the inferred repository root, whether the
      "could not determine repo root" error line is printed, the URL the index
      is fetched from, the result of the scan, the upload events, the number of
      pushes and the process exit status. */
  datatype Run = Run(
    root: Option<string>,
    rootWarning: bool,
    indexUrl: string,
    plan: Result<Plan, Fault>,
    events: seq<Event>,
    pushes: nat,
    exitCode: int)

  /** The files queued for upload, or nothing when the scan raised. */
  function Queue(plan: Result<Plan, Fault>): seq<string>
  {
    if plan.Success? then plan.value.toSync else []
  }

  method RunSync(url: string, catalog: seq<string>, index: string, status: nat -> int, tmp: string)
    returns (run: Run)
    ensures run.root == Resolve(url)
    ensures run.rootWarning <==> forall k :: 0 <= k < |Markers| ==> Search(url, Markers[k]).None?
    ensures run.indexUrl == url + "Packages.gz"
    ensures run.plan == ScanIndex(index, KnownChecksums(catalog))
    ensures run.plan.Failure? ==> run.exitCode == 1 && run.pushes == 0 && run.events == []
    ensures run.exitCode == 0 <==>
              && run.plan.Success?
              && (|Queue(run.plan)| == 0
                  || (run.root.Some? && forall i :: 0 <= i < |Queue(run.plan)| ==> status(i) == 0))
    ensures run.exitCode == 0 ==> run.pushes == |Queue(run.plan)|
    ensures run.exitCode != 0 ==> run.exitCode == 1
    ensures run.pushes <= |Queue(run.plan)|
    ensures run.root.None? ==>
              && run.pushes == 0
              && run.events == (if |Queue(run.plan)| == 0 then []
                                else [Progress(1, |Queue(run.plan)|, Basename(Queue(run.plan)[0]))])
    ensures run.root.Some? ==> run.events == Attempts(run.root.value, Queue(run.plan), status, run.pushes, tmp)
  {
    var root := Resolve(url);
    RootWarningIffNoMarker(url);
    var warn := NeedsRootWarning(root);
    var channelPkgs := BuildChannelPkgs(catalog);
    var plan := ScanIndex(index, channelPkgs.Keys);
    if plan.Failure? {
      run := Run(root, warn, url + "Packages.gz", plan, [], 0, 1);
      return;
    }
    var events, pushes, outcome := UploadAll(root, plan.value.toSync, status, tmp);
    run := Run(root, warn, url + "Packages.gz", plan, events, pushes, ExitCode(outcome));
  }
}
