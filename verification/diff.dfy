/** The checksum diff (debianSync.py lines 80-83 and 122-125): a stanza's package
    is already on the server when one of its checksums is in the channel's set. */
module Diff {
  import opened Base
  import opened Stanza

  datatype Decision = AlreadySynced | NeedsSync(filename: string)

  /** The checksums the server lists, as a set. */
  function KnownChecksums(catalog: seq<string>): set<string>
  {
    set c | c in catalog
  }

  /** The loop that fills the dict `channelPkgs`: each listed checksum is entered
      with value 1, so its keys are exactly the listed checksums. */
  method BuildChannelPkgs(catalog: seq<string>) returns (channelPkgs: map<string, int>)
    ensures forall c :: c in channelPkgs <==> c in catalog
    ensures channelPkgs.Keys == KnownChecksums(catalog)
    ensures forall c :: c in channelPkgs ==> channelPkgs[c] == 1
  {
    channelPkgs := map[];
    var i := 0;
    while i < |catalog|
      invariant i <= |catalog|
      invariant forall c :: c in channelPkgs <==> c in catalog[..i]
      invariant forall c :: c in channelPkgs ==> channelPkgs[c] == 1
    {
      assert catalog[..i + 1] == catalog[..i] + [catalog[i]];
      channelPkgs := channelPkgs[catalog[i] := 1];
      i := i + 1;
    }
    assert catalog[..i] == catalog;
  }

  /** The variable of checksum key `k` is assigned and holds a known checksum. */
  predicate IsKnown(f: Fields, k: Key, known: set<string>)
  {
    k in f && f[k] in known
  }

  /** The intended rule, stated without evaluation order: all three checksum
      variables are assigned and none of them is known. */
  predicate MissingFromServer(f: Fields, known: set<string>)
  {
    && MD5sum in f && SHA1 in f && SHA256 in f
    && !IsKnown(f, MD5sum, known) && !IsKnown(f, SHA1, known) && !IsKnown(f, SHA256, known)
  }

  /** The diff test: queue the filename when none of md5, sha1 and sha256 is a
      known checksum. The test is a short-circuit `and`, so each variable is read
      (and can raise `NameError`) only when every test before it found nothing;
      `filename` is read only when the package is queued. */
  function Decide(f: Fields, known: set<string>): (r: Result<Decision, Fault>)
    ensures r.Success? && r.value.NeedsSync? <==> MissingFromServer(f, known) && Filename in f
    ensures r.Success? && r.value.NeedsSync? ==> r.value.filename == f[Filename]
    ensures r.Success? && r.value.AlreadySynced? ==>
              IsKnown(f, MD5sum, known) || IsKnown(f, SHA1, known) || IsKnown(f, SHA256, known)
    ensures MD5sum in f && SHA1 in f && SHA256 in f && Filename in f ==>
              r.Success? && (r.value.AlreadySynced? <==>
                IsKnown(f, MD5sum, known) || IsKnown(f, SHA1, known) || IsKnown(f, SHA256, known))
    ensures r.Failure? ==> r.error.NameError? && r.error.key !in f
    ensures r.Failure? ==> r.error.key in [MD5sum, SHA1, SHA256, Filename]
    ensures r.Failure? && r.error.key != MD5sum ==> MD5sum in f && !IsKnown(f, MD5sum, known)
    ensures r.Failure? && r.error.key in [SHA256, Filename] ==> SHA1 in f && !IsKnown(f, SHA1, known)
    ensures r.Failure? && r.error.key == Filename ==> MissingFromServer(f, known)
    // the `and` chain read step by step: each test decides only when every test
    // before it found its variable assigned and not known
    ensures MD5sum !in f ==> r == Failure(NameError(MD5sum))
    ensures IsKnown(f, MD5sum, known) ==> r == Success(AlreadySynced)
    ensures MD5sum in f && !IsKnown(f, MD5sum, known) ==>
              && (SHA1 !in f ==> r == Failure(NameError(SHA1)))
              && (IsKnown(f, SHA1, known) ==> r == Success(AlreadySynced))
    ensures MD5sum in f && SHA1 in f && !IsKnown(f, MD5sum, known) && !IsKnown(f, SHA1, known) ==>
              && (SHA256 !in f ==> r == Failure(NameError(SHA256)))
              && (IsKnown(f, SHA256, known) ==> r == Success(AlreadySynced))
    ensures MissingFromServer(f, known) && Filename !in f ==> r == Failure(NameError(Filename))
  {
    if MD5sum !in f then Failure(NameError(MD5sum))
    else if f[MD5sum] in known then Success(AlreadySynced)
    else if SHA1 !in f then Failure(NameError(SHA1))
    else if f[SHA1] in known then Success(AlreadySynced)
    else if SHA256 !in f then Failure(NameError(SHA256))
    else if f[SHA256] in known then Success(AlreadySynced)
    else if Filename !in f then Failure(NameError(Filename))
    else Success(NeedsSync(f[Filename]))
  }
}
