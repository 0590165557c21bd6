/**
 Expected and final release evidence. SRI encoding and the digest of canonical JSON are parameters:
 nothing is claimed about hashes.
 */
module ReleaseEvidence {
  import opened Outcomes
  import opened Versions
  import opened ReleaseRecords

  datatype Expected = Expected(sourceCommit: string, releaseVersion: string, packages: seq<Record>)

  datatype FinalRecord = FinalRecord(
    base: Record, registrySri: string, registryTarballSha512: string,
    registryManifestSha256: string, registryDependencies: map<string, string>)

  datatype Final = Final(sourceCommit: string, releaseVersion: string, expectedSha256: string, packages: seq<FinalRecord>)

  /** The public package contract, the SRI text of a SHA-512 digest, and the digest of expected evidence. */
  datatype Contract = Contract(definitions: seq<Definition>, sriOf: string -> string, digestOf: Expected -> string)

  datatype EvidenceError =
    | InvalidExpected | InvalidFinal | BadDigest | MissingObservation | ConflictingObservation
    | UnknownObservation | WrongDigest | WrongIdentity | ChangedRecord | RegistryConflict

  predicate LowerHex(s: string, n: nat) {
    |s| == n && forall i :: 0 <= i < |s| ==> IsDigit(s[i]) || 'a' <= s[i] <= 'f'
  }

  /** Directory declared for a name; a later definition of the same name replaces an earlier one. */
  function DirFor(definitions: seq<Definition>, name: string): Option<string> {
    if definitions == [] then None
    else
      var last := definitions[|definitions| - 1];
      if last.name == name then Some(last.dir) else DirFor(definitions[..|definitions| - 1], name)
  }

  predicate ValidRecord(c: Contract, r: Record) {
    && DirFor(c.definitions, r.name) == Some(r.dir)
    && StableVersion(r.version)
    && LowerHex(r.tarballSha512, 128) && r.expectedSri == c.sriOf(r.tarballSha512)
    && LowerHex(r.manifestSha256, 64)
    && r.unpackedSize <= 0x1F_FFFF_FFFF_FFFF && r.fileCount <= 0x1F_FFFF_FFFF_FFFF
    && CheckDependencies(c.definitions, r.dependencies, r.version).None?
  }

  /** `validateExpectedEvidence`: the complete public set in contract order, all at the release version. */
  predicate ValidExpected(c: Contract, e: Expected) {
    && LowerHex(e.sourceCommit, 40) && StableVersion(e.releaseVersion)
    && |e.packages| == |c.definitions|
    && (forall i :: 0 <= i < |e.packages| ==> ValidRecord(c, e.packages[i]))
    && (forall i :: 0 <= i < |e.packages| ==> e.packages[i].name == c.definitions[i].name)
    && (forall i :: 0 <= i < |e.packages| ==> e.packages[i].version == e.releaseVersion)
  }

  predicate ValidFinalRecord(c: Contract, r: FinalRecord) {
    && ValidRecord(c, r.base)
    && LowerHex(r.registryTarballSha512, 128) && r.registrySri == c.sriOf(r.registryTarballSha512)
    && LowerHex(r.registryManifestSha256, 64)
    && CheckDependencies(c.definitions, r.registryDependencies, r.base.version).None?
  }

  predicate ValidFinal(c: Contract, f: Final) {
    && LowerHex(f.sourceCommit, 40) && StableVersion(f.releaseVersion) && LowerHex(f.expectedSha256, 64)
    && |f.packages| == |c.definitions|
    && (forall i :: 0 <= i < |f.packages| ==> ValidFinalRecord(c, f.packages[i]))
    && (forall i :: 0 <= i < |f.packages| ==> f.packages[i].base.name == c.definitions[i].name)
    && (forall i :: 0 <= i < |f.packages| ==> f.packages[i].base.version == f.releaseVersion)
  }

  function Attach(r: Record, o: Observation): FinalRecord {
    FinalRecord(r, o.sri, o.tarballSha512, o.manifestSha256, o.dependencies)
  }

  function AttachAll(records: seq<Record>, observations: map<string, Observation>): Result<seq<FinalRecord>, EvidenceError> {
    if records == [] then Ok([])
    else if records[0].name !in observations then Err(MissingObservation)
    else if Classify(records[0], Some(observations[records[0].name])) != Skip then Err(ConflictingObservation)
    else
      var rest :- AttachAll(records[1..], observations);
      Ok([Attach(records[0], observations[records[0].name])] + rest)
  }

  /** `createFinalEvidence`. */
  function CreateFinal(c: Contract, e: Expected, digest: string, observations: map<string, Observation>)
    : Result<Final, EvidenceError>
  {
    if !ValidExpected(c, e) then Err(InvalidExpected)
    else if !LowerHex(digest, 64) then Err(BadDigest)
    else
      var packages :- AttachAll(e.packages, observations);
      if !(observations.Keys <= NamesOf(c.definitions)) then Err(UnknownObservation)
      else
        var f := Final(e.sourceCommit, e.releaseVersion, digest, packages);
        if ValidFinal(c, f) then Ok(f) else Err(InvalidFinal)
  }

  function RegistryOf(r: FinalRecord): Observation {
    Observation(r.registrySri, r.registryTarballSha512, r.registryManifestSha256, r.registryDependencies, None)
  }

  /** `verifyFinalEvidence`: None when it accepts, comparing package by package in order. */
  method VerifyFinal(c: Contract, e: Expected, f: Final, given: Option<string>) returns (r: Option<EvidenceError>)
    ensures r.None? <==> Accepted(c, e, f, given)
  {
    if !ValidExpected(c, e) { return Some(InvalidExpected); }
    if !ValidFinal(c, f) { return Some(InvalidFinal); }
    var digest := if given.Some? then given.value else c.digestOf(e);
    if f.expectedSha256 != digest { return Some(WrongDigest); }
    if f.sourceCommit != e.sourceCommit || f.releaseVersion != e.releaseVersion { return Some(WrongIdentity); }
    for index := 0 to |e.packages|
      invariant forall i :: 0 <= i < index ==> Matches(e.packages[i], f.packages[i])
    {
      if e.packages[index] != f.packages[index].base { return Some(ChangedRecord); }
      if Classify(e.packages[index], Some(RegistryOf(f.packages[index]))) != Skip { return Some(RegistryConflict); }
    }
    return None;
  }

  predicate Matches(r: Record, f: FinalRecord) { f.base == r && Classify(r, Some(RegistryOf(f))) == Skip }

  /** Verification accepts: both documents are valid, linked by digest and identity, and match record by record. */
  predicate Accepted(c: Contract, e: Expected, f: Final, given: Option<string>) {
    && ValidExpected(c, e) && ValidFinal(c, f)
    && f.expectedSha256 == (if given.Some? then given.value else c.digestOf(e))
    && f.sourceCommit == e.sourceCommit && f.releaseVersion == e.releaseVersion
    && forall i :: 0 <= i < |e.packages| ==> Matches(e.packages[i], f.packages[i])
  }

  // ---------------------------------------------------------------- main results

  /** The record whose registry half repeats its expected half. */
  function Echo(r: Record): FinalRecord {
    FinalRecord(r, r.expectedSri, r.tarballSha512, r.manifestSha256, r.dependencies)
  }

  function EchoAll(records: seq<Record>): (r: seq<FinalRecord>)
    ensures |r| == |records| && forall i :: 0 <= i < |records| ==> r[i] == Echo(records[i])
  {
    seq(|records|, i requires 0 <= i < |records| => Echo(records[i]))
  }

  /** The final evidence of a release in which the registry holds exactly the expected bytes. */
  function FinalOf(e: Expected, digest: string): Final {
    Final(e.sourceCommit, e.releaseVersion, digest, EchoAll(e.packages))
  }

  lemma EchoValid(c: Contract, e: Expected, digest: string)
    requires ValidExpected(c, e) && LowerHex(digest, 64)
    ensures ValidFinal(c, FinalOf(e, digest))
  {
    hide StableVersion, LowerHex;
    forall i | 0 <= i < |e.packages| ensures ValidFinalRecord(c, FinalOf(e, digest).packages[i]) {
      assert ValidRecord(c, e.packages[i]);
    }
  }

  predicate AllExact(records: seq<Record>, observations: map<string, Observation>) {
    forall i :: 0 <= i < |records| ==>
      records[i].name in observations && Classify(records[i], Some(observations[records[i].name])) == Skip
  }

  lemma {:induction false} AttachEchoes(records: seq<Record>, observations: map<string, Observation>)
    ensures AttachAll(records, observations).Ok? <==> AllExact(records, observations)
    ensures AllExact(records, observations) ==> AttachAll(records, observations).value == EchoAll(records)
  {
    if records != [] {
      AttachEchoes(records[1..], observations);
      assert AllExact(records, observations) ==> AllExact(records[1..], observations);
      assert records == [records[0]] + records[1..];
    }
  }

  /**
   Final evidence exists exactly when every package was observed as its expected evidence and no
   other package was observed, and then it is the echo of the expected evidence.
   */
  lemma CreateFinalExactly(c: Contract, e: Expected, digest: string, observations: map<string, Observation>)
    ensures CreateFinal(c, e, digest, observations).Ok? <==>
              ValidExpected(c, e) && LowerHex(digest, 64) && AllExact(e.packages, observations)
              && observations.Keys <= NamesOf(c.definitions)
    ensures CreateFinal(c, e, digest, observations).Ok? ==>
              CreateFinal(c, e, digest, observations).value == FinalOf(e, digest)
  {
    hide ValidExpected, ValidFinal, LowerHex, AllExact, AttachAll;
    AttachEchoes(e.packages, observations);
    if ValidExpected(c, e) && LowerHex(digest, 64) { EchoValid(c, e, digest); }
  }

  /** Verification accepts exactly one document for each expected evidence and digest. */
  lemma AcceptsExactlyTheEcho(c: Contract, e: Expected, f: Final, given: Option<string>)
    ensures var digest := if given.Some? then given.value else c.digestOf(e);
            Accepted(c, e, f, given) <==> ValidExpected(c, e) && LowerHex(digest, 64) && f == FinalOf(e, digest)
  {
    hide StableVersion, LowerHex, ValidRecord, CheckDependencies;
    var digest := if given.Some? then given.value else c.digestOf(e);
    if Accepted(c, e, f, given) {
      assert forall i :: 0 <= i < |e.packages| ==> f.packages[i] == Echo(e.packages[i]);
      assert f.packages == FinalOf(e, digest).packages;
    }
    if ValidExpected(c, e) && LowerHex(digest, 64) { EchoValid(c, e, digest); }
  }

  /** Whatever final evidence is created, verification accepts it. */
  lemma CreatedIsAccepted(c: Contract, e: Expected, digest: string, observations: map<string, Observation>)
    requires CreateFinal(c, e, digest, observations).Ok?
    ensures Accepted(c, e, CreateFinal(c, e, digest, observations).value, Some(digest))
  {
    hide CreateFinal, ValidExpected, LowerHex, Accepted;
    CreateFinalExactly(c, e, digest, observations);
    AcceptsExactlyTheEcho(c, e, FinalOf(e, digest), Some(digest));
  }
}
