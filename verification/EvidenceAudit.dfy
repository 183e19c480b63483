/** The acceptance audit: the root read, held to its anchors, its records judged and the gates reported. */
module EvidenceAudit {
  import opened Prelude
  import opened EvidenceRecord
  import opened EvidenceLedger
  import opened EvidenceRoot
  import opened EvidenceAnchor
  import opened EvidenceAppend
  import opened EvidenceCounting
  import opened EvidenceGates
  import opened EvidenceReport
  import opened EvidenceStore

  lemma {:induction false} ChainedIsWellFormed(c: Codec, records: seq<Record>)
    requires Chained(c, records)
    ensures forall r :: r in records ==> WellFormed(r)
  {
    hide WellFormed;
    if records != [] {
      var front, last := records[..|records|-1], records[|records|-1];
      assert records == front + [last];
      ChainedIsWellFormed(c, front);
    }
  }

  /** The records of a verified root have the attributes of their types, as the counting relies on. */
  lemma SoundIsWellTyped(c: Codec, files: seq<LedgerFile>)
    requires Listed(files) && Sound(c, AsRoot(files))
    ensures WellTyped(AllRecords(files))
  {
    hide Listed, AsRoot, AllRecords, WellFormed, Chained;
    AllRecordsAreTheRoots(files);
    forall r | r in AllRecords(files) && r.Type() == PayingCustomer ensures r.signed.body.attributes.CustomerFacts? {
      var p :| p in AsRoot(files) && r in AsRoot(files)[p];
      ChainedIsWellFormed(c, AsRoot(files)[p]);
      CustomerHasFacts(r);
    }
  }

  lemma CustomerHasFacts(r: Record)
    requires WellFormed(r) && r.Type() == PayingCustomer
    ensures r.signed.body.attributes.CustomerFacts?
  {
  }

  /** What a gate reports as observed is its number of distinct counted subjects. */
  lemma ReportObserves(a: Audit, records: seq<Record>, verdicts: seq<Verdict>, t: EvidenceType)
    requires WellTyped(records) && JudgedInOrder(a, records, verdicts)
    ensures Report(verdicts, t).observed == |CountedOfType(a, records, t)| == Observed(a, records, t)
  {
    hide Subjects, Counted, CountedOfType, JudgedInOrder, WellTyped, Counts;
    SubjectsAreCounted(a, records, verdicts, t, None);
    SubjectsAreCounted(a, records, verdicts, t, Some(Professional));
    SubjectsAreCounted(a, records, verdicts, t, Some(Organisation));
    ObservedCountsSubjectsOnce(a, records, t);
  }

  /** The observed counts of the five reported gates. */
  function TotalObserved(s: Status): nat
    requires forall t: EvidenceType :: t in s.gates
  {
    s.gates[PaperSession].observed + s.gates[LiveSession].observed + s.gates[DesignPartner].observed
      + s.gates[BrokerOptions].observed + s.gates[PayingCustomer].observed
  }

  /** The whole report counts at most as many subjects as there are retained artifacts. */
  lemma ReportWithinArtifacts(a: Audit, records: seq<Record>, verdicts: seq<Verdict>, s: Status)
    requires WellTyped(records) && JudgedInOrder(a, records, verdicts)
    requires forall t: EvidenceType :: t in s.gates && s.gates[t] == Report(verdicts, t)
    ensures TotalObserved(s) <= |a.retained|
  {
    hide JudgedInOrder, WellTyped, Report, Observed;
    ReportObserves(a, records, verdicts, PaperSession);
    ReportObserves(a, records, verdicts, LiveSession);
    ReportObserves(a, records, verdicts, DesignPartner);
    ReportObserves(a, records, verdicts, BrokerOptions);
    ReportObserves(a, records, verdicts, PayingCustomer);
    GateTotalsWithinArtifacts(a, records);
  }

  /** The record carries a signature of its body, under the domain of this ledger, that the key it names verifies; and that key is
      listed for the reviewer it names. */
  ghost predicate IsSigned(c: Codec, trusted: Reviewers, r: Record) {
    var body := r.signed.body;
    && body.keyId in trusted && trusted[body.keyId].reviewerId == body.reviewedBy
    && c.verifies(trusted[body.keyId].publicKey, "follon-acceptance-evidence-v2\n" + c.encodeBody(body), r.signed.signature)
  }

  lemma SignedExactlyWhen(c: Codec, trusted: Reviewers, r: Record)
    ensures SignerStatus(c, trusted, r).Some? <==> IsSigned(c, trusted, r)
    ensures IsSigned(c, trusted, r) ==> SignerStatus(c, trusted, r) == Some(trusted[r.signed.body.keyId].status)
  {
  }

  lemma RootSignedExactlyWhen(c: Codec, trusted: Reviewers, root: Root)
    ensures RootSigned(c, trusted, root) <==> forall p, r :: p in root && r in root[p] ==> IsSigned(c, trusted, r)
  {
    hide SignerStatus, IsSigned;
    forall p, r | p in root && r in root[p] ensures SignerStatus(c, trusted, r).Some? <==> IsSigned(c, trusted, r) {
      SignedExactlyWhen(c, trusted, r);
    }
  }

  /** The release has a canonical id, and the disk stores a root on which every anchor holds and every record of which a listed key
      signed. */
  ghost predicate Passes(a: Audit, disk: Disk, anchors: seq<Anchor>, found: Root) {
    && IsCanonicalId(a.releaseId)
    && Reads(a.c, disk, found)
    && (forall i :: 0 <= i < |anchors| ==> AnchorHolds(anchors[i], found))
    && (forall p, r :: p in found && r in found[p] ==> IsSigned(a.c, a.trusted, r))
  }

  /** The records of a root, each under its own id. */
  ghost predicate ListsRoot(records: seq<Record>, root: Root) {
    UniqueIds(records) && forall r :: r in records <==> exists p :: p in root && r in root[p]
  }

  /** `audit`: it succeeds exactly when the disk stores a root that passes, says of each anchor whether it covers that root, and
      reports of its records what is true of them, with no more counted subjects in all than there are retained artifacts. */
  method AuditRoot(a: Audit, disk: Disk, anchors: seq<Anchor>)
    returns (r: Result<(Status, seq<bool>), EvidenceError>, ghost found: Root, ghost records: seq<Record>)
    ensures r.Success? ==> Passes(a, disk, anchors, found)
    ensures r.Failure? && FaithfulJson(a.c) ==> forall root: Root :: !Passes(a, disk, anchors, root)
    ensures r.Success? ==>
              && |r.value.1| == |anchors|
              && (forall i :: 0 <= i < |anchors| ==> r.value.1[i] == Covers(anchors[i], found))
              && ListsRoot(records, found) && StatusIsTrue(a, records, r.value.0)
              && TotalObserved(r.value.0) <= |a.retained|
  {
    hide Reads, Listed, FaithfulJson, AsRoot, AnchorHolds, Covers, IsCanonicalId, RootSigned, IsSigned, Report, Judged, SignerStatus,
         UniqueIds, WellTyped, IdsNotCounted, TotalObserved, Sound, AllRecords, SignerById, ListsRoot, StatusIsTrue, CountIf;
    found, records := map[], [];
    if !IsCanonicalId(a.releaseId) {
      return Failure(NotCanonicalId), found, records;
    }
    var files := ReadLedgerRoot(a.c, disk);
    if files.Failure? {
      return Failure(files.error), found, records;
    }
    found := AsRoot(files.value);
    var covers := [];
    for i := 0 to |anchors|
      invariant |covers| == i
      invariant forall k :: 0 <= k < i ==> AnchorHolds(anchors[k], found) && covers[k] == Covers(anchors[k], found)
    {
      var holds := CheckAnchor(anchors[i], files.value);
      if holds.Failure? {
        OneFailureRefutes(a, disk, anchors, found, i);
        return Failure(holds.error), found, records;
      }
      covers := covers + [holds.value];
    }
    var listed := AllRecords(files.value);
    records := listed;
    SoundRecords(a.c, disk, files.value);
    SignedRecords(a, files.value);
    RootSignedExactlyWhen(a.c, a.trusted, found);
    var verdicts := Assess(a, listed);
    if verdicts.Failure? {
      OneReading(a, disk, anchors, found);
      return Failure(verdicts.error), found, records;
    }
    var s := StatusOf(verdicts.value);
    assert JudgedInOrder(a, records, verdicts.value);
    StatusOfVerdicts(a, records, verdicts.value, s);
    ReportWithinArtifacts(a, records, verdicts.value, s);
    r := Success((s, covers));
  }

  lemma OneFailureRefutes(a: Audit, disk: Disk, anchors: seq<Anchor>, found: Root, i: nat)
    requires Reads(a.c, disk, found) && i < |anchors| && !AnchorHolds(anchors[i], found)
    ensures FaithfulJson(a.c) ==> forall root: Root :: !Passes(a, disk, anchors, root)
  {
    hide Reads, FaithfulJson, AnchorHolds, IsSigned;
    if FaithfulJson(a.c) {
      forall root: Root ensures !Passes(a, disk, anchors, root) {
        if Passes(a, disk, anchors, root) {
          SameReading(a.c, disk, found, root);
        }
      }
    }
  }

  lemma OneReading(a: Audit, disk: Disk, anchors: seq<Anchor>, found: Root)
    requires Reads(a.c, disk, found) && exists p, r :: p in found && r in found[p] && !IsSigned(a.c, a.trusted, r)
    ensures FaithfulJson(a.c) ==> forall root: Root :: !Passes(a, disk, anchors, root)
  {
    hide Reads, FaithfulJson, AnchorHolds, IsSigned;
    if FaithfulJson(a.c) {
      forall root: Root ensures !Passes(a, disk, anchors, root) {
        if Passes(a, disk, anchors, root) {
          SameReading(a.c, disk, found, root);
        }
      }
    }
  }

  lemma SoundRecords(c: Codec, disk: Disk, files: seq<LedgerFile>)
    requires Listed(files) && Reads(c, disk, AsRoot(files))
    ensures UniqueIds(AllRecords(files)) && WellTyped(AllRecords(files)) && ListsRoot(AllRecords(files), AsRoot(files))
  {
    hide Listed, AsRoot, AllRecords, Chained, Stores, Fits;
    AllRecordsAreTheRoots(files);
    RecordsHaveUniqueIds(files);
    SoundIsWellTyped(c, files);
  }

  lemma SignedRecords(a: Audit, files: seq<LedgerFile>)
    requires Listed(files)
    ensures (forall r :: r in AllRecords(files) ==> SignerStatus(a.c, a.trusted, r).Some?)
            <==> RootSigned(a.c, a.trusted, AsRoot(files))
  {
    hide Listed, AsRoot, AllRecords, SignerStatus;
    AllRecordsAreTheRoots(files);
  }
}
