/** One append on its own: the ledger root, the retained artifacts and the lock file as an object, and `append_record` as the
    method that changes them. EvidenceAppend has the same protocol in steps, with others at work. */
module EvidenceStore {
  import opened Prelude
  import opened EvidenceRecord
  import opened EvidenceLedger
  import opened EvidenceRoot
  import opened EvidenceAnchor
  import opened EvidenceAppend
  import EvidenceCounting
  import CanonicalTime

  /** The records of the ledgers one after the other. */
  function AllRecords(files: seq<LedgerFile>): seq<Record> {
    if files == [] then [] else AllRecords(files[..|files| - 1]) + files[|files| - 1].records
  }

  lemma ListedFront(files: seq<LedgerFile>)
    requires Listed(files) && files != []
    ensures Listed(files[..|files| - 1])
    ensures forall i :: 0 <= i < |files| - 1 ==> files[i].path != files[|files| - 1].path
  {
    hide Less;
    forall a: string ensures !Less(a, a) {
      LessIsTotal(a, a);
    }
  }

  /** The root of a listing, file by file. */
  lemma {:induction false} AsRootIsExact(files: seq<LedgerFile>)
    requires Listed(files)
    ensures forall p :: p in AsRoot(files) ==> exists i :: 0 <= i < |files| && files[i].path == p
    ensures forall i :: 0 <= i < |files| ==>
              files[i].path in AsRoot(files) && AsRoot(files)[files[i].path] == files[i].records
  {
    hide Listed;
    if files != [] {
      ListedFront(files);
      AsRootIsExact(files[..|files| - 1]);
    }
  }

  /** The records are those of the root. */
  lemma {:induction false} AllRecordsAreTheRoots(files: seq<LedgerFile>)
    requires Listed(files)
    ensures forall r :: r in AllRecords(files) <==> exists p :: p in AsRoot(files) && r in AsRoot(files)[p]
  {
    hide Listed;
    if files != [] {
      var front, last := files[..|files| - 1], files[|files| - 1];
      ListedFront(files);
      AllRecordsAreTheRoots(front);
      AsRootIsExact(front);
      assert last.path !in AsRoot(front);
      assert AsRoot(files) == AsRoot(front)[last.path := last.records];
      forall r ensures r in AllRecords(files) <==> exists p :: p in AsRoot(files) && r in AsRoot(files)[p] {
        if r in AllRecords(front) {
          var p :| p in AsRoot(front) && r in AsRoot(front)[p];
          assert AsRoot(files)[p] == AsRoot(front)[p];
        }
        if r in last.records {
          assert r in AsRoot(files)[last.path];
        }
      }
    }
  }

  /** A sound root has no id twice, in whatever order its records are listed. */
  lemma {:induction false} RecordsHaveUniqueIds(files: seq<LedgerFile>)
    requires Listed(files) && DistinctIds(AsRoot(files))
    ensures EvidenceCounting.UniqueIds(AllRecords(files))
  {
    hide Listed, DistinctIds;
    if files != [] {
      var front, last := files[..|files| - 1], files[|files| - 1];
      ListedFront(files);
      AsRootIsExact(files);
      AsRootIsExact(front);
      FrontHasDistinctIds(files);
      RecordsHaveUniqueIds(front);
      AllRecordsAreTheRoots(front);
      forall r, k | r in AllRecords(front) && 0 <= k < |last.records| ensures r.Id() != last.records[k].Id() {
        var p :| p in AsRoot(front) && r in AsRoot(front)[p];
        var i :| 0 <= i < |AsRoot(front)[p]| && AsRoot(front)[p][i] == r;
        OtherLedgerOtherId(AsRoot(files), p, i, last.path, k);
      }
      OneLedgerHasUniqueIds(AsRoot(files), last.path);
      JoinUniqueIds(AllRecords(front), last.records);
    }
  }

  lemma FrontHasDistinctIds(files: seq<LedgerFile>)
    requires Listed(files) && files != [] && DistinctIds(AsRoot(files))
    ensures DistinctIds(AsRoot(files[..|files| - 1]))
  {
    hide Listed, AsRoot;
    LastPathIsNew(files);
    var part, last := AsRoot(files[..|files| - 1]), files[|files| - 1];
    assert forall p: string, i: nat, id: string :: IdAt(part, p, i, id) ==> IdAt(part[last.path := last.records], p, i, id);
  }

  lemma LastPathIsNew(files: seq<LedgerFile>)
    requires Listed(files) && files != []
    ensures var front, last := files[..|files| - 1], files[|files| - 1];
            last.path !in AsRoot(front) && AsRoot(files) == AsRoot(front)[last.path := last.records]
  {
    ListedFront(files);
    AsRootIsExact(files[..|files| - 1]);
    hide Listed;
  }

  lemma OtherLedgerOtherId(root: Root, p: string, i: nat, q: string, j: nat)
    requires DistinctIds(root) && p in root && q in root && i < |root[p]| && j < |root[q]| && p != q
    ensures root[p][i].Id() != root[q][j].Id()
  {
    assert IdAt(root, p, i, root[p][i].Id()) && IdAt(root, q, j, root[q][j].Id());
  }

  lemma OneLedgerHasUniqueIds(root: Root, p: string)
    requires DistinctIds(root) && p in root
    ensures EvidenceCounting.UniqueIds(root[p])
  {
    forall i, j | 0 <= i < j < |root[p]| ensures root[p][i].Id() != root[p][j].Id() {
      assert IdAt(root, p, i, root[p][i].Id()) && IdAt(root, p, j, root[p][j].Id());
    }
  }

  lemma JoinUniqueIds(a: seq<Record>, b: seq<Record>)
    requires EvidenceCounting.UniqueIds(a) && EvidenceCounting.UniqueIds(b)
    requires forall r, k :: r in a && 0 <= k < |b| ==> r.Id() != b[k].Id()
    ensures EvidenceCounting.UniqueIds(a + b)
  {
  }

  datatype Refusal = Locked | NotALedger | Invalid(error: EvidenceError)

  class LedgerStore {
    var disk: Disk
    var retained: set<string>
    var lock: bool

    /** The head of a ledger in a listing, or the zero hash when there is no such ledger. */
    method HeadOf(files: seq<LedgerFile>, path: string) returns (head: string)
      requires Listed(files)
      ensures head == Head(LedgerAt(AsRoot(files), path))
    {
      AsRootIsExact(files);
      for i := 0 to |files|
        invariant forall j :: 0 <= j < i ==> files[j].path != path
      {
        if files[i].path == path {
          return files[i].head;
        }
      }
      assert path !in AsRoot(files);
      head := ZeroHash();
    }

    /** The checks of `append_record` under the lock, and the record they let through. */
    method Verify(c: Codec, req: Request) returns (r: Result<Record, EvidenceError>, ghost found: Root)
      requires IsLedgerPath(req.path)
      ensures r.Success? ==> Reads(c, disk, found) && Accepts(c, req, found)
                             && IsFinished(c, req, Head(LedgerAt(found, req.path)), r.value)
      ensures r.Failure? && FaithfulJson(c) ==> forall root: Root :: Reads(c, disk, root) ==> !Accepts(c, req, root)
    {
      hide Reads, Listed, FaithfulJson, SignerStatus, AsRoot;
      found := map[];
      var files := ReadLedgerRoot(c, disk);
      if files.Failure? {
        return Failure(files.error), found;
      }
      found := AsRoot(files.value);
      var records := AllRecords(files.value);
      var audit := EvidenceCounting.Audit(c, req.trusted, retained, "");
      var signed := EvidenceCounting.RequireSigned(audit, records);
      SignedRoot(c, audit, disk, files.value);
      IdInRoot(files.value, req.template.evidenceId);
      var head := HeadOf(files.value, req.path);
      var record := Build(c, req, head);
      assert record.Id() == req.template.evidenceId;
      var valid := ValidateRecord(c, record, head);
      AcceptsExactlyWhen(c, req, found, record);
      var isNew := forall q :: q in records ==> q.Id() != req.template.evidenceId;
      if signed.Success? && isNew && valid.Success? && SignerStatus(c, req.trusted, record) == Some(Active) {
        return Success(record), found;
      }
      if FaithfulJson(c) {
        forall root: Root | Reads(c, disk, root) ensures !Accepts(c, req, root) {
          SameReading(c, disk, found, root);
        }
      }
      r := Failure(if signed.Failure? then signed.error else if !isNew then DuplicateId
                   else if valid.Failure? then valid.error else KeyNotActive);
    }

    /** `append_record`, undisturbed. */
    method AppendRecord(c: Codec, req: Request) returns (r: Result<Record, Refusal>, ghost found: Root)
      modifies this
      ensures lock == old(lock)
      ensures r.Success? ==>
                && !old(lock) && Reads(c, old(disk), found) && Accepts(c, req, found)
                && IsFinished(c, req, Head(LedgerAt(found, req.path)), r.value)
                && disk == old(disk)[req.path := (if req.path in old(disk) then old(disk)[req.path] else "") + Line(c, r.value)]
                && retained == old(retained) + {r.value.signed.body.artifact}
      ensures r.Failure? ==> disk == old(disk) && retained == old(retained)
      ensures r.Failure? && FaithfulJson(c) ==>
                old(lock) || forall root: Root :: Reads(c, old(disk), root) ==> !Accepts(c, req, root)
    {
      hide Reads, Accepts, FaithfulJson, Build;
      found := map[];
      if !IsLedgerPath(req.path) {
        assert forall root: Root :: !Accepts(c, req, root) by { OnlyLedgers(c, req); }
        return Failure(NotALedger), found;
      }
      if lock {
        return Failure(Locked), found;
      }
      lock := true;
      var record;
      record, found := Verify(c, req);
      if record.Success? {
        retained := retained + {record.value.signed.body.artifact};
        disk := disk[req.path := (if req.path in disk then disk[req.path] else "") + Line(c, record.value)];
        r := Success(record.value);
      } else {
        r := Failure(Invalid(record.error));
      }
      lock := false;
    }
  }

  lemma OnlyLedgers(c: Codec, req: Request)
    requires !IsLedgerPath(req.path)
    ensures forall root: Root :: !Accepts(c, req, root)
  {
    hide RootSigned, IdIsNew, Build;
  }

  lemma SameReading(c: Codec, disk: Disk, found: Root, root: Root)
    requires FaithfulJson(c) && Reads(c, disk, found) && Reads(c, disk, root)
    ensures found == root
  {
    ReadingIsUnique(c, disk, found, root);
  }

  lemma SignedRoot(c: Codec, audit: EvidenceCounting.Audit, disk: Disk, files: seq<LedgerFile>)
    requires Listed(files) && Reads(c, disk, AsRoot(files)) && audit.c == c
    ensures (forall r :: r in AllRecords(files) ==>
               EvidenceCounting.SignerById(audit, AllRecords(files), r.Id()).Some?)
            <==> RootSigned(c, audit.trusted, AsRoot(files))
  {
    RecordsHaveUniqueIds(files);
    AllRecordsAreTheRoots(files);
    hide Listed, Reads, SignerStatus, AsRoot, AllRecords, EvidenceCounting.UniqueIds, EvidenceCounting.SignerById;
    forall r | r in AllRecords(files)
      ensures EvidenceCounting.SignerById(audit, AllRecords(files), r.Id()) == SignerStatus(c, audit.trusted, r)
    {
      EvidenceCounting.UniqueIdsNameSigners(audit, AllRecords(files), r);
    }
  }

  lemma IdInRoot(files: seq<LedgerFile>, id: string)
    requires Listed(files)
    ensures IdIsNew(AsRoot(files), id) <==> forall q :: q in AllRecords(files) ==> q.Id() != id
  {
    AllRecordsAreTheRoots(files);
    hide Listed, AsRoot, AllRecords;
    var root := AsRoot(files);
    forall p, i: nat | IdAt(root, p, i, id) ensures exists q :: q in AllRecords(files) && q.Id() == id {
      assert root[p][i] in root[p];
    }
    forall q | q in AllRecords(files) && q.Id() == id ensures exists p, i: nat :: IdAt(root, p, i, id) {
      var p :| p in root && q in root[p];
      var i :| 0 <= i < |root[p]| && root[p][i] == q;
      assert IdAt(root, p, i, id);
    }
  }

  lemma AcceptsExactlyWhen(c: Codec, req: Request, found: Root, record: Record)
    requires record == Build(c, req, Head(LedgerAt(found, req.path)))
    ensures Accepts(c, req, found) <==>
              && IsLedgerPath(req.path) && RootSigned(c, req.trusted, found) && IdIsNew(found, record.Id())
              && ValidateRecord(c, record, Head(LedgerAt(found, req.path))).Success?
              && SignerStatus(c, req.trusted, record) == Some(Active)
  {
    hide RootSigned, IdIsNew, ValidateRecord, SignerStatus, Build, IsLedgerPath;
  }

  /** What an append leaves: a root that reads back as the one verified plus the record, signed throughout, if and only if the
      line and the ledger fit the sizes a read allows. */
  lemma AppendReadsBack(c: Codec, req: Request, before: Disk, found: Root, record: Record, after: Disk)
    requires FaithfulJson(c) && Reads(c, before, found) && Accepts(c, req, found)
    requires IsFinished(c, req, Head(LedgerAt(found, req.path)), record)
    requires after == before[req.path := (if req.path in before then before[req.path] else "") + Line(c, record)]
    ensures var root := WithRecord(found, req.path, record);
            && Stores(c, after, root) && Sound(c, root) && RootSigned(c, req.trusted, root)
            && (Reads(c, after, root) <==> AppendFits(c, found, req.path, record))
  {
    hide Accepts, Build, IsFinished, Stores, SignerStatus, Extends, Chained, FaithfulJson, WithRecord, Sound, Fits, RootSigned,
         IdIsNew, AppendFits, Line, ValidateRecord, LedgerAt;
    var previous := Head(LedgerAt(found, req.path));
    BuildFinishes(c, req, previous, record);
    AcceptsExactlyWhen(c, req, found, record);
    StoresAfterAppend(c, before, found, after, req.path, record);
    ValidExactlyWhen(c, record, previous);
    WithRecordStaysSound(c, found, req.path, record);
    SignedAfterAppend(c, req.trusted, found, req.path, record);
    FitsAfterAppend(c, found, req.path, record);
  }

  lemma SignedAfterAppend(c: Codec, trusted: Reviewers, root: Root, path: string, record: Record)
    requires RootSigned(c, trusted, root) && SignerStatus(c, trusted, record).Some?
    ensures RootSigned(c, trusted, WithRecord(root, path, record))
  {
    hide SignerStatus, WithRecord;
    WithRecordKeepsRecords(root, path, record);
  }

  lemma ValidExactlyWhen(c: Codec, record: Record, previous: string)
    ensures ValidateRecord(c, record, previous).Success? <==> Extends(c, record, previous)
  {
  }

  lemma StoresAfterAppend(c: Codec, before: Disk, found: Root, after: Disk, path: string, record: Record)
    requires Stores(c, before, found) && IsLedgerPath(path)
    requires after == before[path := (if path in before then before[path] else "") + Line(c, record)]
    ensures Stores(c, after, WithRecord(found, path, record))
  {
    hide Line, IsLedgerPath, Render;
    PathsAfterAppend(before, after, path);
    assert path in before <==> path in found by { assert path in LedgerPaths(before) <==> path in before; }
    assert Render(c, []) == "" by { EmptyRendering(c); }
    RenderOneMore(c, LedgerAt(found, path), record);
    assert forall p :: p in found && p != path ==> after[p] == before[p];
  }

  lemma PathsAfterAppend(before: Disk, after: Disk, path: string)
    requires IsLedgerPath(path) && after.Keys == before.Keys + {path}
    ensures LedgerPaths(after) == LedgerPaths(before) + {path}
    ensures path in LedgerPaths(before) <==> path in before
  {
    hide IsLedgerPath;
  }

  // ----- An append that no read survives -----

  /** Appending a record whose line is too long leaves a disk that stores no readable root. An id alone can make it too long:
      nothing bounds one, and the encoding of a record is at least as long as its id. */
  lemma LongIdStopsTheRoot(c: Codec, req: Request, before: Disk, found: Root, record: Record, after: Disk)
    requires FaithfulJson(c) && Reads(c, before, found) && Accepts(c, req, found)
    requires forall r: Record :: |c.encodeRecord(r)| >= |r.Id()|
    requires |req.template.evidenceId| > MAX_LINE_BYTES
    requires IsFinished(c, req, Head(LedgerAt(found, req.path)), record)
    requires after == before[req.path := (if req.path in before then before[req.path] else "") + Line(c, record)]
    ensures forall root: Root :: !Reads(c, after, root)
  {
    assert record.Id() == req.template.evidenceId;
    hide Accepts, IsFinished, Line, LedgerAt, WithRecord, Sound, Fits, FaithfulJson, Stores, RootSigned, Render;
    AppendReadsBack(c, req, before, found, record, after);
    forall root: Root ensures !Reads(c, after, root) {
      if Reads(c, after, root) {
        ReadingIsUnique(c, after, root, WithRecord(found, req.path, record));
      }
    }
  }

  function LongId(n: nat): (id: string)
    ensures |id| == n && forall i :: 0 <= i < n ==> id[i] == 'a'
  {
    seq(n, _ => 'a')
  }

  /** A design partner's record under an id of that length, signed by whoever holds the reviewer's key. */
  function LongRequest(n: nat, path: string, key: string, sign: string -> string): Request {
    Request(path,
            Body(SCHEMA_VERSION, LongId(n), DesignPartner, "partner", "2024-01-01T00:00:00Z", "observer", "reviewer", ZeroHash(),
                 Accepted, "", "release", NoEnvironment, PartnerFacts(1, true), "key", ZeroHash()),
            sign, map["key" := ReviewerKey("reviewer", key, Active)])
  }

  /** The signer of a key: every message has its own signature, which the key verifies. */
  ghost predicate Signs(c: Codec, key: string, sign: string -> string) {
    forall m :: IsHex(sign(m), 128) && c.verifies(key, m, sign(m))
  }

  /** Which requests of an honest signer `append_record` accepts: exactly those for a ledger of a signed root, under an id that is
      new there, whose template is well formed once it names the head of its ledger, with a key listed as active for its
      reviewer. The signature is over that finished body. */
  lemma HonestAppendIsAcceptedExactlyWhen(c: Codec, req: Request, found: Root)
    requires forall text :: IsHex(c.sha256(text), 64)
    requires req.template.keyId in req.trusted ==> Signs(c, req.trusted[req.template.keyId].publicKey, req.sign)
    ensures Accepts(c, req, found) <==>
              && |req.path| >= 18 && req.path[|req.path| - 18..] == ".acceptance.ndjson"
              && RootSigned(c, req.trusted, found) && IdIsNew(found, req.template.evidenceId)
              && WellFormedBody(req.template.(schemaVersion := SCHEMA_VERSION, prevHash := Head(LedgerAt(found, req.path))))
              && req.template.keyId in req.trusted
              && req.trusted[req.template.keyId].reviewerId == req.template.reviewedBy
              && req.trusted[req.template.keyId].status == Active
  {
    hide WellFormedBody, RootSigned, IdIsNew, ValidateRecord, IsHex, Signs;
    var head := Head(LedgerAt(found, req.path));
    var record := Build(c, req, head);
    AcceptsExactlyWhen(c, req, found, record);
    ValidExactlyWhen(c, record, head);
    if req.template.keyId in req.trusted {
      HonestSignature(c, req.trusted[req.template.keyId].publicKey, req.sign,
                      SignatureDomain() + c.encodeBody(record.signed.body));
    }
  }

  lemma HonestSignature(c: Codec, key: string, sign: string -> string, message: string)
    requires Signs(c, key, sign)
    ensures IsHex(sign(message), 128) && c.verifies(key, message, sign(message))
  {
  }

  /** `append_record` accepts it on a root without records, whatever the length. */
  lemma LongIdIsAccepted(c: Codec, root: Root, n: nat, path: string, key: string, sign: string -> string)
    requires (forall p :: p in root ==> root[p] == []) && n > 0 && IsLedgerPath(path) && Signs(c, key, sign)
    requires forall s :: IsHex(c.sha256(s), 64)
    ensures Accepts(c, LongRequest(n, path, key, sign), root)
  {
    hide IsLedgerPath, WellFormedBody, RootSigned, IdIsNew, ValidateRecord, SignerStatus;
    var req := LongRequest(n, path, key, sign);
    var record := Build(c, req, ZeroHash());
    LongBodyIsWellFormed(record.signed.body, n);
    assert Extends(c, record, ZeroHash());
    ValidExactlyWhen(c, record, ZeroHash());
    SignedByKey(c, req.trusted, record, key);
    NothingInEmptyRoot(c, req.trusted, root, record.Id());
  }

  lemma SignedByKey(c: Codec, trusted: Reviewers, r: Record, key: string)
    requires trusted == map["key" := ReviewerKey("reviewer", key, Active)]
    requires r.signed.body.keyId == "key" && r.signed.body.reviewedBy == "reviewer"
    requires c.verifies(key, SignatureDomain() + c.encodeBody(r.signed.body), r.signed.signature)
    ensures SignerStatus(c, trusted, r) == Some(Active)
  {
  }

  lemma NothingInEmptyRoot(c: Codec, trusted: Reviewers, root: Root, id: string)
    requires forall p :: p in root ==> root[p] == []
    ensures RootSigned(c, trusted, root) && IdIsNew(root, id) && DistinctIds(root)
  {
  }

  lemma EmptyReads(c: Codec)
    ensures Reads(c, map[], map[])
  {
  }

  lemma LongBodyIsWellFormed(b: Body, n: nat)
    requires n > 0
    requires b == Body(SCHEMA_VERSION, LongId(n), DesignPartner, "partner", "2024-01-01T00:00:00Z", "observer", "reviewer",
                       ZeroHash(), Accepted, "", "release", NoEnvironment, PartnerFacts(1, true), "key", ZeroHash())
    ensures WellFormedBody(b)
  {
    hide IsCanonicalId, CanonicalTime.IsLedgerTimestamp;
    ShortIds();
    NewYear();
    assert IsCanonicalId(LongId(n)) by { IdOfLetters(LongId(n)); }
    assert "observer"[0] != "reviewer"[0];
  }

  lemma IdOfLetters(id: string)
    requires id != "" && forall i :: 0 <= i < |id| ==> id[i] == 'a'
    ensures IsCanonicalId(id)
  {
  }

  lemma ShortIds()
    ensures IsCanonicalId("partner") && IsCanonicalId("observer") && IsCanonicalId("reviewer") && IsCanonicalId("release")
    ensures IsCanonicalId("key")
  {
  }

  lemma NewYear()
    ensures CanonicalTime.IsLedgerTimestamp("2024-01-01T00:00:00Z")
  {
  }

  /** So one append to an empty root, accepted by every check, can leave it unreadable. */
  lemma OneAppendCanStopTheRoot(c: Codec, path: string, key: string, sign: string -> string)
    requires FaithfulJson(c) && IsLedgerPath(path) && Signs(c, key, sign)
    requires forall s :: IsHex(c.sha256(s), 64)
    requires forall r: Record :: |c.encodeRecord(r)| >= |r.Id()|
    ensures var req := LongRequest(MAX_LINE_BYTES + 1, path, key, sign);
            && Reads(c, map[], map[]) && Accepts(c, req, map[])
            && forall root: Root :: !Reads(c, map[path := Line(c, Build(c, req, ZeroHash()))], root)
  {
    hide Accepts, Build, Line, Reads, FaithfulJson;
    var req := LongRequest(MAX_LINE_BYTES + 1, path, key, sign);
    LongIdIsAccepted(c, map[], MAX_LINE_BYTES + 1, path, key, sign);
    EmptyReads(c);
    var record := Build(c, req, ZeroHash());
    var line := Line(c, record);
    assert "" + line == line;
    BuildFinishes(c, req, ZeroHash(), record);
    LongIdStopsTheRoot(c, req, map[], map[], record, map[path := line]);
  }
}
