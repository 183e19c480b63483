/** The append protocol of the acceptance ledger as a state machine: any number of appenders under the root's lock
    file, readers that anchor the root without it, crashes and write errors at every step, an operator who clears a
    dead appender's lock, and a reviewer set that only grows. */
module EvidenceAppend {
  import opened Prelude
  import opened EvidenceRecord
  import opened EvidenceLedger
  import opened EvidenceRoot
  import opened EvidenceAnchor

  /** One call of `append_record`. The template's `prevHash` is a placeholder; `sign` is Ed25519 under the caller's
      seed; `trusted` is the reviewer set the caller loaded. */
  datatype Request = Request(path: string, template: Body, sign: string -> string, trusted: Reviewers)

  /** The record `append_record` builds on a chain head. */
  function Build(c: Codec, req: Request, previous: string): Record {
    var body := req.template.(schemaVersion := SCHEMA_VERSION, prevHash := previous);
    var signed := Signed(body, req.sign(SignatureDomain() + c.encodeBody(body)));
    Record(signed, HashOf(c, signed))
  }

  /** What the record of an append is: the template under the present version and after the head of its ledger, the signature of
      that whole body, and the hash of both. */
  predicate IsFinished(c: Codec, req: Request, head: string, record: Record) {
    && record.signed.body == req.template.(schemaVersion := SCHEMA_VERSION, prevHash := head)
    && record.signed.signature == req.sign(SignatureDomain() + c.encodeBody(record.signed.body))
    && record.recordHash == c.sha256(c.encodeSigned(record.signed))
  }

  lemma BuildFinishes(c: Codec, req: Request, head: string, record: Record)
    ensures IsFinished(c, req, head, record) <==> record == Build(c, req, head)
  {
  }

  function Line(c: Codec, r: Record): string {
    c.encodeRecord(r) + "\n"
  }

  datatype Proc =
    | Ready(req: Request)
    | Holding(req: Request)
    | Prepared(req: Request, record: Record, before: Root)
    | Writing(req: Request, record: Record, before: Root, written: nat)
    | Written(req: Request, record: Record, before: Root)
    | Succeeding(req: Request, record: Record, before: Root)
    | Failing
    | Finished(ok: bool)
    | Dead
  {
    predicate HoldsLock() { Holding? || Prepared? || Writing? || Written? || Succeeding? || Failing? }
  }

  /** A reader that anchors the root, one file at a time and without the lock. */
  datatype Reader = Reader(todo: set<string>, collected: Root)

  /** Bytes of an unfinished line at the end of a ledger. */
  datatype Tear = Tear(path: string, bytes: string)

  /** The file system and the reviewer set. `root` and `tear` are history: what the appends have committed, and what
      they left unfinished. */
  datatype Store = Store(
    disk: Disk,
    trusted: Reviewers,
    retained: set<string>,
    root: Root,
    tear: Option<Tear>)

  datatype State = State(
    store: Store,
    lock: bool,
    procs: map<nat, Proc>,
    readers: map<nat, Reader>,
    anchors: set<Anchor>)

  datatype Event =
    | Start(pid: nat, req: Request)
    | Acquire(pid: nat)
    | Refuse(pid: nat)
    | Decline(pid: nat)
    | Verify(pid: nat, found: Root)
    | Open(pid: nat)
    | Write(pid: nat, upto: nat)
    | WriteError(pid: nat)
    | Sync(pid: nat)
    | SyncError(pid: nat)
    | Release(pid: nat)
    | Crash(pid: nat)
    | RemoveLock
    | ChangeReviewers(after: Reviewers)
    | BeginAnchor(rid: nat)
    | ReadFile(rid: nat, path: string, records: seq<Record>)
    | IssueAnchor(rid: nat, anchor: Anchor)

  function LedgerAt(root: Root, path: string): seq<Record> {
    if path in root then root[path] else []
  }

  function WithLedger(root: Root, path: string): Root {
    root[path := LedgerAt(root, path)]
  }

  function WithRecord(root: Root, path: string, r: Record): Root {
    root[path := LedgerAt(root, path) + [r]]
  }

  ghost predicate IdIsNew(root: Root, id: string) {
    forall p, i: nat :: !IdAt(root, p, i, id)
  }

  ghost predicate RootSigned(c: Codec, trusted: Reviewers, root: Root) {
    forall p :: p in root ==> forall r :: r in root[p] ==> SignerStatus(c, trusted, r).Some?
  }

  /** What `append_record` checks under the lock before it writes anything. */
  ghost predicate Accepts(c: Codec, req: Request, found: Root) {
    var record := Build(c, req, Head(LedgerAt(found, req.path)));
    && IsLedgerPath(req.path)
    && RootSigned(c, req.trusted, found)
    && IdIsNew(found, record.Id())
    && ValidateRecord(c, record, Head(LedgerAt(found, req.path))).Success?
    && SignerStatus(c, req.trusted, record) == Some(Active)
  }

  ghost predicate Enabled(c: Codec, s: State, e: Event) {
    match e
    case Start(pid, req) => pid !in s.procs && req.trusted == s.store.trusted
    case Acquire(pid) => pid in s.procs && s.procs[pid].Ready? && !s.lock
    case Refuse(pid) => pid in s.procs && s.procs[pid].Ready? && s.lock
    case Decline(pid) => pid in s.procs && (s.procs[pid].Holding? || s.procs[pid].Prepared?)
    case Verify(pid, found) =>
      && pid in s.procs && s.procs[pid].Holding?
      && Reads(c, s.store.disk, found) && Accepts(c, s.procs[pid].req, found)
    case Open(pid) => pid in s.procs && s.procs[pid].Prepared?
    case Write(pid, upto) =>
      && pid in s.procs && s.procs[pid].Writing?
      && s.procs[pid].written < upto <= |Line(c, s.procs[pid].record)|
    case WriteError(pid) => pid in s.procs && s.procs[pid].Writing?
    case Sync(pid) => pid in s.procs && s.procs[pid].Written?
    case SyncError(pid) => pid in s.procs && s.procs[pid].Written?
    case Release(pid) => pid in s.procs && (s.procs[pid].Succeeding? || s.procs[pid].Failing?)
    case Crash(pid) => pid in s.procs && !s.procs[pid].Finished?
    case RemoveLock => forall pid :: pid in s.procs ==> !s.procs[pid].HoldsLock()
    case ChangeReviewers(after) => Grows(s.store.trusted, after)
    case BeginAnchor(rid) => rid !in s.readers
    case ReadFile(rid, path, records) =>
      && rid in s.readers && path in s.readers[rid].todo && path in s.store.disk
      && s.store.disk[path] == Render(c, records) && Chained(c, records)
    case IssueAnchor(rid, anchor) =>
      && rid in s.readers && s.readers[rid].todo == {}
      && Anchors(anchor, s.readers[rid].collected) && ValidAnchor(anchor)
  }

  /** What is written to the store by opening the ledger: the file exists, empty if it is new. */
  function Opened(store: Store, path: string): Store {
    store.(disk := store.disk[path := if path in store.disk then store.disk[path] else ""],
           root := WithLedger(store.root, path))
  }

  /** The bytes of a line reach the disk from `written` up to `upto`. The last byte commits the record. */
  function Wrote(c: Codec, store: Store, path: string, record: Record, written: nat, upto: nat): Store
    requires written <= upto <= |Line(c, record)|
  {
    var line := Line(c, record);
    var present := if path in store.disk then store.disk[path] else "";
    var disk := store.disk[path := present + line[written..upto]];
    if upto == |line| then store.(disk := disk, root := WithRecord(store.root, path, record), tear := None)
    else store.(disk := disk, tear := Some(Tear(path, line[..upto])))
  }

  function SetProc(s: State, pid: nat, p: Proc): State {
    s.(procs := s.procs[pid := p])
  }

  /** The state after an event. */
  ghost function Next(c: Codec, s: State, e: Event): State
    requires Enabled(c, s, e)
  {
    match e
    case Start(pid, req) => SetProc(s, pid, Ready(req))
    case Acquire(pid) => SetProc(s, pid, Holding(s.procs[pid].req)).(lock := true)
    case Refuse(pid) => SetProc(s, pid, Finished(false))
    case Decline(pid) => SetProc(s, pid, Failing)
    case Verify(pid, found) =>
      var req := s.procs[pid].req;
      var record := Build(c, req, Head(LedgerAt(found, req.path)));
      SetProc(s, pid, Prepared(req, record, found))
        .(store := s.store.(retained := s.store.retained + {record.signed.body.artifact}))
    case Open(pid) =>
      var p := s.procs[pid];
      SetProc(s, pid, Writing(p.req, p.record, p.before, 0)).(store := Opened(s.store, p.req.path))
    case Write(pid, upto) =>
      var p := s.procs[pid];
      SetProc(s, pid, if upto == |Line(c, p.record)| then Written(p.req, p.record, p.before)
                      else Writing(p.req, p.record, p.before, upto))
        .(store := Wrote(c, s.store, p.req.path, p.record, p.written, upto))
    case WriteError(pid) => SetProc(s, pid, Failing)
    case Sync(pid) =>
      var p := s.procs[pid];
      SetProc(s, pid, Succeeding(p.req, p.record, p.before))
    case SyncError(pid) => SetProc(s, pid, Failing)
    case Release(pid) => SetProc(s, pid, Finished(s.procs[pid].Succeeding?)).(lock := false)
    case Crash(pid) => SetProc(s, pid, Dead)
    case RemoveLock => s.(lock := false)
    case ChangeReviewers(after) => s.(store := s.store.(trusted := after))
    case BeginAnchor(rid) => s.(readers := s.readers[rid := Reader(LedgerPaths(s.store.disk), map[])])
    case ReadFile(rid, path, records) =>
      var r := s.readers[rid];
      s.(readers := s.readers[rid := Reader(r.todo - {path}, r.collected[path := records])])
    case IssueAnchor(rid, anchor) => s.(anchors := s.anchors + {anchor})
  }

  // ----- What every step keeps -----

  function TearAt(tear: Option<Tear>, path: string): string {
    if tear.Some? && tear.value.path == path then tear.value.bytes else ""
  }

  /** The disk holds the committed records, and after them any unfinished line. */
  ghost predicate DiskHolds(c: Codec, disk: Disk, root: Root, tear: Option<Tear>) {
    && LedgerPaths(disk) == root.Keys
    && (forall p :: p in root ==> disk[p] == Render(c, root[p]) + TearAt(tear, p))
    && (tear.Some? ==> tear.value.path in root && tear.value.bytes != "" && '\n' !in tear.value.bytes)
  }

  ghost predicate RootRetained(retained: set<string>, root: Root) {
    forall p :: p in root ==> forall r :: r in root[p] ==> r.signed.body.artifact in retained
  }

  ghost predicate StoreHolds(c: Codec, store: Store) {
    && DiskHolds(c, store.disk, store.root, store.tear)
    && Sound(c, store.root)
    && RootSigned(c, store.trusted, store.root)
    && RootRetained(store.retained, store.root)
  }

  /** Whoever is between acquiring and releasing the lock is alone, and the lock file is there. */
  ghost predicate MutualExclusion(lock: bool, procs: map<nat, Proc>) {
    && (forall i :: i in procs && procs[i].HoldsLock() ==> lock)
    && (forall i, j :: i in procs && j in procs && procs[i].HoldsLock() && procs[j].HoldsLock() ==> i == j)
  }

  /** The record a process is about to add extends the root it verified, under a key that is still listed. */
  ghost predicate Extensible(c: Codec, store: Store, path: string, record: Record, before: Root) {
    && IsLedgerPath(path)
    && Sound(c, before) && Fits(c, before)
    && IdIsNew(before, record.Id())
    && Extends(c, record, Head(LedgerAt(before, path)))
    && SignerStatus(c, store.trusted, record).Some?
    && record.signed.body.artifact in store.retained
  }

  /** What holds of a process, by its phase. */
  ghost predicate ProcHolds(c: Codec, store: Store, p: Proc) {
    match p
    case Ready(req) => Grows(req.trusted, store.trusted)
    case Holding(req) => Grows(req.trusted, store.trusted)
    case Prepared(req, record, before) =>
      && Extensible(c, store, req.path, record, before) && IsFinished(c, req, Head(LedgerAt(before, req.path)), record)
      && store.tear == None && store.root == before
    case Writing(req, record, before, written) =>
      && Extensible(c, store, req.path, record, before) && IsFinished(c, req, Head(LedgerAt(before, req.path)), record)
      && written < |Line(c, record)|
      && store.root == WithLedger(before, req.path)
      && store.tear == if written == 0 then None else Some(Tear(req.path, Line(c, record)[..written]))
    case Written(req, record, before) =>
      && Extensible(c, store, req.path, record, before) && IsFinished(c, req, Head(LedgerAt(before, req.path)), record)
      && store.tear == None && store.root == WithRecord(before, req.path, record)
    case Succeeding(req, record, before) =>
      && Extensible(c, store, req.path, record, before) && IsFinished(c, req, Head(LedgerAt(before, req.path)), record)
      && store.tear == None && store.root == WithRecord(before, req.path, record)
    case _ => true
  }

  /** A reader looks only at ledgers that exist, and what it has read is still there. */
  ghost predicate ReaderHolds(reader: Reader, root: Root) {
    reader.todo <= root.Keys && IsExtension(reader.collected, root)
  }

  ghost predicate ReadersHold(readers: map<nat, Reader>, root: Root) {
    forall rid :: rid in readers ==> ReaderHolds(readers[rid], root)
  }

  ghost predicate AnchorsHold(anchors: set<Anchor>, root: Root) {
    forall a :: a in anchors ==> AnchorHolds(a, root)
  }

  ghost predicate Inv(c: Codec, s: State) {
    && MutualExclusion(s.lock, s.procs)
    && StoreHolds(c, s.store)
    && (forall i :: i in s.procs ==> ProcHolds(c, s.store, s.procs[i]))
    && ReadersHold(s.readers, s.store.root)
    && AnchorsHold(s.anchors, s.store.root)
  }

  /** A verified, signed root with its artifacts, and nobody at work. */
  ghost predicate Init(c: Codec, s: State) {
    && !s.lock && s.procs == map[] && s.readers == map[] && s.anchors == {}
    && s.store.tear == None
    && Reads(c, s.store.disk, s.store.root)
    && RootSigned(c, s.store.trusted, s.store.root)
    && RootRetained(s.store.retained, s.store.root)
  }

  lemma InitHolds(c: Codec, s: State)
    requires Init(c, s)
    ensures Inv(c, s)
  {
    hide Sound;
    var store := s.store;
    forall p | p in store.root ensures store.disk[p] == Render(c, store.root[p]) + TearAt(store.tear, p) {
      assert p in LedgerPaths(store.disk);
    }
  }

  /** Events that move one process or the lock and leave the files, the reviewers and the readers alone. */
  predicate IsQuiet(e: Event) {
    e.Start? || e.Acquire? || e.Refuse? || e.Decline? || e.WriteError? || e.Sync? || e.SyncError? || e.Release?
    || e.Crash? || e.RemoveLock?
  }

  lemma QuietKeepsExclusion(c: Codec, s: State, e: Event)
    requires MutualExclusion(s.lock, s.procs) && Enabled(c, s, e) && IsQuiet(e)
    ensures var t := Next(c, s, e); MutualExclusion(t.lock, t.procs)
  {
    hide Reads, Accepts, Render, Chained, Line, Anchors, ValidAnchor, Grows;
  }

  lemma QuietKeepsProcs(c: Codec, s: State, e: Event)
    requires (forall i :: i in s.procs ==> ProcHolds(c, s.store, s.procs[i])) && Enabled(c, s, e) && IsQuiet(e)
    ensures var t := Next(c, s, e); forall i :: i in t.procs ==> ProcHolds(c, t.store, t.procs[i])
  {
    hide Extensible, Line, Reads, Accepts, Render, Chained, Anchors, ValidAnchor, WithRecord, WithLedger, ProcHolds;
    var t := Next(c, s, e);
    assert t.store == s.store;
    forall i | i in t.procs ensures ProcHolds(c, t.store, t.procs[i]) {
      if !e.RemoveLock? && i == e.pid {
        QuietKeepsOwnProc(c, s, e);
      }
    }
  }

  lemma QuietKeepsOwnProc(c: Codec, s: State, e: Event)
    requires Enabled(c, s, e) && IsQuiet(e) && !e.RemoveLock?
    requires e.pid in s.procs ==> ProcHolds(c, s.store, s.procs[e.pid])
    ensures var t := Next(c, s, e); e.pid in t.procs && ProcHolds(c, s.store, t.procs[e.pid])
  {
    hide Extensible, Line, Reads, Accepts, Render, Chained, Anchors, ValidAnchor, WithRecord, WithLedger;
  }

  lemma QuietStep(c: Codec, s: State, e: Event)
    requires Inv(c, s) && Enabled(c, s, e) && IsQuiet(e)
    ensures Inv(c, Next(c, s, e))
  {
    hide StoreHolds, ReadersHold, AnchorsHold, MutualExclusion, ProcHolds, Enabled, WithRecord, WithLedger, Line;
    QuietKeepsExclusion(c, s, e);
    QuietKeepsProcs(c, s, e);
    var t := Next(c, s, e);
    assert t.store == s.store && t.readers == s.readers && t.anchors == s.anchors;
  }

  // ----- The root and the disk -----

  /** An unfinished line makes its ledger unreadable: the data no longer ends at a newline. */
  lemma TornIsUnreadable(c: Codec, disk: Disk, root: Root, tear: Option<Tear>, other: Root)
    requires DiskHolds(c, disk, root, tear) && tear.Some?
    ensures !Stores(c, disk, other)
  {
    var p := tear.value.path;
    var data := disk[p];
    assert data == Render(c, root[p]) + tear.value.bytes;
    assert data[|data|-1] == tear.value.bytes[|tear.value.bytes|-1] && data[|data|-1] in tear.value.bytes;
    if p in other {
      RenderEndsInNewline(c, other[p]);
    }
  }

  /** What a reader of the whole root finds is what the appends committed. */
  lemma ReadIsCommitted(c: Codec, store: Store, found: Root)
    requires FaithfulJson(c) && DiskHolds(c, store.disk, store.root, store.tear) && Stores(c, store.disk, found)
    ensures store.tear == None && found == store.root
  {
    if store.tear.Some? {
      TornIsUnreadable(c, store.disk, store.root, store.tear, found);
    }
    assert Stores(c, store.disk, store.root) by {
      assert forall p :: p in store.root ==> Render(c, store.root[p]) + "" == Render(c, store.root[p]);
    }
    ReadingIsUnique(c, store.disk, found, store.root);
  }

  lemma SignerSurvives(c: Codec, before: Reviewers, after: Reviewers, r: Record)
    requires Grows(before, after) && SignerStatus(c, before, r).Some?
    ensures SignerStatus(c, after, r).Some?
  {
  }

  lemma WithLedgerStaysSound(c: Codec, root: Root, path: string)
    requires Sound(c, root)
    ensures Sound(c, WithLedger(root, path))
    ensures IsExtension(root, WithLedger(root, path))
  {
    var after := WithLedger(root, path);
    EmptyChain(c);
    hide Chained;
    assert forall p, i: nat, id :: IdAt(after, p, i, id) ==> IdAt(root, p, i, id);
  }

  /** One valid record with a new id at the end of one ledger keeps the root sound. */
  lemma WithRecordStaysSound(c: Codec, root: Root, path: string, r: Record)
    requires Sound(c, root) && IdIsNew(root, r.Id()) && Extends(c, r, Head(LedgerAt(root, path)))
    ensures Sound(c, WithRecord(root, path, r))
    ensures IsExtension(root, WithRecord(root, path, r))
  {
    var after := WithRecord(root, path, r);
    var end := |LedgerAt(root, path)|;
    EmptyChain(c);
    ChainAppend(c, LedgerAt(root, path), r);
    hide Chained, Extends;
    forall p, i: nat, id | IdAt(after, p, i, id)
      ensures IdAt(root, p, i, id) || (p == path && i == end && id == r.Id())
    {
    }
    forall p, i: nat, q, j: nat, id | IdAt(after, p, i, id) && IdAt(after, q, j, id) ensures p == q && i == j {
      if id != r.Id() {
        assert IdAt(root, p, i, id) && IdAt(root, q, j, id);
      }
    }
  }

  lemma WithRecordKeepsRecords(root: Root, path: string, r: Record)
    ensures forall p, q :: p in WithRecord(root, path, r) && q in WithRecord(root, path, r)[p] ==>
              q == r || (p in root && q in root[p])
  {
  }

  lemma ExtensionIsTransitive(a: Root, b: Root, d: Root)
    requires IsExtension(a, b) && IsExtension(b, d)
    ensures IsExtension(a, d)
  {
    forall p | p in a ensures a[p] <= d[p] {
      assert a[p] <= b[p] && b[p] <= d[p];
    }
  }

  /** An anchor that holds keeps holding while the root only grows. */
  lemma AnchorSurvives(a: Anchor, before: Root, after: Root)
    requires AnchorHolds(a, before) && IsExtension(before, after)
    ensures AnchorHolds(a, after)
  {
    forall e | e in a.ledgers ensures EntryHolds(e, after) {
      assert EntryHolds(e, before) && before[e.path] <= after[e.path];
    }
  }

  /** Readers and anchors survive any growth of the root. */
  lemma GrowthKeepsReaders(readers: map<nat, Reader>, anchors: set<Anchor>, before: Root, after: Root)
    requires ReadersHold(readers, before) && AnchorsHold(anchors, before) && IsExtension(before, after)
    ensures ReadersHold(readers, after) && AnchorsHold(anchors, after)
  {
    forall rid | rid in readers ensures ReaderHolds(readers[rid], after) {
      assert ReaderHolds(readers[rid], before);
      assert before.Keys <= after.Keys;
      ExtensionIsTransitive(readers[rid].collected, before, after);
    }
    forall a | a in anchors ensures AnchorHolds(a, after) {
      AnchorSurvives(a, before, after);
    }
  }

  // ----- The steps that write -----

  /** A process without the lock relies on nothing but the reviewer set. */
  lemma IdleProcHolds(c: Codec, before: Store, after: Store, p: Proc)
    requires !p.HoldsLock() && ProcHolds(c, before, p) && before.trusted == after.trusted
    ensures ProcHolds(c, after, p)
  {
  }

  /** A step of the lock holder leaves every other process where it was. */
  lemma HolderMoves(c: Codec, s: State, pid: nat, p: Proc, store: Store)
    requires MutualExclusion(s.lock, s.procs) && pid in s.procs && s.procs[pid].HoldsLock()
    requires forall i :: i in s.procs ==> ProcHolds(c, s.store, s.procs[i])
    requires store.trusted == s.store.trusted && ProcHolds(c, store, p)
    ensures var t := SetProc(s, pid, p).(store := store);
            MutualExclusion(t.lock, t.procs) && forall i :: i in t.procs ==> ProcHolds(c, store, t.procs[i])
  {
    hide ProcHolds;
    forall i | i in s.procs && i != pid ensures ProcHolds(c, store, s.procs[i]) {
      IdleProcHolds(c, s.store, store, s.procs[i]);
    }
  }

  lemma VerifyStep(c: Codec, s: State, pid: nat, found: Root)
    requires FaithfulJson(c) && Inv(c, s) && Enabled(c, s, Verify(pid, found))
    ensures Inv(c, Next(c, s, Verify(pid, found)))
  {
    hide Chained, Render, Extends, FaithfulJson, LinesFit, ReadersHold, AnchorsHold, DiskHolds, SignerStatus,
         MutualExclusion;
    var t := Next(c, s, Verify(pid, found));
    var req := s.procs[pid].req;
    var record := Build(c, req, Head(LedgerAt(found, req.path)));
    ReadIsCommitted(c, s.store, found);
    SignerSurvives(c, req.trusted, s.store.trusted, record);
    assert Extensible(c, t.store, req.path, record, found);
    BuildFinishes(c, req, Head(LedgerAt(found, req.path)), record);
    HolderMoves(c, s, pid, t.procs[pid], t.store);
    assert StoreHolds(c, t.store);
  }

  lemma OpenStore(c: Codec, store: Store, path: string)
    requires StoreHolds(c, store) && IsLedgerPath(path) && store.tear == None
    ensures StoreHolds(c, Opened(store, path))
    ensures IsExtension(store.root, Opened(store, path).root)
  {
    hide Sound, SignerStatus, DiskHolds;
    WithLedgerStaysSound(c, store.root, path);
    OpenDisk(c, store, path);
  }

  lemma OpenDisk(c: Codec, store: Store, path: string)
    requires DiskHolds(c, store.disk, store.root, store.tear) && IsLedgerPath(path) && store.tear == None
    ensures var after := Opened(store, path); DiskHolds(c, after.disk, after.root, after.tear)
  {
    hide Render, IsLedgerPath, LedgerPaths;
    var after := Opened(store, path);
    EmptyRendering(c);
    NewPath(store.disk, path, if path in store.disk then store.disk[path] else "");
    forall p | p in after.root ensures after.disk[p] == Render(c, after.root[p]) + TearAt(after.tear, p) {
      if p in store.root {
        assert after.disk[p] == store.disk[p];
      }
    }
  }

  lemma EmptyRendering(c: Codec)
    ensures Render(c, []) == ""
  {
  }

  lemma NewPath(disk: Disk, path: string, data: string)
    requires IsLedgerPath(path)
    ensures LedgerPaths(disk[path := data]) == LedgerPaths(disk) + {path}
    ensures path in disk <==> path in LedgerPaths(disk)
    ensures forall p :: p in LedgerPaths(disk) ==> p in disk
  {
    hide IsLedgerPath;
  }

  lemma OpenProc(c: Codec, store: Store, p: Proc)
    requires ProcHolds(c, store, p) && p.Prepared?
    ensures ProcHolds(c, Opened(store, p.req.path), Writing(p.req, p.record, p.before, 0))
    ensures IsLedgerPath(p.req.path) && store.tear == None
  {
    hide Sound, Fits, IdIsNew, Extends, SignerStatus;
  }

  lemma OpenStep(c: Codec, s: State, pid: nat)
    requires Inv(c, s) && Enabled(c, s, Open(pid))
    ensures Inv(c, Next(c, s, Open(pid)))
  {
    hide StoreHolds, ReadersHold, AnchorsHold, MutualExclusion, ProcHolds;
    var t := Next(c, s, Open(pid));
    var p := s.procs[pid];
    OpenProc(c, s.store, p);
    OpenStore(c, s.store, p.req.path);
    GrowthKeepsReaders(s.readers, s.anchors, s.store.root, t.store.root);
    HolderMoves(c, s, pid, t.procs[pid], t.store);
  }

  lemma RewriteKeepsPaths(disk: Disk, path: string, data: string)
    requires path in LedgerPaths(disk)
    ensures LedgerPaths(disk[path := data]) == LedgerPaths(disk)
  {
  }

  lemma LineGoesOn(base: string, line: string, written: nat, upto: nat)
    requires written <= upto <= |line|
    ensures (base + line[..written]) + line[written..upto] == base + line[..upto]
    ensures line[..0] == ""
  {
  }

  /** Writing on from `written` makes the line on disk longer by exactly the new bytes. */
  lemma WriteAppends(c: Codec, store: Store, path: string, record: Record, written: nat, upto: nat)
    requires DiskHolds(c, store.disk, store.root, store.tear) && path in store.root
    requires written <= upto <= |Line(c, record)|
    requires store.tear == if written == 0 then None else Some(Tear(path, Line(c, record)[..written]))
    ensures var after := Wrote(c, store, path, record, written, upto);
            && LedgerPaths(after.disk) == store.root.Keys
            && after.disk[path] == Render(c, store.root[path]) + Line(c, record)[..upto]
            && forall p :: p in store.root && p != path ==> after.disk[p] == Render(c, store.root[p])
  {
    hide Render, IsLedgerPath, Line;
    var line := Line(c, record);
    var base := Render(c, store.root[path]);
    assert path in LedgerPaths(store.disk);
    LineGoesOn(base, line, written, upto);
    assert TearAt(store.tear, path) == line[..written];
    assert store.disk[path] == base + line[..written];
    RewriteKeepsPaths(store.disk, path, store.disk[path] + line[written..upto]);
    forall p | p in store.root && p != path
      ensures Wrote(c, store, path, record, written, upto).disk[p] == Render(c, store.root[p])
    {
      NoTearElsewhere(c, store, path, p);
    }
  }

  lemma NoTearElsewhere(c: Codec, store: Store, path: string, p: string)
    requires DiskHolds(c, store.disk, store.root, store.tear) && p in store.root && p != path
    requires store.tear.Some? ==> store.tear.value.path == path
    ensures p in store.disk && store.disk[p] == Render(c, store.root[p])
  {
    hide Render;
    assert TearAt(store.tear, p) == "";
    assert store.disk[p] == Render(c, store.root[p]) + "";
  }

  /** Part of a line leaves a tear and commits nothing. */
  lemma WritePart(c: Codec, store: Store, path: string, record: Record, written: nat, upto: nat)
    requires FaithfulJson(c) && DiskHolds(c, store.disk, store.root, store.tear) && path in store.root
    requires written < upto < |Line(c, record)|
    requires store.tear == if written == 0 then None else Some(Tear(path, Line(c, record)[..written]))
    ensures var after := Wrote(c, store, path, record, written, upto);
            DiskHolds(c, after.disk, after.root, after.tear) && after.root == store.root
  {
    WriteAppends(c, store, path, record, written, upto);
    NoNewlineInPart(c, record, upto);
    hide Render, IsLedgerPath, LedgerPaths, FaithfulJson, Line;
  }

  lemma NoNewlineInPart(c: Codec, record: Record, upto: nat)
    requires FaithfulJson(c) && upto < |Line(c, record)|
    ensures '\n' !in Line(c, record)[..upto]
  {
    assert Line(c, record)[..upto] == c.encodeRecord(record)[..upto];
  }

  /** The last byte of a line commits its record. */
  lemma WriteRest(c: Codec, store: Store, path: string, record: Record, written: nat)
    requires DiskHolds(c, store.disk, store.root, store.tear) && path in store.root
    requires written < |Line(c, record)|
    requires store.tear == if written == 0 then None else Some(Tear(path, Line(c, record)[..written]))
    ensures var after := Wrote(c, store, path, record, written, |Line(c, record)|);
            && DiskHolds(c, after.disk, after.root, after.tear)
            && after.root == WithRecord(store.root, path, record)
  {
    WriteAppends(c, store, path, record, written, |Line(c, record)|);
    RenderOneMore(c, store.root[path], record);
    hide Render, IsLedgerPath, LedgerPaths, Line, DiskHolds;
    assert Line(c, record)[..|Line(c, record)|] == Line(c, record);
    var after := Wrote(c, store, path, record, written, |Line(c, record)|);
    CommittedDisk(c, after.disk, store.root, path, record);
  }

  lemma CommittedDisk(c: Codec, disk: Disk, root: Root, path: string, record: Record)
    requires LedgerPaths(disk) == root.Keys && path in root
    requires disk[path] == Render(c, root[path] + [record])
    requires forall p :: p in root && p != path ==> disk[p] == Render(c, root[p])
    ensures DiskHolds(c, disk, WithRecord(root, path, record), None)
  {
    hide Render, IsLedgerPath;
    var after := WithRecord(root, path, record);
    forall p | p in after ensures disk[p] == Render(c, after[p]) + TearAt(None, p) {
      assert disk[p] == Render(c, after[p]);
    }
  }

  lemma RenderOneMore(c: Codec, records: seq<Record>, record: Record)
    ensures Render(c, records + [record]) == Render(c, records) + Line(c, record)
  {
    RenderAppend(c, records, record);
    hide Render;
    assert Render(c, records) + c.encodeRecord(record) + "\n" == Render(c, records) + (c.encodeRecord(record) + "\n");
  }

  lemma CommitKeepsRoot(c: Codec, store: Store, path: string, record: Record)
    requires Sound(c, store.root) && RootSigned(c, store.trusted, store.root) && RootRetained(store.retained, store.root)
    requires Extensible(c, store, path, record, store.root)
    ensures var root := WithRecord(store.root, path, record);
            && Sound(c, root) && RootSigned(c, store.trusted, root) && RootRetained(store.retained, root)
            && IsExtension(store.root, root)
  {
    hide SignerStatus, Sound, Fits, Extends;
    WithRecordStaysSound(c, store.root, path, record);
    WithRecordKeepsRecords(store.root, path, record);
    hide WithRecord;
  }

  lemma WriteProc(c: Codec, store: Store, p: Proc, upto: nat)
    requires ProcHolds(c, store, p) && p.Writing? && p.written < upto <= |Line(c, p.record)|
    ensures ProcHolds(c, Wrote(c, store, p.req.path, p.record, p.written, upto),
                      if upto == |Line(c, p.record)| then Written(p.req, p.record, p.before)
                      else Writing(p.req, p.record, p.before, upto))
  {
    hide Sound, Fits, IdIsNew, Extends, SignerStatus, Line;
  }

  lemma WriteReady(c: Codec, store: Store, p: Proc)
    requires ProcHolds(c, store, p) && p.Writing?
    ensures p.req.path in store.root
    ensures Extensible(c, store, p.req.path, p.record, store.root)
  {
    OpenedIsExtensible(c, store, p.req.path, p.record, p.before);
    hide Extensible;
  }

  /** Opening the ledger changes nothing an append relies on. */
  lemma OpenedIsExtensible(c: Codec, store: Store, path: string, record: Record, before: Root)
    requires Extensible(c, store, path, record, before)
    ensures Extensible(c, store, path, record, WithLedger(before, path))
  {
    WithLedgerStaysSound(c, before, path);
    WithLedgerFits(c, before, path);
    WithLedgerKeepsIds(before, path, record.Id());
    assert LedgerAt(WithLedger(before, path), path) == LedgerAt(before, path);
    hide Sound, Fits, Extends, SignerStatus, IsLedgerPath, IdIsNew, WithLedger, LedgerAt;
  }

  lemma WithLedgerKeepsIds(root: Root, path: string, id: string)
    requires IdIsNew(root, id)
    ensures IdIsNew(WithLedger(root, path), id)
  {
    assert forall p, i: nat :: IdAt(WithLedger(root, path), p, i, id) ==> IdAt(root, p, i, id);
  }

  lemma WithLedgerFits(c: Codec, root: Root, path: string)
    requires Fits(c, root)
    ensures Fits(c, WithLedger(root, path))
  {
    EmptyChain(c);
    assert Render(c, []) == "";
    hide Render, LinesFit;
  }

  lemma WriteStore(c: Codec, store: Store, path: string, record: Record, written: nat, upto: nat)
    requires FaithfulJson(c) && StoreHolds(c, store) && path in store.root
    requires written < upto <= |Line(c, record)|
    requires store.tear == if written == 0 then None else Some(Tear(path, Line(c, record)[..written]))
    requires Extensible(c, store, path, record, store.root)
    ensures StoreHolds(c, Wrote(c, store, path, record, written, upto))
    ensures IsExtension(store.root, Wrote(c, store, path, record, written, upto).root)
  {
    hide Sound, DiskHolds, RootSigned, RootRetained, Extensible, Line, FaithfulJson, WithRecord, IsExtension;
    if upto < |Line(c, record)| {
      ExtendsItself(store.root);
      WritePart(c, store, path, record, written, upto);
    } else {
      WriteRest(c, store, path, record, written);
      CommitKeepsRoot(c, store, path, record);
    }
  }

  lemma ExtendsItself(root: Root)
    ensures IsExtension(root, root)
  {
  }

  lemma WriteKeepsTheRest(c: Codec, store: Store, path: string, record: Record, written: nat, upto: nat)
    requires written <= upto <= |Line(c, record)|
    ensures Wrote(c, store, path, record, written, upto).trusted == store.trusted
  {
    hide Line, WithRecord;
  }

  lemma WriteStep(c: Codec, s: State, pid: nat, upto: nat)
    requires FaithfulJson(c) && Inv(c, s) && Enabled(c, s, Write(pid, upto))
    ensures Inv(c, Next(c, s, Write(pid, upto)))
  {
    hide StoreHolds, ReadersHold, AnchorsHold, MutualExclusion, ProcHolds, FaithfulJson, Wrote, Line, Accepts, Reads, Anchors,
         ValidAnchor, Grows, Chained, Render, WithRecord, WithLedger, Extensible;
    var p := s.procs[pid];
    var t := Next(c, s, Write(pid, upto));
    WriteProc(c, s.store, p, upto);
    WriteReady(c, s.store, p);
    WriteTear(c, s.store, p);
    WriteKeepsTheRest(c, s.store, p.req.path, p.record, p.written, upto);
    WriteStore(c, s.store, p.req.path, p.record, p.written, upto);
    GrowthKeepsReaders(s.readers, s.anchors, s.store.root, t.store.root);
    HolderMoves(c, s, pid, t.procs[pid], t.store);
  }

  lemma WriteTear(c: Codec, store: Store, p: Proc)
    requires ProcHolds(c, store, p) && p.Writing?
    ensures p.written < |Line(c, p.record)|
    ensures store.tear == if p.written == 0 then None else Some(Tear(p.req.path, Line(c, p.record)[..p.written]))
  {
    hide Line, Extensible, WithLedger;
  }

  // ----- The steps that do not write -----

  lemma ReviewersStep(c: Codec, s: State, after: Reviewers)
    requires Inv(c, s) && Enabled(c, s, ChangeReviewers(after))
    ensures Inv(c, Next(c, s, ChangeReviewers(after)))
  {
    var t := Next(c, s, ChangeReviewers(after));
    forall i | i in s.procs ensures ProcHolds(c, t.store, s.procs[i]) {
      ReviewersKeepProc(c, s.store, t.store, s.procs[i]);
    }
    forall p, r | p in s.store.root && r in s.store.root[p] ensures SignerStatus(c, after, r).Some? {
      SignerSurvives(c, s.store.trusted, after, r);
    }
    hide SignerStatus, ProcHolds, Sound, DiskHolds, RootRetained, ReadersHold, AnchorsHold;
  }

  lemma ReviewersKeepProc(c: Codec, before: Store, after: Store, p: Proc)
    requires ProcHolds(c, before, p) && Grows(before.trusted, after.trusted)
    requires after == before.(trusted := after.trusted)
    ensures ProcHolds(c, after, p)
  {
    if p.Prepared? || p.Writing? || p.Written? || p.Succeeding? {
      SignerSurvives(c, before.trusted, after.trusted, p.record);
    }
    hide Sound, Fits, IdIsNew, Extends, SignerStatus;
  }

  /** A file that parses, read at any moment, is exactly what is committed there. */
  lemma FileIsCommitted(c: Codec, disk: Disk, root: Root, tear: Option<Tear>, path: string, records: seq<Record>)
    requires FaithfulJson(c) && DiskHolds(c, disk, root, tear) && path in root && disk[path] == Render(c, records)
    ensures records == root[path]
  {
    hide Render;
    var bytes := TearAt(tear, path);
    var data := disk[path];
    assert data == Render(c, root[path]) + bytes;
    if bytes != "" {
      assert data[|data|-1] == bytes[|bytes|-1] && data[|data|-1] in bytes;
    }
    RenderEndsInNewline(c, records);
    assert bytes == "";
    assert Render(c, root[path]) + "" == Render(c, root[path]);
    RenderIsInjective(c, records, root[path]);
  }

  lemma ReadStep(c: Codec, s: State, rid: nat, path: string, records: seq<Record>)
    requires FaithfulJson(c) && Inv(c, s) && Enabled(c, s, ReadFile(rid, path, records))
    ensures Inv(c, Next(c, s, ReadFile(rid, path, records)))
  {
    hide ProcHolds, AnchorsHold, MutualExclusion, Chained, Render, Sound, RootSigned, RootRetained, FaithfulJson;
    assert ReaderHolds(s.readers[rid], s.store.root);
    ReaderAdvances(c, s.store, s.readers[rid], path, records);
    hide StoreHolds, ReaderHolds;
  }

  lemma ReaderAdvances(c: Codec, store: Store, reader: Reader, path: string, records: seq<Record>)
    requires FaithfulJson(c) && DiskHolds(c, store.disk, store.root, store.tear) && ReaderHolds(reader, store.root)
    requires path in reader.todo && path in store.disk && store.disk[path] == Render(c, records)
    ensures ReaderHolds(Reader(reader.todo - {path}, reader.collected[path := records]), store.root)
  {
    hide Render, FaithfulJson;
    assert path in store.root.Keys;
    FileIsCommitted(c, store.disk, store.root, store.tear, path, records);
  }

  lemma AnchorStep(c: Codec, s: State, e: Event)
    requires Inv(c, s) && Enabled(c, s, e) && (e.BeginAnchor? || e.IssueAnchor?)
    ensures Inv(c, Next(c, s, e))
  {
    hide ProcHolds, MutualExclusion, StoreHolds, Render, Chained, Accepts, Reads, Grows, IsLedgerPath, ValidAnchor, Anchors,
         AnchorHolds, ReaderHolds, Line, WithRecord, WithLedger;
    if e.IssueAnchor? {
      CollectedHolds(e.anchor, s.readers[e.rid], s.store.root);
    } else {
      NewReaderHolds(c, s.store);
    }
  }

  lemma CollectedHolds(a: Anchor, reader: Reader, root: Root)
    requires ReaderHolds(reader, root) && Anchors(a, reader.collected)
    ensures AnchorHolds(a, root)
  {
    ExtensionHolds(a, reader.collected, root);
    hide AnchorHolds, Anchors;
  }

  lemma NewReaderHolds(c: Codec, store: Store)
    requires StoreHolds(c, store)
    ensures ReaderHolds(Reader(LedgerPaths(store.disk), map[]), store.root)
  {
    hide Sound, RootSigned, RootRetained, Render, IsLedgerPath;
  }

  /** Every step keeps the invariant. */
  lemma StepHolds(c: Codec, s: State, e: Event)
    requires FaithfulJson(c) && Inv(c, s) && Enabled(c, s, e)
    ensures Inv(c, Next(c, s, e))
  {
    hide Inv, Enabled, Next, FaithfulJson;
    match e
    case Verify(pid, found) => VerifyStep(c, s, pid, found);
    case Open(pid) => OpenStep(c, s, pid);
    case Write(pid, upto) => WriteStep(c, s, pid, upto);
    case ChangeReviewers(after) => ReviewersStep(c, s, after);
    case ReadFile(rid, path, records) => ReadStep(c, s, rid, path, records);
    case BeginAnchor(_) => AnchorStep(c, s, e);
    case IssueAnchor(_, _) => AnchorStep(c, s, e);
    case _ => QuietStep(c, s, e);
  }

  // ----- Whole runs -----

  /** A run: any sequence of events, each possible where it happens. */
  ghost predicate IsRun(c: Codec, states: seq<State>, events: seq<Event>) {
    && |states| == |events| + 1
    && Init(c, states[0])
    && forall k :: 0 <= k < |events| ==>
         Enabled(c, states[k], events[k]) && states[k + 1] == Next(c, states[k], events[k])
  }

  lemma {:induction false} RunHolds(c: Codec, states: seq<State>, events: seq<Event>, k: nat)
    requires FaithfulJson(c) && IsRun(c, states, events) && k < |states|
    ensures Inv(c, states[k])
    decreases k
  {
    hide Inv, Init, Enabled, FaithfulJson;
    if k == 0 {
      InitHolds(c, states[0]);
    } else {
      RunHolds(c, states, events, k - 1);
      StepHolds(c, states[k - 1], events[k - 1]);
    }
  }

  /** Only opening and writing change the root. */
  lemma OtherStepsKeepRoot(c: Codec, s: State, e: Event)
    requires Enabled(c, s, e) && !e.Open? && !e.Write?
    ensures Next(c, s, e).store.root == s.store.root
    ensures s.anchors <= Next(c, s, e).anchors
  {
    hide Accepts, Reads, Build, Line, Anchors, ValidAnchor, Grows, Chained, Render, Wrote, Opened, LedgerPaths;
  }

  lemma WritingStepsGrow(c: Codec, s: State, e: Event)
    requires Enabled(c, s, e) && (e.Open? || e.Write?)
    ensures IsExtension(s.store.root, Next(c, s, e).store.root)
    ensures s.anchors <= Next(c, s, e).anchors
  {
    hide Accepts, Reads, Line, Anchors, ValidAnchor, Grows, Chained, Render, IsExtension, WithRecord, WithLedger;
    var root := s.store.root;
    ExtendsItself(root);
    OpenedExtends(root, s.procs[e.pid].req.path);
    if e.Write? {
      OneMoreExtends(root, s.procs[e.pid].req.path, s.procs[e.pid].record);
    }
  }

  /** No step takes a record, a ledger or an anchor away. */
  lemma StepGrows(c: Codec, s: State, e: Event)
    requires Inv(c, s) && Enabled(c, s, e)
    ensures IsExtension(s.store.root, Next(c, s, e).store.root)
    ensures s.anchors <= Next(c, s, e).anchors
  {
    hide Inv, Enabled, Next, IsExtension;
    if e.Open? || e.Write? {
      WritingStepsGrow(c, s, e);
    } else {
      OtherStepsKeepRoot(c, s, e);
      ExtendsItself(s.store.root);
    }
  }

  /** Neither an empty ledger nor one more record takes anything away. */
  lemma OpenedExtends(root: Root, path: string)
    ensures IsExtension(root, WithLedger(root, path))
  {
  }

  lemma OneMoreExtends(root: Root, path: string, record: Record)
    ensures IsExtension(root, WithRecord(root, path, record))
  {
  }

  lemma {:induction false} RunGrows(c: Codec, states: seq<State>, events: seq<Event>, i: nat, j: nat)
    requires FaithfulJson(c) && IsRun(c, states, events) && i <= j < |states|
    ensures IsExtension(states[i].store.root, states[j].store.root)
    ensures states[i].anchors <= states[j].anchors
    decreases j
  {
    hide Inv, Init, Enabled, FaithfulJson;
    if i < j {
      RunGrows(c, states, events, i, j - 1);
      RunHolds(c, states, events, j - 1);
      StepGrows(c, states[j - 1], events[j - 1]);
      ExtensionIsTransitive(states[i].store.root, states[j - 1].store.root, states[j].store.root);
    }
  }

  /** At every moment of every run at most one process is between acquiring and releasing the lock. */
  lemma AppendsAreExclusive(c: Codec, states: seq<State>, events: seq<Event>, k: nat, i: nat, j: nat)
    requires FaithfulJson(c) && IsRun(c, states, events) && k < |states|
    requires i in states[k].procs && j in states[k].procs
    requires states[k].procs[i].HoldsLock() && states[k].procs[j].HoldsLock()
    ensures i == j && states[k].lock
  {
    RunHolds(c, states, events, k);
    hide StoreHolds, ReadersHold, AnchorsHold, ProcHolds, IsRun, FaithfulJson;
  }

  /** An anchor, once issued, holds on every root read at any later moment of the run. */
  lemma AnchorsNeverFail(c: Codec, states: seq<State>, events: seq<Event>, i: nat, j: nat, a: Anchor, found: Root)
    requires FaithfulJson(c) && IsRun(c, states, events) && i <= j < |states|
    requires a in states[i].anchors && Reads(c, states[j].store.disk, found)
    ensures AnchorHolds(a, found)
  {
    RunHolds(c, states, events, j);
    RunGrows(c, states, events, i, j);
    hide IsRun, Sound, Fits, Stores, DiskHolds, FaithfulJson, AnchorHolds;
    ReadIsCommitted(c, states[j].store, found);
  }

  // ----- Completed, failed and torn appends -----

  /** Whether the appended line and the ledger it makes are within the sizes a read allows, a megabyte and sixty-four.
      `append_record` does not check either. */
  ghost predicate AppendFits(c: Codec, before: Root, path: string, record: Record) {
    && |c.encodeRecord(record)| <= 1_048_576
    && |Render(c, LedgerAt(before, path))| + |c.encodeRecord(record)| + 1 <= 67_108_864
  }

  /** The root reads back exactly when no line is left unfinished and every size is within its limit. */
  lemma ReadableExactlyWhen(c: Codec, s: State)
    requires FaithfulJson(c) && Inv(c, s)
    ensures (exists found :: Reads(c, s.store.disk, found)) <==> s.store.tear == None && Fits(c, s.store.root)
  {
    hide ReadersHold, AnchorsHold, ProcHolds, MutualExclusion, Sound, FaithfulJson, RootSigned, RootRetained, Render,
         LinesFit;
    forall found | Reads(c, s.store.disk, found) ensures s.store.tear == None && Fits(c, s.store.root) {
      ReadIsCommitted(c, s.store, found);
    }
    if s.store.tear == None && Fits(c, s.store.root) {
      assert forall p :: p in s.store.root ==> Render(c, s.store.root[p]) + "" == Render(c, s.store.root[p]);
      assert Reads(c, s.store.disk, s.store.root);
    }
  }

  lemma GrownLedgerFits(c: Codec, records: seq<Record>, record: Record)
    requires LinesFit(c, records)
    ensures LinesFit(c, records + [record]) <==> |c.encodeRecord(record)| <= MAX_LINE_BYTES
    ensures |Render(c, records + [record])| == |Render(c, records)| + |c.encodeRecord(record)| + 1
  {
    ChainAppend(c, records, record);
    RenderOneMore(c, records, record);
    hide Render, LinesFit, Chained;
  }

  /** Exchanging one ledger leaves the sizes of the others alone. */
  lemma OneLedgerDecides(c: Codec, root: Root, path: string, records: seq<Record>)
    requires Fits(c, root)
    ensures Fits(c, root[path := records]) <==> LinesFit(c, records) && |Render(c, records)| <= MAX_LEDGER_BYTES
  {
    hide Render, LinesFit;
    var after: Root := root[path := records];
    assert path in after && after[path] == records;
    assert forall p :: p in after && p != path ==> p in root && after[p] == root[p];
  }

  lemma LedgerAtFits(c: Codec, root: Root, path: string)
    requires Fits(c, root)
    ensures LinesFit(c, LedgerAt(root, path))
  {
    EmptyChain(c);
    hide Render, LinesFit;
  }

  lemma FitsAfterAppend(c: Codec, before: Root, path: string, record: Record)
    requires Fits(c, before)
    ensures Fits(c, WithRecord(before, path, record)) <==> AppendFits(c, before, path, record)
  {
    hide Fits, Render, LinesFit, LedgerAt;
    LedgerAtFits(c, before, path);
    GrownLedgerFits(c, LedgerAt(before, path), record);
    OneLedgerDecides(c, before, path, LedgerAt(before, path) + [record]);
  }

  /** An append that succeeded added exactly its record, signed by a listed key and with its artifact retained, to
      the root it verified; and the root it leaves reads back, as exactly that, if and only if the sizes fit. */
  lemma CompletedAppend(c: Codec, s: State, pid: nat)
    requires FaithfulJson(c) && Inv(c, s) && pid in s.procs && s.procs[pid].Succeeding?
    ensures var p := s.procs[pid];
            var after := WithRecord(p.before, p.req.path, p.record);
            && s.store.root == after && IsFinished(c, p.req, Head(LedgerAt(p.before, p.req.path)), p.record)
            && Sound(c, after) && RootSigned(c, s.store.trusted, after)
            && p.record.signed.body.artifact in s.store.retained
            && ((exists found :: Reads(c, s.store.disk, found)) <==> AppendFits(c, p.before, p.req.path, p.record))
            && (forall found :: Reads(c, s.store.disk, found) ==> found == after)
  {
    var p := s.procs[pid];
    assert ProcHolds(c, s.store, p);
    ReadableExactlyWhen(c, s);
    FitsAfterAppend(c, p.before, p.req.path, p.record);
    hide ReadersHold, AnchorsHold, MutualExclusion, Sound, FaithfulJson, RootSigned, RootRetained, Fits, WithRecord,
         AppendFits, DiskHolds, Stores, Extends, SignerStatus, IdIsNew;
    forall found | Reads(c, s.store.disk, found) ensures found == s.store.root {
      ReadIsCommitted(c, s.store, found);
    }
  }

  /** The ledger begins with what the process verified there, and its record follows. */
  ghost predicate HoldsRecord(root: Root, before: Root, path: string, record: Record) {
    path in root && LedgerAt(before, path) + [record] <= root[path]
  }

  /** The step that ended the process gave the lock back after its line was written and synced. */
  ghost predicate SucceededAt(states: seq<State>, events: seq<Event>, k: nat, pid: nat) {
    && k < |events| && k < |states| && events[k] == Release(pid)
    && pid in states[k].procs && states[k].procs[pid].Succeeding?
  }

  lemma FinishedBegins(c: Codec, s: State, e: Event, pid: nat)
    requires Enabled(c, s, e) && pid in Next(c, s, e).procs && Next(c, s, e).procs[pid] == Finished(true)
    ensures pid in s.procs
    ensures s.procs[pid] == Finished(true) || (e == Release(pid) && s.procs[pid].Succeeding?)
  {
    hide Accepts, Reads, Build, Line, Anchors, ValidAnchor, Grows, Chained, Render, WithRecord, WithLedger;
  }

  /** Whoever is told that its append succeeded has its record in the ledger, behind what it verified, then and ever after. */
  lemma {:induction false} SuccessLasts(c: Codec, states: seq<State>, events: seq<Event>, j: nat, pid: nat) returns (k: nat)
    requires FaithfulJson(c) && IsRun(c, states, events) && j < |states|
    requires pid in states[j].procs && states[j].procs[pid] == Finished(true)
    ensures k < j && SucceededAt(states, events, k, pid)
    ensures var p := states[k].procs[pid];
            && HoldsRecord(states[j].store.root, p.before, p.req.path, p.record)
            && IsFinished(c, p.req, Head(LedgerAt(p.before, p.req.path)), p.record)
    decreases j
  {
    hide Inv, Init, Enabled, Next, FaithfulJson, HoldsRecord, IsFinished;
    NobodyAtFirst(c, states, events);
    FinishedBegins(c, states[j - 1], events[j - 1], pid);
    RunHolds(c, states, events, j - 1);
    if states[j - 1].procs[pid] == Finished(true) {
      k := SuccessLasts(c, states, events, j - 1, pid);
    } else {
      k := j - 1;
      RecordIsHeld(c, states[k], pid);
    }
    StepGrows(c, states[j - 1], events[j - 1]);
    var p := states[k].procs[pid];
    StillHeld(states[j - 1].store.root, states[j].store.root, p.before, p.req.path, p.record);
  }

  lemma NobodyAtFirst(c: Codec, states: seq<State>, events: seq<Event>)
    requires IsRun(c, states, events)
    ensures states[0].procs == map[]
  {
    hide Enabled, Next, Reads, RootSigned, RootRetained;
  }

  lemma RecordIsHeld(c: Codec, s: State, pid: nat)
    requires Inv(c, s) && pid in s.procs && s.procs[pid].Succeeding?
    ensures var p := s.procs[pid];
            && HoldsRecord(s.store.root, p.before, p.req.path, p.record)
            && IsFinished(c, p.req, Head(LedgerAt(p.before, p.req.path)), p.record)
  {
    hide StoreHolds, ReadersHold, AnchorsHold, MutualExclusion, Extensible, IsFinished;
    assert ProcHolds(c, s.store, s.procs[pid]);
  }

  lemma StillHeld(root: Root, after: Root, before: Root, path: string, record: Record)
    requires HoldsRecord(root, before, path, record) && IsExtension(root, after)
    ensures HoldsRecord(after, before, path, record)
  {
    assert root[path] <= after[path];
  }

  /** A line left unfinished by a dead or failed writer. */
  ghost predicate Orphaned(s: State) {
    s.store.tear.Some? && forall i :: i in s.procs ==> !s.procs[i].Writing?
  }

  lemma StoreDisk(c: Codec, store: Store)
    requires StoreHolds(c, store)
    ensures DiskHolds(c, store.disk, store.root, store.tear)
  {
    hide DiskHolds, Sound, RootSigned, RootRetained;
  }

  /** Nobody gets past verification while a line is orphaned. */
  lemma OrphanBlocks(c: Codec, s: State, e: Event)
    requires FaithfulJson(c) && Inv(c, s) && Enabled(c, s, e) && Orphaned(s)
    ensures !e.Verify? && !e.Open? && !e.Write?
  {
    hide StoreHolds, ReadersHold, AnchorsHold, MutualExclusion, Extensible, FaithfulJson, Accepts, Stores, Sound, Fits, DiskHolds,
         Anchors, ValidAnchor, Grows, Chained, Render, Line, WithRecord, WithLedger;
    if e.Verify? {
      assert DiskHolds(c, s.store.disk, s.store.root, s.store.tear) by { StoreDisk(c, s.store); }
      TornIsUnreadable(c, s.store.disk, s.store.root, s.store.tear, e.found);
    }
  }

  lemma OrphanStep(c: Codec, s: State, e: Event)
    requires Enabled(c, s, e) && Orphaned(s) && !e.Verify? && !e.Open? && !e.Write?
    ensures Orphaned(Next(c, s, e)) && Next(c, s, e).store.disk == s.store.disk
  {
    hide Accepts, Reads, Anchors, ValidAnchor, Grows, Chained, Render, Line;
  }

  /** The protocol fails closed: once a line is orphaned, the ledger bytes never change again and no read of the root
      succeeds, however the lock is cleared and whoever tries to append. */
  lemma {:induction false} OrphanedLineStopsTheRoot(
      c: Codec, states: seq<State>, events: seq<Event>, i: nat, j: nat, found: Root)
    requires FaithfulJson(c) && IsRun(c, states, events) && i <= j < |states| && Orphaned(states[i])
    ensures Orphaned(states[j]) && states[j].store.disk == states[i].store.disk
    ensures !Reads(c, states[j].store.disk, found)
    decreases j
  {
    hide Inv, Init, Enabled, FaithfulJson, Orphaned, Reads;
    RunHolds(c, states, events, j);
    if i < j {
      OrphanedLineStopsTheRoot(c, states, events, i, j - 1, found);
      RunHolds(c, states, events, j - 1);
      OrphanBlocks(c, states[j - 1], events[j - 1]);
      OrphanStep(c, states[j - 1], events[j - 1]);
    }
    OrphanIsUnreadable(c, states[j], found);
  }

  lemma OrphanIsUnreadable(c: Codec, s: State, found: Root)
    requires FaithfulJson(c) && Inv(c, s) && Orphaned(s)
    ensures !Reads(c, s.store.disk, found)
  {
    TornIsUnreadable(c, s.store.disk, s.store.root, s.store.tear, found);
  }
}
