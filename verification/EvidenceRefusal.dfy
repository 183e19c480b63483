/** A run in which an audit refuses an anchor of the very root it is reading: the audit reads some ledgers, an append and an
    anchor are completed meanwhile, and the audit reads the rest. */
module EvidenceRefusal {
  import opened Prelude
  import opened EvidenceRecord
  import opened EvidenceLedger
  import opened EvidenceRoot
  import opened EvidenceAnchor
  import opened EvidenceAppend
  import EvidenceStore
  import CanonicalTime

  lemma RunLength(c: Codec, states: seq<State>, events: seq<Event>)
    requires IsRun(c, states, events)
    ensures |states| == |events| + 1
  {
    hide Init, Enabled, Next;
  }

  /** One more event at the end of a run. */
  lemma OneMore(c: Codec, states: seq<State>, events: seq<Event>, e: Event) returns (more: seq<State>)
    requires IsRun(c, states, events) && Enabled(c, states[|events|], e)
    ensures |more| == |events| + 2
    ensures IsRun(c, more, events + [e]) && states <= more && more[|events| + 1] == Next(c, states[|events|], e)
  {
    hide Init, Enabled, Next;
    more := states + [Next(c, states[|events|], e)];
    var all := events + [e];
    forall k | 0 <= k < |all| ensures Enabled(c, more[k], all[k]) && more[k + 1] == Next(c, more[k], all[k]) {
      if k < |events| {
        assert more[k] == states[k] && more[k + 1] == states[k + 1] && all[k] == events[k];
      }
    }
  }

  function Restricted(root: Root, part: set<string>): Root
    requires part <= root.Keys
  {
    map p | p in part :: root[p]
  }

  /** What a reader has after reading some of its ledgers from a root. */
  function AfterReading(reader: Reader, root: Root, part: set<string>): Reader
    requires part <= root.Keys
  {
    Reader(reader.todo - part, reader.collected + Restricted(root, part))
  }

  lemma FileIsThere(c: Codec, store: Store, reader: Reader, path: string)
    requires StoreHolds(c, store) && store.tear == None && ReaderHolds(reader, store.root) && path in reader.todo
    ensures path in store.root && path in store.disk
    ensures store.disk[path] == Render(c, store.root[path]) && Chained(c, store.root[path])
  {
    hide Render, Chained, RootSigned, RootRetained, DistinctIds, IsLedgerPath;
    var text := Render(c, store.root[path]);
    assert text + "" == text;
  }

  lemma OneRead(reader: Reader, root: Root, path: string)
    requires path in root
    ensures AfterReading(reader, root, {path}) == Reader(reader.todo - {path}, reader.collected[path := root[path]])
  {
    var one := Restricted(root, {path});
    assert one == map[path := root[path]];
    assert reader.collected + one == reader.collected[path := root[path]];
  }

  lemma ReadOne(c: Codec, s: State, rid: nat, path: string)
    requires Inv(c, s) && s.store.tear == None && rid in s.readers && path in s.readers[rid].todo
    ensures path in s.store.root && Enabled(c, s, ReadFile(rid, path, s.store.root[path]))
    ensures Next(c, s, ReadFile(rid, path, s.store.root[path]))
         == s.(readers := s.readers[rid := AfterReading(s.readers[rid], s.store.root, {path})])
  {
    hide StoreHolds, ReaderHolds, ProcHolds, MutualExclusion, AnchorsHold, Render, Chained, AfterReading, Accepts, Reads, Anchors,
         ValidAnchor, Grows, Line, WithRecord, WithLedger;
    FileIsThere(c, s.store, s.readers[rid], path);
    OneRead(s.readers[rid], s.store.root, path);
  }

  lemma RestrictedInTwoParts(collected: Root, root: Root, part: set<string>, rest: set<string>)
    requires part <= root.Keys && rest <= root.Keys
    ensures (collected + Restricted(root, part)) + Restricted(root, rest) == collected + Restricted(root, part + rest)
  {
    var twice := (collected + Restricted(root, part)) + Restricted(root, rest);
    var once := collected + Restricted(root, part + rest);
    assert twice.Keys == once.Keys;
    forall p | p in twice ensures twice[p] == once[p] {
    }
  }

  lemma ReadingInTwoParts(reader: Reader, root: Root, path: string, rest: set<string>)
    requires path in root && rest <= root.Keys
    ensures AfterReading(AfterReading(reader, root, {path}), root, rest) == AfterReading(reader, root, {path} + rest)
  {
    hide Restricted;
    RestrictedInTwoParts(reader.collected, root, {path}, rest);
    assert (reader.todo - {path}) - rest == reader.todo - ({path} + rest);
  }

  /** A reader reads any part of what it has left, while nobody else moves. */
  lemma {:induction false} ReadPart(c: Codec, states: seq<State>, events: seq<Event>, rid: nat, part: set<string>)
    returns (more: seq<State>, all: seq<Event>)
    requires FaithfulJson(c) && IsRun(c, states, events)
    requires var s := states[|events|]; s.store.tear == None && rid in s.readers && part <= s.readers[rid].todo
    ensures part <= states[|events|].store.root.Keys
    ensures IsRun(c, more, all) && states <= more && events <= all
    ensures var s := states[|events|];
            more[|all|] == s.(readers := s.readers[rid := AfterReading(s.readers[rid], s.store.root, part)])
    decreases part
  {
    hide Init, Enabled, Next, FaithfulJson, AfterReading, Inv;
    var s := states[|events|];
    RunHolds(c, states, events, |events|);
    if part == {} {
      more, all := states, events;
      NothingToRead(s, rid);
    } else {
      var path :| path in part;
      var rest := part - {path};
      ReadOne(c, s, rid, path);
      var e := ReadFile(rid, path, s.store.root[path]);
      var next := OneMore(c, states, events, e);
      LeftToRead(s.readers[rid], s.store.root, path);
      more, all := ReadPart(c, next, events + [e], rid, rest);
      ReadingInTwoParts(s.readers[rid], s.store.root, path, rest);
      assert {path} + rest == part;
    }
  }

  lemma NothingToRead(s: State, rid: nat)
    requires rid in s.readers
    ensures s == s.(readers := s.readers[rid := AfterReading(s.readers[rid], s.store.root, {})])
  {
    var r := s.readers[rid];
    assert r.todo - {} == r.todo && AfterReading(r, s.store.root, {}).collected == r.collected;
    assert s.readers[rid := r] == s.readers;
  }

  lemma LeftToRead(reader: Reader, root: Root, path: string)
    requires path in root
    ensures AfterReading(reader, root, {path}).todo == reader.todo - {path}
  {
  }

  // ----- An undisturbed append -----

  /** Nobody is at work, and the request is acceptable. */
  ghost predicate MayAppend(c: Codec, s: State, req: Request) {
    && !s.lock && 0 !in s.procs && s.store.tear == None && req.trusted == s.store.trusted && req.path in s.store.root
    && Reads(c, s.store.disk, s.store.root) && Accepts(c, req, s.store.root)
  }

  /** The record the append adds. */
  function Added(c: Codec, root: Root, req: Request): Record {
    Build(c, req, Head(LedgerAt(root, req.path)))
  }

  /** The state at the end of an append: the new store, the lock given back, and the process done. */
  ghost predicate Appended(c: Codec, s: State, req: Request, t: State) {
    && t.store.root == WithRecord(s.store.root, req.path, Added(c, s.store.root, req)) && t.store.tear == None
    && !t.lock && t.procs == s.procs[0 := Finished(true)] && t.readers == s.readers && t.anchors == s.anchors
  }

  /** Up to the write: the lock taken, the root verified, the record built and its artifact retained. */
  ghost predicate ReadyToWrite(c: Codec, s: State, req: Request, t: State) {
    && t.lock && t.readers == s.readers && t.anchors == s.anchors
    && t.procs == s.procs[0 := Prepared(req, Added(c, s.store.root, req), s.store.root)]
    && t.store.root == s.store.root && t.store.tear == None
  }

  lemma Prepare(c: Codec, states: seq<State>, events: seq<Event>, req: Request) returns (more: seq<State>, all: seq<Event>)
    requires IsRun(c, states, events) && MayAppend(c, states[|events|], req)
    ensures IsRun(c, more, all) && states <= more && events <= all
    ensures ReadyToWrite(c, states[|events|], req, more[|all|])
  {
    hide IsRun, Accepts, Reads, Build, Head, Anchors, ValidAnchor, Grows, Chained, Render, Line, WithRecord, WithLedger, LedgerAt;
    RunLength(c, states, events);
    var s := states[|events|];
    more := OneMore(c, states, events, Start(0, req));
    all := events + [Start(0, req)];
    more := OneMore(c, more, all, Acquire(0));
    all := all + [Acquire(0)];
    more := OneMore(c, more, all, Verify(0, s.store.root));
    all := all + [Verify(0, s.store.root)];
  }

  /** The whole line is on disk. */
  ghost predicate IsWritten(c: Codec, s: State, req: Request, t: State) {
    && t.lock && t.readers == s.readers && t.anchors == s.anchors
    && t.procs == s.procs[0 := Written(req, Added(c, s.store.root, req), s.store.root)]
    && t.store.root == WithRecord(s.store.root, req.path, Added(c, s.store.root, req)) && t.store.tear == None
  }

  lemma OpenedAndWritten(c: Codec, store: Store, path: string, record: Record)
    requires store.tear == None && path in store.root
    ensures |Line(c, record)| > 0
    ensures var after := Wrote(c, Opened(store, path), path, record, 0, |Line(c, record)|);
            after.root == WithRecord(store.root, path, record) && after.tear == None
  {
    assert WithLedger(store.root, path) == store.root;
  }

  lemma Put(c: Codec, states: seq<State>, events: seq<Event>, s: State, req: Request)
    returns (more: seq<State>, all: seq<Event>)
    requires IsRun(c, states, events) && req.path in s.store.root && ReadyToWrite(c, s, req, states[|events|])
    ensures IsRun(c, more, all) && states <= more && events <= all
    ensures IsWritten(c, s, req, more[|all|])
  {
    hide IsRun, Accepts, Reads, Build, Anchors, ValidAnchor, Grows, Chained, Render, Line, WithRecord, WithLedger, LedgerAt,
         Added, Wrote, Opened;
    RunLength(c, states, events);
    var record := Added(c, s.store.root, req);
    OpenedAndWritten(c, states[|events|].store, req.path, record);
    more := OneMore(c, states, events, Open(0));
    all := events + [Open(0)];
    more := OneMore(c, more, all, Write(0, |Line(c, record)|));
    all := all + [Write(0, |Line(c, record)|)];
  }

  lemma Close(c: Codec, states: seq<State>, events: seq<Event>, s: State, req: Request)
    returns (more: seq<State>, all: seq<Event>)
    requires IsRun(c, states, events) && IsWritten(c, s, req, states[|events|])
    ensures IsRun(c, more, all) && states <= more && events <= all
    ensures Appended(c, s, req, more[|all|])
  {
    hide IsRun, Accepts, Reads, Anchors, ValidAnchor, Grows, Chained, Render, Line, WithRecord, LedgerAt, Added;
    RunLength(c, states, events);
    more := OneMore(c, states, events, Sync(0));
    all := events + [Sync(0)];
    more := OneMore(c, more, all, Release(0));
    all := all + [Release(0)];
  }

  /** An acceptable append, from the start of its process to its end. */
  lemma Append(c: Codec, states: seq<State>, events: seq<Event>, req: Request) returns (more: seq<State>, all: seq<Event>)
    requires IsRun(c, states, events) && MayAppend(c, states[|events|], req)
    ensures IsRun(c, more, all) && states <= more && events <= all
    ensures Appended(c, states[|events|], req, more[|all|])
  {
    hide IsRun, Accepts, Reads, ReadyToWrite, IsWritten, Appended;
    RunLength(c, states, events);
    var s := states[|events|];
    more, all := Prepare(c, states, events, req);
    more, all := Put(c, more, all, s, req);
    more, all := Close(c, more, all, s, req);
  }

  // ----- Beginning a reading, and ending it with an anchor -----

  lemma Begin(c: Codec, states: seq<State>, events: seq<Event>, rid: nat, part: set<string>)
    returns (more: seq<State>, all: seq<Event>)
    requires FaithfulJson(c) && IsRun(c, states, events)
    requires var s := states[|events|]; rid !in s.readers && s.store.tear == None && part <= s.store.root.Keys
    ensures IsRun(c, more, all) && states <= more && events + [BeginAnchor(rid)] <= all
    ensures var s := states[|events|]; var root := s.store.root;
            more[|all|] == s.(readers := s.readers[rid := Reader(root.Keys - part, Restricted(root, part))])
  {
    hide Init, Inv, IsRun, FaithfulJson, Restricted, Accepts, Reads, Build, Anchors, ValidAnchor, Grows, Chained, Render, Line;
    RunLength(c, states, events);
    var s := states[|events|];
    RunHolds(c, states, events, |events|);
    PathsAreTheRoots(c, s);
    more := OneMore(c, states, events, BeginAnchor(rid));
    all := events + [BeginAnchor(rid)];
    more, all := ReadPart(c, more, all, rid, part);
    var empty: Root := map[];
    assert empty + Restricted(s.store.root, part) == Restricted(s.store.root, part);
  }

  lemma PathsAreTheRoots(c: Codec, s: State)
    requires Inv(c, s)
    ensures LedgerPaths(s.store.disk) == s.store.root.Keys
  {
    hide ProcHolds, MutualExclusion, AnchorsHold, ReadersHold, Sound, RootSigned, RootRetained, Render, IsLedgerPath;
  }

  lemma Whole(root: Root)
    ensures Restricted(root, root.Keys) == root && root.Keys - root.Keys == {}
  {
  }

  /** A reader reads everything and anchors it. */
  lemma AnchorAll(c: Codec, states: seq<State>, events: seq<Event>, rid: nat, a: Anchor)
    returns (more: seq<State>, all: seq<Event>)
    requires FaithfulJson(c) && IsRun(c, states, events)
    requires var s := states[|events|];
             rid !in s.readers && s.store.tear == None && Anchors(a, s.store.root) && ValidAnchor(a)
    ensures IsRun(c, more, all) && states <= more && events <= all && |all| > 0 && all[|all| - 1] == IssueAnchor(rid, a)
    ensures var s, t := states[|events|], more[|all| - 1]; t.store == s.store && t.procs == s.procs
    ensures var s, t := more[|all| - 1], more[|all|]; t == s.(anchors := s.anchors + {a})
    ensures more[|all|].readers == states[|events|].readers[rid := Reader({}, states[|events|].store.root)]
  {
    hide IsRun, FaithfulJson, Restricted, Accepts, Reads, Build, Anchors, ValidAnchor, Grows, Chained, Render, Line;
    RunLength(c, states, events);
    var s := states[|events|];
    more, all := Begin(c, states, events, rid, s.store.root.Keys);
    Whole(s.store.root);
    RunLength(c, more, all);
    more := OneMore(c, more, all, IssueAnchor(rid, a));
    all := all + [IssueAnchor(rid, a)];
  }

  /** The document of a listing passes `validate_anchor` when no record hashes to the zero hash. */
  lemma DocumentIsValid(c: Codec, files: seq<LedgerFile>, reviewersSha256: string, anchoredAt: string)
    requires Listed(files) && Sound(c, AsRoot(files)) && forall p :: p in AsRoot(files) ==> IsLedgerPath(p)
    requires IsHex(reviewersSha256, 64) && CanonicalTime.IsLedgerTimestamp(anchoredAt)
    requires forall text :: c.sha256(text) != ZeroHash()
    ensures ValidAnchor(AnchorDocument(files, reviewersSha256, anchoredAt))
  {
    hide Listed, Sound, IsLedgerPath, IsHex, CanonicalTime.IsLedgerTimestamp, AsRoot;
    var a := AnchorDocument(files, reviewersSha256, anchoredAt);
    forall e | e in a.ledgers ensures ValidEntry(e) {
      var i :| 0 <= i < |files| && a.ledgers[i] == e;
      FileIsListed(c, files, i);
      HeadIsValid(c, files[i].records);
    }
    ListedInOrder(files);
  }

  lemma ListedInOrder(files: seq<LedgerFile>)
    requires Listed(files)
    ensures forall i, j :: 0 <= i < j < |files| ==> Less(files[i].path, files[j].path)
  {
    hide Less;
  }

  lemma FileIsListed(c: Codec, files: seq<LedgerFile>, i: nat)
    requires Listed(files) && Sound(c, AsRoot(files)) && i < |files|
    ensures files[i].path in AsRoot(files) && Chained(c, files[i].records) && files[i].head == Head(files[i].records)
  {
    hide Chained, DistinctIds, Less;
    AsRootHas(files, i);
  }

  lemma HeadIsValid(c: Codec, records: seq<Record>)
    requires Chained(c, records) && forall text :: c.sha256(text) != ZeroHash()
    ensures IsHex(Head(records), 64) && (records == [] <==> Head(records) == ZeroHash())
  {
    hide WellFormedBody;
  }

  // ----- The refusal -----

  lemma ShorterIsRefused(a: Anchor, anchored: Root, collected: Root, path: string)
    requires Anchors(a, anchored) && path in anchored && path in collected && |collected[path]| < |anchored[path]|
    ensures !AnchorHolds(a, collected)
  {
    var e :| e in a.ledgers && e.path == path;
    assert !EntryHolds(e, collected);
  }

  /** What a reader has that read one part before a record was added to a ledger of that part, and the rest afterwards. */
  lemma ReadAround(root: Root, path: string, record: Record, first: set<string>)
    requires first <= root.Keys && path in first
    ensures var after := WithRecord(root, path, record);
            && root.Keys - first <= after.Keys
            && AfterReading(Reader(root.Keys - first, Restricted(root, first)), after, root.Keys - first) == Reader({}, root)
  {
    var after := WithRecord(root, path, record);
    var rest := root.Keys - first;
    var both := Restricted(root, first) + Restricted(after, rest);
    assert both.Keys == root.Keys;
    assert both == root;
    assert rest - rest == {};
  }

  /** From any verified root and any append it accepts there is a run in which an audit refuses an anchor of that root that was
      issued while it read: reader 0 reads any part with the ledger of the append, the append is completed and still reads back,
      reader 1 reads the root and anchors it as `files` lists it, and reader 0 reads the rest. It has then read exactly the root
      it began with, and the anchor does not hold on that. */
  lemma AnchorIssuedMeanwhileIsRefused(
    c: Codec, s: State, req: Request, first: set<string>, files: seq<LedgerFile>, reviewersSha256: string, anchoredAt: string)
    returns (states: seq<State>, events: seq<Event>, k: nat)
    requires FaithfulJson(c) && Init(c, s) && req.trusted == s.store.trusted && Accepts(c, req, s.store.root)
    requires first <= s.store.root.Keys && req.path in first
    requires AppendFits(c, s.store.root, req.path, Added(c, s.store.root, req))
    requires Listed(files) && AsRoot(files) == WithRecord(s.store.root, req.path, Added(c, s.store.root, req))
    requires IsHex(reviewersSha256, 64) && CanonicalTime.IsLedgerTimestamp(anchoredAt)
    requires forall text :: c.sha256(text) != ZeroHash()
    ensures IsRun(c, states, events) && states[0] == s
    ensures k < |events| && events[k] == IssueAnchor(1, AnchorDocument(files, reviewersSha256, anchoredAt))
    ensures states[k].procs == map[0 := Finished(true)] && Reads(c, states[k].store.disk, AsRoot(files))
    ensures 0 in states[k].readers
         && states[k].readers[0] == Reader(s.store.root.Keys - first, Restricted(s.store.root, first))
    ensures var last := states[|events|];
            && 0 in last.readers && last.readers[0] == Reader({}, s.store.root)
            && !AnchorHolds(AnchorDocument(files, reviewersSha256, anchoredAt), last.readers[0].collected)
  {
    hide IsRun, FaithfulJson, Restricted, Accepts, Reads, Fits, Added, Build, AnchorDocument, Anchors, ValidAnchor, AnchorHolds,
         AppendFits, WithRecord, AsRoot, Listed, Sound, RootSigned, RootRetained, IsHex, CanonicalTime.IsLedgerTimestamp, AfterReading;
    var a := AnchorDocument(files, reviewersSha256, anchoredAt);
    var root := s.store.root;
    OnlyStart(c, s);
    states, events := Begin(c, [s], [], 0, first);
    RunLength(c, states, events);
    var atFirst := states[|events|];
    states, events := Append(c, states, events, req);
    AppendedReadsBack(c, states, events, atFirst, req);
    RunLength(c, states, events);
    var afterwards := states[|events|];
    DocumentIsValid(c, files, reviewersSha256, anchoredAt);
    DocumentAnchors(files, reviewersSha256, anchoredAt);
    states, events := AnchorAll(c, states, events, 1, a);
    k := |events| - 1;
    RunLength(c, states, events);
    ReadAround(root, req.path, Added(c, root, req), first);
    var more, all := ReadPart(c, states, events, 0, root.Keys - first);
    assert all[k] == events[k] && more[k] == states[k];
    states, events := more, all;
    GrownLedgerIsLonger(root, req.path, Added(c, root, req));
    ShorterIsRefused(a, AsRoot(files), root, req.path);
  }

  lemma OnlyStart(c: Codec, s: State)
    requires Init(c, s)
    ensures IsRun(c, [s], []) && s.store.tear == None && !s.lock && s.procs == map[] && s.readers == map[]
    ensures Reads(c, s.store.disk, s.store.root) && Fits(c, s.store.root)
  {
    hide Stores, Sound, Fits, RootSigned, RootRetained;
  }

  lemma GrownLedgerIsLonger(root: Root, path: string, record: Record)
    requires path in root
    ensures path in WithRecord(root, path, record) && |WithRecord(root, path, record)[path]| == |root[path]| + 1
  {
  }

  /** What a completed append leaves: a sound root, which reads back when the sizes fit. */
  lemma AppendedReadsBack(c: Codec, states: seq<State>, events: seq<Event>, s: State, req: Request)
    requires FaithfulJson(c) && IsRun(c, states, events) && Appended(c, s, req, states[|events|])
    requires Fits(c, s.store.root) && AppendFits(c, s.store.root, req.path, Added(c, s.store.root, req))
    ensures var t, root := states[|events|], WithRecord(s.store.root, req.path, Added(c, s.store.root, req));
            && t.store.root == root && Sound(c, root) && Reads(c, t.store.disk, root)
            && forall p :: p in root ==> IsLedgerPath(p)
  {
    hide Init, Enabled, Next, FaithfulJson, ProcHolds, MutualExclusion, AnchorsHold, ReadersHold, AppendFits, Fits, Sound,
         RootSigned, RootRetained, Render, WithRecord, Added, IsLedgerPath;
    RunHolds(c, states, events, |events|);
    FitsAfterAppend(c, s.store.root, req.path, Added(c, s.store.root, req));
    var store := states[|events|].store;
    forall p | p in store.root ensures p in LedgerPaths(store.disk) && store.disk[p] == Render(c, store.root[p]) {
      var text := Render(c, store.root[p]);
      assert text + "" == text;
    }
  }

  /** One ledger without records, and a reviewer who has signed nothing yet. */
  function Beginning(path: string, trusted: Reviewers): State {
    State(Store(map[path := ""], trusted, {}, map[path := []], None), false, map[], map[], {})
  }

  lemma BeginningIsInitial(c: Codec, path: string, trusted: Reviewers)
    requires IsLedgerPath(path)
    ensures Init(c, Beginning(path, trusted))
  {
    hide IsLedgerPath;
    EmptyChain(c);
    EmptyRendering(c);
    EvidenceStore.NothingInEmptyRoot(c, trusted, map[path := []], "");
  }

  lemma OneLedgerIsListed(path: string, record: Record)
    ensures var files := [LedgerFile(path, [record], record.recordHash)];
            Listed(files) && AsRoot(files) == WithRecord(map[path := []], path, record)
  {
    hide Less;
    var files := [LedgerFile(path, [record], record.recordHash)];
    assert files[..0] == [] && AsRoot([]) == map[];
    var empty: Root := map[path := []];
    assert LedgerAt(empty, path) + [record] == [record];
    assert WithRecord(empty, path, record) == map[path := [record]] == AsRoot(files);
  }

  /** Such a run begins at one empty ledger: the first record of a design partner, which any signer of the reviewer's key can add,
      is enough to have the audit that has just read the ledger refuse the anchor of it. */
  lemma FirstRecordIsRefused(
    c: Codec, path: string, key: string, sign: string -> string, reviewersSha256: string, anchoredAt: string)
    returns (states: seq<State>, events: seq<Event>, a: Anchor, k: nat)
    requires FaithfulJson(c) && IsLedgerPath(path) && EvidenceStore.Signs(c, key, sign)
    requires forall text :: IsHex(c.sha256(text), 64) && c.sha256(text) != ZeroHash()
    requires |c.encodeRecord(Added(c, map[path := []], EvidenceStore.LongRequest(1, path, key, sign)))| <= MAX_LINE_BYTES
    requires IsHex(reviewersSha256, 64) && CanonicalTime.IsLedgerTimestamp(anchoredAt)
    ensures IsRun(c, states, events) && k < |events| && events[k] == IssueAnchor(1, a)
    ensures 0 in states[k].readers && states[k].readers[0].todo == {}
    ensures var last := states[|events|]; 0 in last.readers && !AnchorHolds(a, last.readers[0].collected)
  {
    hide FaithfulJson, Accepts, IsRun, Init, Added, IsHex, CanonicalTime.IsLedgerTimestamp, AnchorHolds, Listed, AsRoot,
         WithRecord, IsLedgerPath, EvidenceStore.Signs, EvidenceStore.LongRequest, Reads, Render;
    var req := EvidenceStore.LongRequest(1, path, key, sign);
    var s := Beginning(path, req.trusted);
    var record := Added(c, s.store.root, req);
    BeginningIsInitial(c, path, req.trusted);
    EvidenceStore.LongIdIsAccepted(c, s.store.root, 1, path, key, sign);
    OneLedgerIsListed(path, record);
    EmptyRendering(c);
    var files := [LedgerFile(path, [record], record.recordHash)];
    a := AnchorDocument(files, reviewersSha256, anchoredAt);
    assert req.path == path by { PathOfRequest(path, key, sign); }
    assert s.store.root.Keys - {path} == {};
    states, events, k := AnchorIssuedMeanwhileIsRefused(c, s, req, {path}, files, reviewersSha256, anchoredAt);
  }

  lemma PathOfRequest(path: string, key: string, sign: string -> string)
    ensures EvidenceStore.LongRequest(1, path, key, sign).path == path
  {
  }
}
