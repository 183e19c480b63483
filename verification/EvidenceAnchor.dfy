/** Anchors: documents kept outside the root that make the deletion or editing of records visible. */
module EvidenceAnchor {
  import opened Prelude
  import opened EvidenceRecord
  import opened EvidenceLedger
  import opened EvidenceRoot
  import CanonicalTime
  import Sorting

  datatype Entry = Entry(path: string, records: nat, head: string)
  datatype Anchor = Anchor(anchoredAt: string, reviewersSha256: string, ledgers: seq<Entry>)

  /** `anchor_document`: the record count and chain head of every ledger. */
  function AnchorDocument(files: seq<LedgerFile>, reviewersSha256: string, anchoredAt: string): Anchor {
    Anchor(anchoredAt, reviewersSha256,
           seq(|files|, i requires 0 <= i < |files| => Entry(files[i].path, |files[i].records|, files[i].head)))
  }

  predicate ValidEntry(e: Entry) {
    IsLedgerPath(e.path) && IsHex(e.head, 64) && ((e.records == 0) <==> (e.head == ZeroHash()))
  }

  /** `validate_anchor`. */
  predicate ValidAnchor(a: Anchor) {
    && CanonicalTime.IsLedgerTimestamp(a.anchoredAt)
    && IsHex(a.reviewersSha256, 64)
    && (forall e :: e in a.ledgers ==> ValidEntry(e))
    && (forall i, j :: 0 <= i < j < |a.ledgers| ==> Less(a.ledgers[i].path, a.ledgers[j].path))
  }

  /** What one entry demands of a root: the ledger is there, at least as long, and the anchored record has the
      anchored hash. */
  predicate EntryHolds(e: Entry, root: Root) {
    && e.path in root
    && e.records <= |root[e.path]|
    && (e.records > 0 ==> root[e.path][e.records - 1].recordHash == e.head)
  }

  predicate AnchorHolds(a: Anchor, root: Root) {
    forall e :: e in a.ledgers ==> EntryHolds(e, root)
  }

  /** The anchor names every ledger of the root at its present length. */
  predicate Covers(a: Anchor, root: Root) {
    (set e | e in a.ledgers :: (e.path, e.records)) == (set p | p in root :: (p, |root[p]|))
  }

  /** `check_anchor`: refuses a root the anchor does not hold on, and returns whether the anchor covers it. */
  method CheckAnchor(anchor: Anchor, files: seq<LedgerFile>) returns (result: Result<bool, EvidenceError>)
    ensures result.Success? <==> AnchorHolds(anchor, AsRoot(files))
    ensures result.Success? ==> result.value == Covers(anchor, AsRoot(files))
  {
    var current: Root := map[];
    for n := 0 to |files|
      invariant current == AsRoot(files[..n])
    {
      assert files[..n + 1][..n] == files[..n];
      current := current[files[n].path := files[n].records];
    }
    assert files[..|files|] == files;
    var covered: set<(string, nat)> := {};
    for n := 0 to |anchor.ledgers|
      invariant forall e :: e in anchor.ledgers[..n] ==> EntryHolds(e, current)
      invariant covered == set e | e in anchor.ledgers[..n] :: (e.path, e.records)
    {
      var entry := anchor.ledgers[n];
      assert entry in anchor.ledgers;
      if entry.path !in current {
        return Failure(MissingLedger);
      }
      var records := current[entry.path];
      if |records| < entry.records {
        return Failure(TailDeleted);
      }
      if entry.records > 0 && records[entry.records - 1].recordHash != entry.head {
        return Failure(HeadChanged);
      }
      assert anchor.ledgers[..n + 1] == anchor.ledgers[..n] + [entry];
      covered := covered + {(entry.path, entry.records)};
    }
    assert anchor.ledgers[..|anchor.ledgers|] == anchor.ledgers;
    return Success(covered == set p | p in current :: (p, |current[p]|));
  }

  // ----- The anchor theorem -----

  /** Every ledger of `before` is still there, and its records are an unchanged prefix. */
  ghost predicate IsExtension(before: Root, after: Root) {
    forall p :: p in before ==> p in after && before[p] <= after[p]
  }

  /** Two different signed contents with one hash: a collision of SHA-256 over canonical JSON. */
  ghost predicate Collide(c: Codec, s: Signed, t: Signed) {
    s != t && HashOf(c, s) == HashOf(c, t)
  }

  ghost predicate HoldsCollision(c: Codec, a: seq<Record>, b: seq<Record>) {
    exists i :: 0 <= i < |a| && i < |b| && Collide(c, a[i].signed, b[i].signed)
  }

  /** Backwards along `prev_hash`: chains that agree on the hash at one position agree on every record up to it,
      unless two of their records collide. */
  lemma {:induction false} SameHashSamePrefix(c: Codec, a: seq<Record>, b: seq<Record>, n: nat)
    requires Chained(c, a) && Chained(c, b)
    requires n <= |a| && n <= |b|
    requires n > 0 ==> a[n-1].recordHash == b[n-1].recordHash
    ensures a[..n] == b[..n] || HoldsCollision(c, a, b)
    decreases n
  {
    hide Chained, WellFormed;
    if n > 0 {
      ChainPrefix(c, a, n - 1);
      ChainPrefix(c, b, n - 1);
      if a[n-1].signed != b[n-1].signed {
        assert Collide(c, a[n-1].signed, b[n-1].signed);
      } else {
        assert a[n-1] == b[n-1];
        assert Head(a[..n-1]) == Head(b[..n-1]);
        SameHashSamePrefix(c, a, b, n - 1);
        assert a[..n] == a[..n-1] + [a[n-1]] && b[..n] == b[..n-1] + [b[n-1]];
      }
    }
  }

  ghost predicate RootsCollide(c: Codec, before: Root, after: Root) {
    exists p :: p in before && p in after && HoldsCollision(c, before[p], after[p])
  }

  lemma {:induction false} AsRootHas(files: seq<LedgerFile>, i: nat)
    requires Listed(files) && i < |files|
    ensures files[i].path in AsRoot(files) && AsRoot(files)[files[i].path] == files[i].records
    decreases |files|
  {
    var n := |files| - 1;
    if i < n {
      AsRootHas(files[..n], i);
      LessIsTotal(files[i].path, files[n].path);
    }
  }

  lemma {:induction false} AsRootNamesFiles(files: seq<LedgerFile>, p: string) returns (i: nat)
    requires p in AsRoot(files)
    ensures i < |files| && files[i].path == p
    decreases |files|
  {
    i := |files| - 1;
    if p != files[i].path {
      i := AsRootNamesFiles(files[..i], p);
    }
  }

  /** The anchor records this root: one entry a ledger, with its length and head. */
  ghost predicate Anchors(a: Anchor, root: Root) {
    && (forall e :: e in a.ledgers ==>
          e.path in root && e.records == |root[e.path]| && e.head == Head(root[e.path]))
    && (forall p :: p in root ==> exists e :: e in a.ledgers && e.path == p)
  }

  lemma DocumentAnchors(files: seq<LedgerFile>, reviewersSha256: string, anchoredAt: string)
    requires Listed(files)
    ensures Anchors(AnchorDocument(files, reviewersSha256, anchoredAt), AsRoot(files))
  {
    var anchor := AnchorDocument(files, reviewersSha256, anchoredAt);
    forall e | e in anchor.ledgers
      ensures e.path in AsRoot(files) && e.records == |AsRoot(files)[e.path]| && e.head == Head(AsRoot(files)[e.path])
    {
      var i :| 0 <= i < |files| && anchor.ledgers[i] == e;
      AsRootHas(files, i);
    }
    forall p | p in AsRoot(files) ensures exists e :: e in anchor.ledgers && e.path == p {
      var i := AsRootNamesFiles(files, p);
      assert anchor.ledgers[i] in anchor.ledgers;
    }
  }

  function PathsNamed(a: Anchor): (paths: seq<string>)
    ensures |paths| == |a.ledgers| && forall i :: 0 <= i < |paths| ==> paths[i] == a.ledgers[i].path
  {
    seq(|a.ledgers|, i requires 0 <= i < |a.ledgers| => a.ledgers[i].path)
  }

  lemma PathsNamedAre(a: Anchor, root: Root)
    requires Anchors(a, root) && ValidAnchor(a)
    ensures Sorting.Ascends(Less, PathsNamed(a)) && forall p :: p in PathsNamed(a) <==> p in root
  {
    hide Less, ValidEntry, CanonicalTime.IsLedgerTimestamp, IsHex;
    forall p | p in root ensures p in PathsNamed(a) {
      var e :| e in a.ledgers && e.path == p;
      var i :| 0 <= i < |a.ledgers| && a.ledgers[i] == e;
      assert PathsNamed(a)[i] == p;
    }
    forall p | p in PathsNamed(a) ensures p in root {
      var i :| 0 <= i < |PathsNamed(a)| && PathsNamed(a)[i] == p;
      assert a.ledgers[i] in a.ledgers;
    }
  }

  /** One root has one anchor document, up to its time and its reviewer set: the valid ones list the same entries in one order. */
  lemma OneAnchorPerRoot(a: Anchor, b: Anchor, root: Root)
    requires Anchors(a, root) && ValidAnchor(a) && Anchors(b, root) && ValidAnchor(b)
    ensures a.ledgers == b.ledgers
  {
    hide Less, ValidEntry, ValidAnchor, PathsNamed;
    PathsNamedAre(a, root);
    PathsNamedAre(b, root);
    Sorting.LessIsStrictOrder();
    Sorting.AscendingIsUnique(Less, PathsNamed(a), PathsNamed(b));
    forall i | 0 <= i < |a.ledgers| ensures a.ledgers[i] == b.ledgers[i] {
      assert PathsNamed(a)[i] == PathsNamed(b)[i];
      assert a.ledgers[i] in a.ledgers && b.ledgers[i] in b.ledgers;
    }
  }

  lemma ExtensionHolds(a: Anchor, before: Root, now: Root)
    requires Anchors(a, before) && IsExtension(before, now)
    ensures AnchorHolds(a, now)
  {
    forall e | e in a.ledgers ensures EntryHolds(e, now) {
      assert before[e.path] <= now[e.path];
    }
  }

  lemma HoldingExtends(c: Codec, a: Anchor, before: Root, now: Root)
    requires Anchors(a, before) && Sound(c, before) && Sound(c, now) && AnchorHolds(a, now)
    ensures IsExtension(before, now) || RootsCollide(c, before, now)
  {
    hide Chained;
    forall p | p in before && !RootsCollide(c, before, now) ensures p in now && before[p] <= now[p] {
      var e :| e in a.ledgers && e.path == p;
      assert EntryHolds(e, now);
      var n := |before[p]|;
      SameHashSamePrefix(c, before[p], now[p], n);
      assert before[p][..n] == before[p];
    }
  }

  lemma CoveringIsEqual(a: Anchor, before: Root, now: Root)
    requires Anchors(a, before) && IsExtension(before, now) && Covers(a, now)
    ensures before == now
  {
    var named := set e | e in a.ledgers :: (e.path, e.records);
    forall p | p in now ensures p in before && before[p] == now[p] {
      assert (p, |now[p]|) in named;
      var e :| e in a.ledgers && (e.path, e.records) == (p, |now[p]|);
      assert before[p] <= now[p] && |before[p]| == |now[p]|;
    }
    assert before.Keys == now.Keys;
  }

  lemma EqualIsCovered(a: Anchor, root: Root)
    requires Anchors(a, root)
    ensures Covers(a, root)
  {
    var named := set e | e in a.ledgers :: (e.path, e.records);
    forall p | p in root ensures (p, |root[p]|) in named {
      var e :| e in a.ledgers && e.path == p;
      assert (e.path, e.records) in named;
    }
  }

  /** An anchor of one root holds on another exactly when the other still holds every anchored record unchanged,
      unless the two roots contain a hash collision. It covers the other exactly when nothing was added either. */
  lemma AnchorTheorem(c: Codec, files: seq<LedgerFile>, now: Root, reviewersSha256: string, anchoredAt: string)
    requires Listed(files) && Sound(c, AsRoot(files)) && Sound(c, now)
    requires !RootsCollide(c, AsRoot(files), now)
    ensures var anchor := AnchorDocument(files, reviewersSha256, anchoredAt);
            && (AnchorHolds(anchor, now) <==> IsExtension(AsRoot(files), now))
            && (AnchorHolds(anchor, now) && Covers(anchor, now) <==> AsRoot(files) == now)
  {
    hide Sound;
    var anchor := AnchorDocument(files, reviewersSha256, anchoredAt);
    var held := AsRoot(files);
    DocumentAnchors(files, reviewersSha256, anchoredAt);
    if AnchorHolds(anchor, now) {
      HoldingExtends(c, anchor, held, now);
      if Covers(anchor, now) {
        CoveringIsEqual(anchor, held, now);
      }
    }
    if IsExtension(held, now) {
      ExtensionHolds(anchor, held, now);
    }
    if held == now {
      EqualIsCovered(anchor, now);
    }
  }

  /** An injective hash has no collisions, so there the theorem is unconditional. */
  lemma InjectiveHashNeverCollides(c: Codec, before: Root, after: Root)
    requires FaithfulJson(c) && forall x, y :: c.sha256(x) == c.sha256(y) ==> x == y
    ensures !RootsCollide(c, before, after)
  {
    forall s: Signed, t: Signed ensures !Collide(c, s, t) {
    }
  }
}
