/** The audit's reading of the ledger root: one file at a time and without the lock, while appends go on. */
module EvidenceReader {
  import opened Prelude
  import opened EvidenceRecord
  import opened EvidenceLedger
  import opened EvidenceRoot
  import opened EvidenceAnchor
  import opened EvidenceAppend

  /** Every ledger of a root is still to be read, or was read with that root's records as its first. */
  ghost predicate SeesSince(reader: Reader, start: Root) {
    forall p :: p in start ==>
      p in reader.todo || (p in reader.collected && start[p] <= reader.collected[p])
  }

  lemma BeginSees(c: Codec, s: State, rid: nat)
    requires Inv(c, s) && Enabled(c, s, BeginAnchor(rid))
    ensures var t := Next(c, s, BeginAnchor(rid)); rid in t.readers && SeesSince(t.readers[rid], s.store.root)
  {
    hide ReadersHold, AnchorsHold, ProcHolds, MutualExclusion, Sound, RootSigned, RootRetained, Render;
  }

  /** Only the reader's own reads change it. */
  lemma OtherStepsKeepReader(c: Codec, s: State, e: Event, rid: nat)
    requires Enabled(c, s, e) && rid in s.readers && !(e.ReadFile? && e.rid == rid)
    ensures rid in Next(c, s, e).readers && Next(c, s, e).readers[rid] == s.readers[rid]
  {
    hide Accepts, Reads, Anchors, ValidAnchor, Grows, Chained, Render, Line, WithRecord, WithLedger;
  }

  /** A file read at any moment holds at least what was committed at an earlier one. */
  lemma ReadSees(c: Codec, s: State, rid: nat, path: string, records: seq<Record>, start: Root)
    requires FaithfulJson(c) && Inv(c, s) && Enabled(c, s, ReadFile(rid, path, records))
    requires SeesSince(s.readers[rid], start) && IsExtension(start, s.store.root)
    ensures rid in Next(c, s, ReadFile(rid, path, records)).readers
    ensures SeesSince(Next(c, s, ReadFile(rid, path, records)).readers[rid], start)
  {
    hide AnchorsHold, ProcHolds, MutualExclusion, Sound, RootSigned, RootRetained, Render, Chained, FaithfulJson;
    var store := s.store;
    assert ReaderHolds(s.readers[rid], store.root);
    FileIsCommitted(c, store.disk, store.root, store.tear, path, records);
  }

  lemma {:induction false} ReaderSeesSince(c: Codec, states: seq<State>, events: seq<Event>, i: nat, j: nat, rid: nat)
    requires FaithfulJson(c) && IsRun(c, states, events) && i < j < |states| && events[i] == BeginAnchor(rid)
    ensures rid in states[j].readers && SeesSince(states[j].readers[rid], states[i].store.root)
    decreases j
  {
    hide Inv, Init, Enabled, FaithfulJson, SeesSince, Next;
    RunHolds(c, states, events, j - 1);
    if j == i + 1 {
      BeginSees(c, states[i], rid);
    } else {
      ReaderSeesSince(c, states, events, i, j - 1, rid);
      RunGrows(c, states, events, i, j - 1);
      var e := events[j - 1];
      if e.ReadFile? && e.rid == rid {
        ReadSees(c, states[j - 1], rid, e.path, e.records, states[i].store.root);
      } else {
        OtherStepsKeepReader(c, states[j - 1], e, rid);
      }
    }
  }

  /** An anchor issued before a reader begins holds on what it has collected when it is done, whatever was appended, crashed or
      anchored in between. */
  lemma EarlierAnchorsHoldOnAReading(
    c: Codec, states: seq<State>, events: seq<Event>, i: nat, j: nat, rid: nat, a: Anchor)
    requires FaithfulJson(c) && IsRun(c, states, events) && i < j < |states| && events[i] == BeginAnchor(rid)
    requires a in states[i].anchors
    ensures rid in states[j].readers
    ensures states[j].readers[rid].todo == {} ==> AnchorHolds(a, states[j].readers[rid].collected)
  {
    RunHolds(c, states, events, i);
    ReaderSeesSince(c, states, events, i, j, rid);
    hide IsRun, StoreHolds, ReadersHold, ProcHolds, MutualExclusion, FaithfulJson, AnchorHolds;
    if states[j].readers[rid].todo == {} {
      AnchorSurvives(a, states[i].store.root, states[j].readers[rid].collected);
    }
  }

  /** Of two readings of one growing root, an anchor made from one holds on the other exactly when the other has all of it. */
  lemma AnchorOfAnotherReading(a: Anchor, anchored: Root, collected: Root, root: Root)
    requires Anchors(a, anchored) && IsExtension(anchored, root) && IsExtension(collected, root)
    ensures AnchorHolds(a, collected) <==> IsExtension(anchored, collected)
  {
    if AnchorHolds(a, collected) {
      forall p | p in anchored ensures p in collected && anchored[p] <= collected[p] {
        var e :| e in a.ledgers && e.path == p;
        assert EntryHolds(e, collected);
        assert anchored[p] <= root[p] && collected[p] <= root[p];
      }
    }
    if IsExtension(anchored, collected) {
      forall e | e in a.ledgers ensures EntryHolds(e, collected) {
        assert anchored[e.path] <= collected[e.path];
      }
    }
  }

  /** Any anchor of a run, whenever it was issued: what another reader has collected meets it exactly when nothing anchored is
      missing there. EvidenceRefusal has a run in which something is. */
  lemma AnchorHoldsOnAReadingExactlyWhen(
    c: Codec, states: seq<State>, events: seq<Event>, k: nat, j: nat, other: nat, rid: nat, a: Anchor)
    requires FaithfulJson(c) && IsRun(c, states, events) && k < j < |states| && events[k] == IssueAnchor(other, a)
    requires rid in states[j].readers
    ensures other in states[k].readers
    ensures AnchorHolds(a, states[j].readers[rid].collected)
            <==> IsExtension(states[k].readers[other].collected, states[j].readers[rid].collected)
  {
    hide Init, Next, StoreHolds, ProcHolds, MutualExclusion, AnchorsHold, FaithfulJson, IsExtension, AnchorHolds, Anchors,
         ValidAnchor;
    RunHolds(c, states, events, k);
    RunHolds(c, states, events, j);
    RunGrows(c, states, events, k, j);
    assert ReaderHolds(states[k].readers[other], states[k].store.root);
    assert ReaderHolds(states[j].readers[rid], states[j].store.root);
    var anchored, root := states[k].readers[other].collected, states[j].store.root;
    ExtensionIsTransitive(anchored, states[k].store.root, root);
    AnchorOfAnotherReading(a, anchored, states[j].readers[rid].collected, root);
  }
}
