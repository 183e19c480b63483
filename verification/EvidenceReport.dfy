/** What a status report says of the records it was made from, number by number. */
module EvidenceReport {
  import opened Prelude
  import opened EvidenceRecord
  import opened EvidenceCounting
  import opened EvidenceGates
  import Sorting

  /** A row: the distinct counted subjects of its kind, how many there must be, and how many are missing. */
  ghost predicate RowIsTrue(a: Audit, records: seq<Record>, t: EvidenceType, kind: Option<CustomerKind>, required: nat, row: Row) {
    && row.kind == kind && row.required == required && row.observed == |Counted(a, records, t, kind)|
    && row.observed + row.remaining >= required && (row.remaining > 0 ==> row.observed + row.remaining == required)
    && (row.eligible <==> row.observed >= required)
  }

  /** The row nearest to being met: the fewest missing, and among those the fewest required. */
  ghost predicate IsNearest(rows: seq<Row>, row: Row) {
    && row in rows
    && forall other :: other in rows ==>
         row.remaining < other.remaining || (row.remaining == other.remaining && row.required <= other.required)
  }

  predicate IsRejected(r: Record, t: EvidenceType) {
    r.signed.body.outcome == Rejected && r.Type() == t
  }

  /** The subjects a rejection or a failing acceptance disqualified. */
  function DisqualifiedOfType(records: seq<Record>, t: EvidenceType): set<string> {
    set r | r in records && r.Type() == t && IsDisqualifying(r) :: r.SubjectId()
  }

  ghost predicate GateIsTrue(a: Audit, records: seq<Record>, t: EvidenceType, g: Gate) {
    && |g.rows| == |Alternatives(t)|
    && (forall i :: 0 <= i < |g.rows| ==> RowIsTrue(a, records, t, Alternatives(t)[i].0, Alternatives(t)[i].1, g.rows[i]))
    && (exists row :: IsNearest(g.rows, row) && g.required == row.required && g.remaining == row.remaining)
    && (g.eligible <==> exists i :: 0 <= i < |Alternatives(t)|
                          && |Counted(a, records, t, Alternatives(t)[i].0)| >= Alternatives(t)[i].1)
    && g.observed == |CountedOfType(a, records, t)|
    && g.rejectedRecords == CountIf(records, (r: Record) => IsRejected(r, t))
    && g.disqualifiedSubjects == |DisqualifiedOfType(records, t)|
  }

  /** Thirty paper sessions, sixty live ones, five design partners, one broker, and ten professionals or three organisations. */
  ghost predicate EveryGateIsMet(a: Audit, records: seq<Record>) {
    && |CountedOfType(a, records, PaperSession)| >= 30
    && |CountedOfType(a, records, LiveSession)| >= 60
    && |CountedOfType(a, records, DesignPartner)| >= 5
    && |CountedOfType(a, records, BrokerOptions)| >= 1
    && (|CountedCustomers(a, records, Professional)| >= 10 || |CountedCustomers(a, records, Organisation)| >= 3)
  }

  /** The customers that count and say that they are of this kind. */
  function CountedCustomers(a: Audit, records: seq<Record>, kind: CustomerKind): set<string> {
    set r | r in records && Counts(a, records, r) && IsCustomer(r) && r.signed.body.attributes.customerKind == kind :: r.SubjectId()
  }

  lemma CustomersByKind(a: Audit, records: seq<Record>, kind: CustomerKind)
    ensures Counted(a, records, PayingCustomer, Some(kind)) == CountedCustomers(a, records, kind)
  {
    hide Holds;
  }

  /** Only customers have a kind. */
  lemma OthersByType(a: Audit, records: seq<Record>, t: EvidenceType)
    requires t != PayingCustomer
    ensures Counted(a, records, t, None) == CountedOfType(a, records, t)
  {
    hide Counts;
  }

  /** Under each reason that keeps some acceptance from counting, the sorted ids of those records, as often as they are there. */
  ghost predicate NotCountedIsTrue(a: Audit, records: seq<Record>, notCounted: map<Reason, seq<string>>, reason: Reason) {
    && (reason in notCounted <==> exists r :: r in records && Holds(a, records, r, reason))
    && (reason in notCounted ==>
          && Sorting.IsOrdered(Less, notCounted[reason])
          && multiset(notCounted[reason]) == multiset(FilteredIds(records, (r: Record) => Holds(a, records, r, reason))))
  }

  ghost predicate StatusIsTrue(a: Audit, records: seq<Record>, s: Status) {
    && s.verifiedRecords == |records|
    && s.countedRecords == CountIf(records, (r: Record) => Counts(a, records, r))
    && (s.allGatesEligible <==> EveryGateIsMet(a, records))
    && (forall t: EvidenceType :: t in s.gates && GateIsTrue(a, records, t, s.gates[t]))
    && (forall reason :: NotCountedIsTrue(a, records, s.notCounted, reason))
  }

  // ----- The gates -----

  lemma MadeRow(a: Audit, records: seq<Record>, t: EvidenceType, kind: Option<CustomerKind>, required: nat)
    ensures RowIsTrue(a, records, t, kind, required, MakeRow(kind, required, |Counted(a, records, t, kind)|))
  {
    hide Counted;
  }

  lemma SizesAreCounts(a: Audit, records: seq<Record>, verdicts: seq<Verdict>, t: EvidenceType, kind: Option<CustomerKind>)
    requires JudgedInOrder(a, records, verdicts)
    ensures SizesOf(verdicts, t).Of(kind) == |Counted(a, records, t, kind)|
  {
    hide Subjects, Counted, JudgedInOrder;
    match kind {
      case None =>
        SubjectsAreCounted(a, records, verdicts, t, None);
      case Some(Professional) =>
        SubjectsAreCounted(a, records, verdicts, t, Some(Professional));
      case Some(Organisation) =>
        SubjectsAreCounted(a, records, verdicts, t, Some(Organisation));
    }
  }

  lemma NearestIs(rows: seq<Row>)
    requires rows != []
    ensures IsNearest(rows, Nearest(rows))
  {
  }

  lemma MadeGate(t: EvidenceType, sizes: Sizes, rejected: nat, disqualified: nat)
    ensures var g := MakeGate(t, sizes, rejected, disqualified);
            && |g.rows| == |Alternatives(t)|
            && (forall i :: 0 <= i < |g.rows| ==>
                  g.rows[i] == MakeRow(Alternatives(t)[i].0, Alternatives(t)[i].1, sizes.Of(Alternatives(t)[i].0)))
            && (exists row :: IsNearest(g.rows, row) && g.required == row.required && g.remaining == row.remaining)
            && g.rejectedRecords == rejected && g.disqualifiedSubjects == disqualified
            && g.observed == sizes.Of(None) + sizes.Of(Some(Professional)) + sizes.Of(Some(Organisation))
  {
    hide Alternatives, MakeRow, Nearest;
    NearestIs(MakeGate(t, sizes, rejected, disqualified).rows);
  }

  lemma RejectedOfRecords(a: Audit, records: seq<Record>, verdicts: seq<Verdict>, t: EvidenceType)
    requires JudgedInOrder(a, records, verdicts)
    ensures CountIf(verdicts, IsRejectedOf(t)) == CountIf(records, (r: Record) => IsRejected(r, t))
  {
    hide Judged;
    CountIfAlong(verdicts, records, IsRejectedOf(t), (r: Record) => IsRejected(r, t));
  }

  lemma CountedOfRecords(a: Audit, records: seq<Record>, verdicts: seq<Verdict>)
    requires JudgedInOrder(a, records, verdicts)
    ensures CountIf(verdicts, VerdictCounts) == CountIf(records, (r: Record) => Counts(a, records, r))
  {
    hide Judged, VerdictCounts, Counts;
    forall i | 0 <= i < |verdicts| ensures VerdictCounts(verdicts[i]) <==> Counts(a, records, records[i]) {
      NoReasonsMeansCounts(a, records, verdicts[i]);
    }
    CountIfAlong(verdicts, records, VerdictCounts, (r: Record) => Counts(a, records, r));
  }

  /** A gate reported from the verdicts is true of the records. */
  lemma ReportIsTrue(a: Audit, records: seq<Record>, verdicts: seq<Verdict>, t: EvidenceType)
    requires WellTyped(records) && JudgedInOrder(a, records, verdicts)
    ensures GateIsTrue(a, records, t, Report(verdicts, t))
  {
    hide WellTyped, JudgedInOrder, SizesOf, Counted, CountedOfType, MakeGate, MakeRow, CountIf, DisqualifiedSubjects, RowIsTrue,
         Alternatives, IsNearest, IsDisqualifying, IsRejectedOf, IsRejected, DisqualifiedOfType, Sizes.Of;
    var sizes := SizesOf(verdicts, t);
    var rejected, disqualified := CountIf(verdicts, IsRejectedOf(t)), |DisqualifiedSubjects(verdicts, t)|;
    MadeGate(t, sizes, rejected, disqualified);
    RemainingIsZeroExactlyWhenEligible(t, sizes, rejected, disqualified);
    forall kind ensures sizes.Of(kind) == |Counted(a, records, t, kind)| {
      SizesAreCounts(a, records, verdicts, t, kind);
    }
    ObservedIs(a, records, t);
    RejectedOfRecords(a, records, verdicts, t);
    DisqualifiedIs(a, records, verdicts, t);
    var g := Report(verdicts, t);
    forall i | 0 <= i < |g.rows| ensures RowIsTrue(a, records, t, Alternatives(t)[i].0, Alternatives(t)[i].1, g.rows[i]) {
      MadeRow(a, records, t, Alternatives(t)[i].0, Alternatives(t)[i].1);
    }
  }

  lemma ObservedIs(a: Audit, records: seq<Record>, t: EvidenceType)
    requires WellTyped(records)
    ensures |Counted(a, records, t, None)| + |Counted(a, records, t, Some(Professional))|
            + |Counted(a, records, t, Some(Organisation))| == |CountedOfType(a, records, t)|
  {
    hide WellTyped, Counted, CountedOfType;
    ObservedCountsSubjectsOnce(a, records, t);
  }

  lemma DisqualifiedIs(a: Audit, records: seq<Record>, verdicts: seq<Verdict>, t: EvidenceType)
    requires JudgedInOrder(a, records, verdicts)
    ensures DisqualifiedSubjects(verdicts, t) == DisqualifiedOfType(records, t)
  {
    hide JudgedInOrder, DisqualifiedSubjects, IsDisqualifying;
    DisqualifiedOfRecords(a, records, verdicts, t);
  }

  /** The gates are what they are in the release criteria. */
  lemma GatesInNumbers(a: Audit, records: seq<Record>, gates: map<EvidenceType, Gate>)
    requires forall t: EvidenceType :: t in gates && GateIsTrue(a, records, t, gates[t])
    ensures (forall t: EvidenceType :: gates[t].eligible) <==> EveryGateIsMet(a, records)
  {
    hide GateIsTrue, EveryGateIsMet, Counted, CountedOfType, CountedCustomers;
    OthersByType(a, records, PaperSession);
    OthersByType(a, records, LiveSession);
    OthersByType(a, records, DesignPartner);
    OthersByType(a, records, BrokerOptions);
    CustomersByKind(a, records, Professional);
    CustomersByKind(a, records, Organisation);
    OneNumber(a, records, PaperSession, gates[PaperSession], None, 30);
    OneNumber(a, records, LiveSession, gates[LiveSession], None, 60);
    OneNumber(a, records, DesignPartner, gates[DesignPartner], None, 5);
    OneNumber(a, records, BrokerOptions, gates[BrokerOptions], None, 1);
    EitherNumber(a, records, gates[PayingCustomer]);
    Five(a, records, gates);
  }

  lemma OneNumber(a: Audit, records: seq<Record>, t: EvidenceType, g: Gate, kind: Option<CustomerKind>, n: nat)
    requires GateIsTrue(a, records, t, g) && Alternatives(t) == [(kind, n)]
    ensures g.eligible <==> |Counted(a, records, t, kind)| >= n
  {
    hide Counted, CountedOfType, RowIsTrue, IsNearest, CountIf;
    assert Alternatives(t)[0] == (kind, n);
  }

  lemma EitherNumber(a: Audit, records: seq<Record>, g: Gate)
    requires GateIsTrue(a, records, PayingCustomer, g)
    ensures g.eligible <==>
              || |Counted(a, records, PayingCustomer, Some(Professional))| >= 10
              || |Counted(a, records, PayingCustomer, Some(Organisation))| >= 3
  {
    hide Counted, CountedOfType, RowIsTrue, IsNearest, CountIf;
    var all := Alternatives(PayingCustomer);
    assert all[0] == (Some(Professional), 10) && all[1] == (Some(Organisation), 3) && |all| == 2;
  }

  lemma Five(a: Audit, records: seq<Record>, gates: map<EvidenceType, Gate>)
    requires forall t: EvidenceType :: t in gates
    requires gates[PaperSession].eligible <==> |CountedOfType(a, records, PaperSession)| >= 30
    requires gates[LiveSession].eligible <==> |CountedOfType(a, records, LiveSession)| >= 60
    requires gates[DesignPartner].eligible <==> |CountedOfType(a, records, DesignPartner)| >= 5
    requires gates[BrokerOptions].eligible <==> |CountedOfType(a, records, BrokerOptions)| >= 1
    requires gates[PayingCustomer].eligible <==>
               |CountedCustomers(a, records, Professional)| >= 10 || |CountedCustomers(a, records, Organisation)| >= 3
    ensures (forall t: EvidenceType :: gates[t].eligible) <==> EveryGateIsMet(a, records)
  {
    hide CountedOfType, CountedCustomers;
    if EveryGateIsMet(a, records) {
      forall t: EvidenceType ensures gates[t].eligible {
        FiveTypes(t);
      }
    }
  }

  lemma FiveTypes(t: EvidenceType)
    ensures t == PaperSession || t == LiveSession || t == DesignPartner || t == BrokerOptions || t == PayingCustomer
  {
    match t {
      case PaperSession =>
      case LiveSession =>
      case DesignPartner =>
      case BrokerOptions =>
      case PayingCustomer =>
    }
  }

  // ----- The lists -----

  lemma {:induction false} FilteredIdsAreSome(records: seq<Record>, test: Record -> bool)
    ensures FilteredIds(records, test) != [] <==> exists r :: r in records && test(r)
  {
    if records != [] {
      var front, last := records[..|records| - 1], records[|records| - 1];
      FilteredIdsAreSome(front, test);
      assert records == front + [last];
    }
  }

  lemma ListIsTrue(a: Audit, records: seq<Record>, verdicts: seq<Verdict>, notCounted: map<Reason, seq<string>>, reason: Reason)
    requires JudgedInOrder(a, records, verdicts)
    requires reason in notCounted <==> IdsNotCounted(verdicts, reason) != []
    requires reason in notCounted ==> notCounted[reason] == Sorting.StableSort(Less, IdsNotCounted(verdicts, reason))
    ensures NotCountedIsTrue(a, records, notCounted, reason)
  {
    hide Holds, Judged, IdsNotCounted, FilteredIds, Sorting.StableSort, Sorting.IsOrdered, Less;
    IdsNotCountedAre(a, records, records, verdicts, reason);
    SomeHold(a, records, reason);
    if reason in notCounted {
      IdsAreSorted(IdsNotCounted(verdicts, reason));
    }
  }

  lemma SomeHold(a: Audit, records: seq<Record>, reason: Reason)
    ensures FilteredIds(records, (r: Record) => Holds(a, records, r, reason)) != []
            <==> exists r :: r in records && Holds(a, records, r, reason)
  {
    hide Holds, FilteredIds;
    FilteredIdsAreSome(records, (r: Record) => Holds(a, records, r, reason));
  }

  lemma IdsAreSorted(ids: seq<string>)
    ensures Sorting.IsOrdered(Less, Sorting.StableSort(Less, ids)) && multiset(Sorting.StableSort(Less, ids)) == multiset(ids)
  {
    hide Less, Sorting.StableSort, Sorting.IsOrdered;
    Sorting.LessIsStrictOrder();
    Sorting.StableSortSorts(Less, ids);
  }

  /** The report `status` makes from the verdicts of the records is true of the records. */
  lemma StatusOfVerdicts(a: Audit, records: seq<Record>, verdicts: seq<Verdict>, s: Status)
    requires WellTyped(records) && JudgedInOrder(a, records, verdicts)
    requires forall t: EvidenceType :: t in s.gates && s.gates[t] == Report(verdicts, t)
    requires s.verifiedRecords == |verdicts| && s.countedRecords == CountIf(verdicts, VerdictCounts)
    requires s.allGatesEligible <==> forall t: EvidenceType :: Report(verdicts, t).eligible
    requires forall reason ::
              && (reason in s.notCounted <==> IdsNotCounted(verdicts, reason) != [])
              && (reason in s.notCounted ==> s.notCounted[reason] == Sorting.StableSort(Less, IdsNotCounted(verdicts, reason)))
    ensures StatusIsTrue(a, records, s)
  {
    hide Report, GateIsTrue, EveryGateIsMet, NotCountedIsTrue, IdsNotCounted, CountIf, WellTyped, Judged, Counts;
    forall t: EvidenceType ensures GateIsTrue(a, records, t, s.gates[t]) {
      ReportIsTrue(a, records, verdicts, t);
    }
    GatesInNumbers(a, records, s.gates);
    CountedOfRecords(a, records, verdicts);
    forall reason ensures NotCountedIsTrue(a, records, s.notCounted, reason) {
      ListIsTrue(a, records, verdicts, s.notCounted, reason);
    }
  }
}
