/** Gate counts, and what no ledger can do to them: count bad news as progress, or one artifact twice. */
module EvidenceGates {
  import opened Prelude
  import opened EvidenceRecord
  import opened EvidenceCounting
  import Sorting

  /** A counted customer's kind; no other evidence has one. */
  function KindOf(r: Record): Option<CustomerKind> {
    if r.Type() == PayingCustomer && r.signed.body.attributes.CustomerFacts?
    then Some(r.signed.body.attributes.customerKind) else None
  }

  /** The attribute shape `validate_record` enforces on customers. */
  predicate WellTyped(records: seq<Record>) {
    forall r :: r in records && r.Type() == PayingCustomer ==> r.signed.body.attributes.CustomerFacts?
  }

  /** The subjects of one type and kind that an acceptance counts. */
  function Counted(a: Audit, records: seq<Record>, t: EvidenceType, kind: Option<CustomerKind>): set<string> {
    set r | r in records && Counts(a, records, r) && r.Type() == t && KindOf(r) == kind :: r.SubjectId()
  }

  function CountedSubjects(a: Audit, records: seq<Record>): set<(EvidenceType, string)> {
    set r | r in records && Counts(a, records, r) :: r.Subject()
  }

  // ----- Counts only fall under bad news -----

  ghost predicate Includes(more: seq<Record>, fewer: seq<Record>) {
    forall r :: r in fewer ==> r in more
  }

  /** Adding records never removes a reason. */
  lemma ReasonsOnlyGrow(a: Audit, fewer: seq<Record>, more: seq<Record>, r: Record, reason: Reason)
    requires Includes(more, fewer) && Holds(a, fewer, r, reason)
    ensures Holds(a, more, r, reason)
  {
  }

  /** Adding rejections, however many and wherever, never adds a counted subject to any gate. */
  lemma RejectionsNeverRaiseCounts(
      a: Audit, fewer: seq<Record>, more: seq<Record>, t: EvidenceType, kind: Option<CustomerKind>)
    requires Includes(more, fewer)
    requires forall r :: r in more && r !in fewer ==> r.signed.body.outcome == Rejected
    ensures Counted(a, more, t, kind) <= Counted(a, fewer, t, kind)
    ensures |Counted(a, more, t, kind)| <= |Counted(a, fewer, t, kind)|
  {
    forall r | r in more && Counts(a, more, r) ensures r in fewer && Counts(a, fewer, r) {
      forall reason ensures !Holds(a, fewer, r, reason) {
        if Holds(a, fewer, r, reason) {
          ReasonsOnlyGrow(a, fewer, more, r, reason);
        }
      }
    }
    SubsetSize(Counted(a, more, t, kind), Counted(a, fewer, t, kind));
  }

  /** Keys may only be marked revoked. */
  ghost predicate OnlyRevokes(before: Reviewers, after: Reviewers) {
    && before.Keys == after.Keys
    && forall k :: k in before ==> after[k] == before[k] || after[k] == before[k].(status := Revoked)
  }

  /** Revoking keys never adds a counted subject, and never makes a signed root unsigned. */
  lemma RevocationNeverRaisesCounts(
      a: Audit, revoked: Reviewers, records: seq<Record>, t: EvidenceType, kind: Option<CustomerKind>)
    requires OnlyRevokes(a.trusted, revoked)
    ensures Counted(a.(trusted := revoked), records, t, kind) <= Counted(a, records, t, kind)
    ensures |Counted(a.(trusted := revoked), records, t, kind)| <= |Counted(a, records, t, kind)|
    ensures forall r :: r in records ==>
      (SignerStatus(a.c, a.trusted, r).Some? <==> SignerStatus(a.c, revoked, r).Some?)
  {
    var b := a.(trusted := revoked);
    forall r | r in records && Counts(b, records, r) ensures Counts(a, records, r) {
      forall reason ensures !Holds(a, records, r, reason) {
        assert !Holds(b, records, r, reason);
      }
    }
    SubsetSize(Counted(b, records, t, kind), Counted(a, records, t, kind));
  }

  /** A disqualified subject is counted in no extension, under no reviewer set, artifact root or release. */
  lemma DisqualificationIsFinal(a: Audit, fewer: seq<Record>, more: seq<Record>, subject: (EvidenceType, string))
    requires Includes(more, fewer) && SubjectDisqualified(fewer, subject)
    ensures subject !in CountedSubjects(a, more)
  {
    var bad :| bad in fewer && bad.Subject() == subject && IsDisqualifying(bad);
    forall r | r in more && r.Subject() == subject ensures !Counts(a, more, r) {
      assert bad in more;
      if r.IsAcceptance() {
        assert Holds(a, more, r, Disqualified);
      }
    }
  }

  // ----- No double counting -----

  /** Two counted records of different subjects never cite one artifact, and no counted record an unretained one. */
  lemma CountedArtifactsDiffer(a: Audit, records: seq<Record>, r: Record, q: Record)
    requires r in records && q in records && Counts(a, records, r) && Counts(a, records, q)
    ensures r.signed.body.artifact in a.retained
    ensures r.Subject() != q.Subject() ==> r.signed.body.artifact != q.signed.body.artifact
  {
    assert !Holds(a, records, r, ArtifactUnverified) && !Holds(a, records, r, ArtifactShared);
  }

  /** Two counted customers never share a subscription, and one counted customer has one kind. */
  lemma CountedCustomersDiffer(a: Audit, records: seq<Record>, r: Record, q: Record)
    requires r in records && q in records && Counts(a, records, r) && Counts(a, records, q)
    requires IsAcceptedCustomer(r) && IsAcceptedCustomer(q)
    ensures r.SubjectId() != q.SubjectId() ==> Subscription(r) != Subscription(q)
    ensures r.SubjectId() == q.SubjectId() ==> Kind(r) == Kind(q)
  {
    assert !Holds(a, records, r, SubscriptionShared) && !Holds(a, records, r, CustomerKindConflict);
  }

  /** An injection bounds the size of its domain. */
  lemma {:induction false} Injection<A, B>(f: map<A, B>, target: set<B>)
    requires forall x :: x in f ==> f[x] in target
    requires forall x, y :: x in f && y in f && f[x] == f[y] ==> x == y
    ensures |f.Keys| <= |target|
    decreases |f.Keys|
  {
    if f.Keys != {} {
      var x :| x in f.Keys;
      var rest := f - {x};
      assert rest.Keys == f.Keys - {x};
      Injection(rest, target - {f[x]});
    }
  }

  ghost function ArtifactFor(a: Audit, records: seq<Record>, subject: (EvidenceType, string)): (artifact: string)
    requires subject in CountedSubjects(a, records)
    ensures exists r :: r in records && Counts(a, records, r) && r.Subject() == subject
                        && r.signed.body.artifact == artifact
  {
    var r :| r in records && Counts(a, records, r) && r.Subject() == subject;
    r.signed.body.artifact
  }

  /** All gates together count at most as many subjects as there are retained artifacts. */
  lemma NoMoreSubjectsThanArtifacts(a: Audit, records: seq<Record>)
    ensures |CountedSubjects(a, records)| <= |a.retained|
  {
    var f := map s | s in CountedSubjects(a, records) :: ArtifactFor(a, records, s);
    forall s | s in f ensures f[s] in a.retained {
      var r :| r in records && Counts(a, records, r) && r.Subject() == s && r.signed.body.artifact == f[s];
      CountedArtifactsDiffer(a, records, r, r);
    }
    forall s, u | s in f && u in f && f[s] == f[u] ensures s == u {
      var r :| r in records && Counts(a, records, r) && r.Subject() == s && r.signed.body.artifact == f[s];
      var q :| q in records && Counts(a, records, q) && q.Subject() == u && q.signed.body.artifact == f[u];
      CountedArtifactsDiffer(a, records, r, q);
    }
    Injection(f, a.retained);
    assert f.Keys == CountedSubjects(a, records);
  }

  /** `sum(len(subjects) for subjects in by_kind.values())`. */
  function Observed(a: Audit, records: seq<Record>, t: EvidenceType): nat {
    |Counted(a, records, t, None)| + |Counted(a, records, t, Some(Professional))|
      + |Counted(a, records, t, Some(Organisation))|
  }

  function CountedOfType(a: Audit, records: seq<Record>, t: EvidenceType): set<string> {
    set r | r in records && Counts(a, records, r) && r.Type() == t :: r.SubjectId()
  }

  lemma NoCustomerHasTwoKinds(a: Audit, records: seq<Record>, t: EvidenceType)
    ensures Counted(a, records, t, Some(Professional)) !! Counted(a, records, t, Some(Organisation))
  {
    forall r, q | r in records && Counts(a, records, r) && KindOf(r) == Some(Professional)
                  && q in records && Counts(a, records, q) && KindOf(q) == Some(Organisation)
      ensures r.SubjectId() != q.SubjectId()
    {
      CountedCustomersDiffer(a, records, r, q);
    }
    hide Counts;
  }

  lemma KindsCoverTheType(a: Audit, records: seq<Record>, t: EvidenceType)
    requires WellTyped(records)
    ensures CountedOfType(a, records, t)
         == Counted(a, records, t, None) + Counted(a, records, t, Some(Professional))
            + Counted(a, records, t, Some(Organisation))
    ensures Counted(a, records, t, None) == {}
         || (Counted(a, records, t, Some(Professional)) == {} && Counted(a, records, t, Some(Organisation)) == {})
  {
    hide Counts;
    forall r ensures KindOf(r) == None || KindOf(r) == Some(Professional) || KindOf(r) == Some(Organisation) {
      if KindOf(r).Some? {
        match KindOf(r).value {
          case Professional =>
          case Organisation =>
        }
      }
    }
    assert forall r :: r in records && r.Type() == t ==> (KindOf(r) == None <==> t != PayingCustomer);
  }

  /** A gate's total over kinds is its number of distinct counted subjects: no customer is counted under two kinds. */
  lemma ObservedCountsSubjectsOnce(a: Audit, records: seq<Record>, t: EvidenceType)
    requires WellTyped(records)
    ensures Observed(a, records, t) == |CountedOfType(a, records, t)|
  {
    NoCustomerHasTwoKinds(a, records, t);
    KindsCoverTheType(a, records, t);
    ThreeParts(Counted(a, records, t, None), Counted(a, records, t, Some(Professional)),
               Counted(a, records, t, Some(Organisation)));
    hide Counted, CountedOfType, WellTyped, Counts;
  }

  lemma ThreeParts(none: set<string>, prof: set<string>, org: set<string>)
    requires prof !! org && (none == {} || (prof == {} && org == {}))
    ensures |none + prof + org| == |none| + |prof| + |org|
  {
    DisjointSize(prof, org);
    if none == {} {
      assert none + prof + org == prof + org;
    } else {
      assert none + prof + org == none;
    }
  }

  function Tagged(t: EvidenceType, subjects: set<string>): set<(EvidenceType, string)> {
    set s | s in subjects :: (t, s)
  }

  lemma {:induction false} TaggedSize(t: EvidenceType, subjects: set<string>)
    ensures |Tagged(t, subjects)| == |subjects|
    decreases |subjects|
  {
    if subjects != {} {
      var s :| s in subjects;
      TaggedSize(t, subjects - {s});
      assert Tagged(t, subjects) == Tagged(t, subjects - {s}) + {(t, s)};
    }
  }

  /** The counted subjects of one type, each with its type. */
  function CountedTagged(a: Audit, records: seq<Record>, t: EvidenceType): set<(EvidenceType, string)> {
    Tagged(t, CountedOfType(a, records, t))
  }

  lemma CountedTaggedIsPart(a: Audit, records: seq<Record>, t: EvidenceType)
    requires WellTyped(records)
    ensures |CountedTagged(a, records, t)| == Observed(a, records, t)
    ensures CountedTagged(a, records, t) <= CountedSubjects(a, records)
    ensures forall x :: x in CountedTagged(a, records, t) ==> x.0 == t
  {
    ObservedCountsSubjectsOnce(a, records, t);
    TaggedSize(t, CountedOfType(a, records, t));
    hide Counts, Observed;
  }

  /** The observed counts of all five gates add up to at most the number of retained artifacts. */
  lemma GateTotalsWithinArtifacts(a: Audit, records: seq<Record>)
    requires WellTyped(records)
    ensures Observed(a, records, PaperSession) + Observed(a, records, LiveSession) + Observed(a, records, DesignPartner)
            + Observed(a, records, BrokerOptions) + Observed(a, records, PayingCustomer) <= |a.retained|
  {
    CountedTaggedIsPart(a, records, PaperSession);
    CountedTaggedIsPart(a, records, LiveSession);
    CountedTaggedIsPart(a, records, DesignPartner);
    CountedTaggedIsPart(a, records, BrokerOptions);
    CountedTaggedIsPart(a, records, PayingCustomer);
    NoMoreSubjectsThanArtifacts(a, records);
    FiveParts(
      CountedTagged(a, records, PaperSession), CountedTagged(a, records, LiveSession),
      CountedTagged(a, records, DesignPartner), CountedTagged(a, records, BrokerOptions),
      CountedTagged(a, records, PayingCustomer), CountedSubjects(a, records));
    hide CountedTagged, CountedSubjects, Observed, WellTyped, Counts;
  }

  lemma DisjointSize<T>(s: set<T>, t: set<T>)
    requires s !! t
    ensures |s + t| == |s| + |t|
  {
  }

  lemma FiveParts(
      p: set<(EvidenceType, string)>, l: set<(EvidenceType, string)>, d: set<(EvidenceType, string)>,
      b: set<(EvidenceType, string)>, y: set<(EvidenceType, string)>, whole: set<(EvidenceType, string)>)
    requires p <= whole && l <= whole && d <= whole && b <= whole && y <= whole
    requires forall x :: x in p ==> x.0 == PaperSession
    requires forall x :: x in l ==> x.0 == LiveSession
    requires forall x :: x in d ==> x.0 == DesignPartner
    requires forall x :: x in b ==> x.0 == BrokerOptions
    requires forall x :: x in y ==> x.0 == PayingCustomer
    ensures |p| + |l| + |d| + |b| + |y| <= |whole|
  {
    DisjointSize(p, l);
    DisjointSize(p + l, d);
    DisjointSize(p + l + d, b);
    DisjointSize(p + l + d + b, y);
    SubsetSize(p + l + d + b + y, whole);
  }

  // ----- The status report -----

  datatype Row = Row(kind: Option<CustomerKind>, observed: nat, required: nat, remaining: nat, eligible: bool)

  datatype Gate = Gate(
    observed: nat, required: nat, remaining: nat, eligible: bool, rows: seq<Row>, rejectedRecords: nat,
    disqualifiedSubjects: nat)

  datatype Status = Status(
    verifiedRecords: nat, countedRecords: nat, allGatesEligible: bool, gates: map<EvidenceType, Gate>,
    notCounted: map<Reason, seq<string>>)

  /** The gates: the alternatives that satisfy each, and how many distinct subjects each needs. */
  function Alternatives(t: EvidenceType): (r: seq<(Option<CustomerKind>, nat)>)
    ensures r != []
  {
    match t
    case PaperSession => [(None, 30)]
    case LiveSession => [(None, 60)]
    case DesignPartner => [(None, 5)]
    case BrokerOptions => [(None, 1)]
    case PayingCustomer => [(Some(Professional), 10), (Some(Organisation), 3)]
  }

  function MakeRow(kind: Option<CustomerKind>, required: nat, observed: nat): Row {
    Row(kind, observed, required, if required > observed then required - observed else 0, observed >= required)
  }

  /** `min(rows, key=(remaining, required))`: the first of the least rows. */
  function Nearest(rows: seq<Row>): (r: Row)
    requires rows != []
    ensures r in rows
    ensures forall q :: q in rows ==> r.remaining < q.remaining || (r.remaining == q.remaining && r.required <= q.required)
  {
    var last := rows[|rows|-1];
    if |rows| == 1 then last
    else
      var best := Nearest(rows[..|rows|-1]);
      if last.remaining < best.remaining || (last.remaining == best.remaining && last.required < best.required)
      then last else best
  }

  /** How many subjects of each kind are counted. */
  datatype Sizes = Sizes(none: nat, professional: nat, organisation: nat)
  {
    function Of(kind: Option<CustomerKind>): nat {
      match kind
      case None => none
      case Some(Professional) => professional
      case Some(Organisation) => organisation
    }
  }

  /** What a gate reports, from the counts of its kinds. */
  function MakeGate(t: EvidenceType, sizes: Sizes, rejected: nat, disqualified: nat): Gate {
    var rows := seq(|Alternatives(t)|, i requires 0 <= i < |Alternatives(t)| =>
                      MakeRow(Alternatives(t)[i].0, Alternatives(t)[i].1, sizes.Of(Alternatives(t)[i].0)));
    Gate(sizes.none + sizes.professional + sizes.organisation,
         Nearest(rows).required, Nearest(rows).remaining, exists row :: row in rows && row.eligible,
         rows, rejected, disqualified)
  }

  /** A gate has nothing remaining exactly when it is eligible, which is when some alternative is met. */
  lemma RemainingIsZeroExactlyWhenEligible(t: EvidenceType, sizes: Sizes, rejected: nat, disq: nat)
    ensures var g := MakeGate(t, sizes, rejected, disq);
            && (g.remaining == 0 <==> g.eligible)
            && (g.eligible <==> exists i :: 0 <= i < |Alternatives(t)| && sizes.Of(Alternatives(t)[i].0) >= Alternatives(t)[i].1)
  {
    var g := MakeGate(t, sizes, rejected, disq);
    assert forall i :: 0 <= i < |g.rows| ==> g.rows[i] in g.rows;
    if row :| row in g.rows && row.eligible {
      assert row.remaining == 0;
    }
  }

  predicate VerdictCounts(v: Verdict) {
    v.record.IsAcceptance() && v.reasons == []
  }

  /** Subjects of one type and kind among the counting verdicts. */
  function Subjects(verdicts: seq<Verdict>, t: EvidenceType, kind: Option<CustomerKind>): set<string> {
    set v | v in verdicts && VerdictCounts(v) && v.record.Type() == t && KindOf(v.record) == kind :: v.record.SubjectId()
  }

  function DisqualifiedSubjects(verdicts: seq<Verdict>, t: EvidenceType): set<string> {
    set v | v in verdicts && v.record.Type() == t && IsDisqualifying(v.record) :: v.record.SubjectId()
  }

  /** How many elements satisfy a test, counting repetitions. */
  function CountIf<T>(s: seq<T>, test: T -> bool): nat {
    if s == [] then 0 else CountIf(s[..|s|-1], test) + (if test(s[|s|-1]) then 1 else 0)
  }

  function IsRejectedOf(t: EvidenceType): Verdict -> bool {
    (v: Verdict) => v.record.signed.body.outcome == Rejected && v.record.Type() == t
  }

  function SizesOf(verdicts: seq<Verdict>, t: EvidenceType): Sizes {
    Sizes(|Subjects(verdicts, t, None)|, |Subjects(verdicts, t, Some(Professional))|,
          |Subjects(verdicts, t, Some(Organisation))|)
  }

  function Report(verdicts: seq<Verdict>, t: EvidenceType): Gate {
    MakeGate(t, SizesOf(verdicts, t), CountIf(verdicts, IsRejectedOf(t)),
             |DisqualifiedSubjects(verdicts, t)|)
  }

  /** An id, once for each time a verdict gives the reason. */
  function Mentions(reasons: seq<Reason>, reason: Reason, id: string): seq<string> {
    if reasons == [] then []
    else Mentions(reasons[..|reasons|-1], reason, id) + (if reasons[|reasons|-1] == reason then [id] else [])
  }

  /** The ids of the acceptances that a reason keeps from counting, in the order of the verdicts. */
  function IdsNotCounted(verdicts: seq<Verdict>, reason: Reason): seq<string> {
    if verdicts == [] then []
    else
      var v := verdicts[|verdicts|-1];
      IdsNotCounted(verdicts[..|verdicts|-1], reason) + Mentions(v.reasons, reason, v.record.Id())
  }

  lemma CountNext<T>(s: seq<T>, x: T, test: T -> bool)
    ensures CountIf(s + [x], test) == CountIf(s, test) + (if test(x) then 1 else 0)
  {
    assert (s + [x])[..|s|] == s;
  }

  /** The dicts `status` fills while it walks the verdicts. */
  datatype Tally = Tally(
    byKind: map<(EvidenceType, Option<CustomerKind>), set<string>>,
    disqualified: map<EvidenceType, set<string>>,
    rejected: map<EvidenceType, nat>,
    notCounted: map<Reason, seq<string>>,
    counted: nat)

  function Get<K, V>(m: map<K, V>, key: K, default: V): V {
    if key in m then m[key] else default
  }

  ghost predicate Tallies(verdicts: seq<Verdict>, y: Tally) {
    && (forall t, kind :: Get(y.byKind, (t, kind), {}) == Subjects(verdicts, t, kind))
    && (forall t :: Get(y.disqualified, t, {}) == DisqualifiedSubjects(verdicts, t))
    && (forall t :: Get(y.rejected, t, 0) == CountIf(verdicts, IsRejectedOf(t)))
    && NotCountedTallies(verdicts, y.notCounted)
    && y.counted == CountIf(verdicts, VerdictCounts)
  }

  ghost predicate NotCountedTallies(verdicts: seq<Verdict>, notCounted: map<Reason, seq<string>>) {
    forall reason :: Get(notCounted, reason, []) == IdsNotCounted(verdicts, reason)
                     && (reason in notCounted <==> IdsNotCounted(verdicts, reason) != [])
  }

  /** `not_counted[reason].append(id)` for every reason of a verdict. */
  function AddReasons(notCounted: map<Reason, seq<string>>, reasons: seq<Reason>, id: string): map<Reason, seq<string>> {
    if reasons == [] then notCounted
    else
      var before, last := AddReasons(notCounted, reasons[..|reasons|-1], id), reasons[|reasons|-1];
      before[last := Get(before, last, []) + [id]]
  }

  lemma {:induction false} AddReasonsAdds(notCounted: map<Reason, seq<string>>, reasons: seq<Reason>, id: string, reason: Reason)
    requires reason in notCounted <==> Get(notCounted, reason, []) != []
    ensures var after := AddReasons(notCounted, reasons, id);
            && Get(after, reason, []) == Get(notCounted, reason, []) + Mentions(reasons, reason, id)
            && (reason in after <==> Get(after, reason, []) != [])
  {
    if reasons != [] {
      AddReasonsAdds(notCounted, reasons[..|reasons|-1], id, reason);
    }
  }

  lemma TallyNotCounted(verdicts: seq<Verdict>, v: Verdict, y: Tally)
    requires NotCountedTallies(verdicts, y.notCounted)
    ensures NotCountedTallies(verdicts + [v], TallyNext(y, v).notCounted)
  {
    hide IsDisqualifying, KindOf, AddReasons, Mentions, Get;
    assert (verdicts + [v])[..|verdicts|] == verdicts;
    forall reason
      ensures Get(TallyNext(y, v).notCounted, reason, []) == IdsNotCounted(verdicts + [v], reason)
      ensures reason in TallyNext(y, v).notCounted <==> IdsNotCounted(verdicts + [v], reason) != []
    {
      AddReasonsAdds(y.notCounted, v.reasons, v.record.Id(), reason);
    }
  }

  function TallyNext(y: Tally, v: Verdict): Tally {
    var t := v.record.Type();
    var y0 := y.(notCounted := AddReasons(y.notCounted, v.reasons, v.record.Id()));
    var y1 := if IsDisqualifying(v.record) then y0.(disqualified := AddTo(y.disqualified, t, v.record.SubjectId())) else y0;
    if v.record.signed.body.outcome == Rejected then y1.(rejected := y1.rejected[t := Get(y1.rejected, t, 0) + 1])
    else if v.reasons == [] then
      y1.(byKind := AddTo(y1.byKind, (t, KindOf(v.record)), v.record.SubjectId()), counted := y1.counted + 1)
    else y1
  }

  lemma SubjectsAppend(verdicts: seq<Verdict>, v: Verdict, t: EvidenceType, kind: Option<CustomerKind>)
    ensures Subjects(verdicts + [v], t, kind) == Subjects(verdicts, t, kind)
      + if VerdictCounts(v) && v.record.Type() == t && KindOf(v.record) == kind then {v.record.SubjectId()} else {}
  {
    hide VerdictCounts, KindOf;
    assert forall w :: w in verdicts + [v] <==> w in verdicts || w == v;
  }

  lemma DisqualifiedAppend(verdicts: seq<Verdict>, v: Verdict, t: EvidenceType)
    ensures DisqualifiedSubjects(verdicts + [v], t) == DisqualifiedSubjects(verdicts, t)
      + if v.record.Type() == t && IsDisqualifying(v.record) then {v.record.SubjectId()} else {}
  {
    hide IsDisqualifying;
    assert forall w :: w in verdicts + [v] <==> w in verdicts || w == v;
  }

  lemma TallySubjects(verdicts: seq<Verdict>, v: Verdict, y: Tally, t: EvidenceType, kind: Option<CustomerKind>)
    requires Get(y.byKind, (t, kind), {}) == Subjects(verdicts, t, kind)
    ensures Get(TallyNext(y, v).byKind, (t, kind), {}) == Subjects(verdicts + [v], t, kind)
  {
    hide IsDisqualifying, Subjects, KindOf;
    SubjectsAppend(verdicts, v, t, kind);
  }

  lemma TallyDisqualified(verdicts: seq<Verdict>, v: Verdict, y: Tally, t: EvidenceType)
    requires Get(y.disqualified, t, {}) == DisqualifiedSubjects(verdicts, t)
    ensures Get(TallyNext(y, v).disqualified, t, {}) == DisqualifiedSubjects(verdicts + [v], t)
  {
    hide IsDisqualifying, DisqualifiedSubjects, KindOf;
    DisqualifiedAppend(verdicts, v, t);
  }

  lemma TallyStep(verdicts: seq<Verdict>, v: Verdict, y: Tally)
    requires Tallies(verdicts, y)
    ensures Tallies(verdicts + [v], TallyNext(y, v))
  {
    forall t, kind ensures Get(TallyNext(y, v).byKind, (t, kind), {}) == Subjects(verdicts + [v], t, kind) {
      TallySubjects(verdicts, v, y, t, kind);
    }
    forall t ensures Get(TallyNext(y, v).disqualified, t, {}) == DisqualifiedSubjects(verdicts + [v], t) {
      TallyDisqualified(verdicts, v, y, t);
    }
    forall t ensures Get(TallyNext(y, v).rejected, t, 0) == CountIf(verdicts + [v], IsRejectedOf(t)) {
      TallyRejected(verdicts, v, y, t);
    }
    TallyNotCounted(verdicts, v, y);
    TallyCounted(verdicts, v, y);
    hide NotCountedTallies, Subjects, DisqualifiedSubjects, TallyNext, CountIf, Get;
  }

  lemma TallyRejected(verdicts: seq<Verdict>, v: Verdict, y: Tally, t: EvidenceType)
    requires Get(y.rejected, t, 0) == CountIf(verdicts, IsRejectedOf(t))
    ensures Get(TallyNext(y, v).rejected, t, 0) == CountIf(verdicts + [v], IsRejectedOf(t))
  {
    CountNext(verdicts, v, IsRejectedOf(t));
    hide IsDisqualifying, KindOf, CountIf;
  }

  lemma TallyCounted(verdicts: seq<Verdict>, v: Verdict, y: Tally)
    requires y.counted == CountIf(verdicts, VerdictCounts)
    ensures TallyNext(y, v).counted == CountIf(verdicts + [v], VerdictCounts)
  {
    CountNext(verdicts, v, VerdictCounts);
    hide IsDisqualifying, KindOf, CountIf;
  }

  method TallyAll(verdicts: seq<Verdict>) returns (y: Tally)
    ensures Tallies(verdicts, y)
  {
    y := Tally(map[], map[], map[], map[], 0);
    assert verdicts[..0] == [];
    assert Tallies([], y);
    hide Tallies, TallyNext;
    for n := 0 to |verdicts|
      invariant Tallies(verdicts[..n], y)
    {
      TallyStep(verdicts[..n], verdicts[n], y);
      assert verdicts[..n + 1] == verdicts[..n] + [verdicts[n]];
      y := TallyNext(y, verdicts[n]);
    }
    assert verdicts[..|verdicts|] == verdicts;
  }

  /** `status`: the walk over the verdicts, and each gate from what it collected. */
  method StatusOf(verdicts: seq<Verdict>) returns (s: Status)
    ensures forall t: EvidenceType :: t in s.gates && s.gates[t] == Report(verdicts, t)
    ensures s.verifiedRecords == |verdicts| && s.countedRecords == CountIf(verdicts, VerdictCounts)
    ensures s.allGatesEligible <==> forall t: EvidenceType :: Report(verdicts, t).eligible
    ensures forall reason ::
              && (reason in s.notCounted <==> IdsNotCounted(verdicts, reason) != [])
              && (reason in s.notCounted ==> s.notCounted[reason] == Sorting.StableSort(Less, IdsNotCounted(verdicts, reason)))
  {
    var y := TallyAll(verdicts);
    hide Subjects, DisqualifiedSubjects, MakeGate, CountIf, IdsNotCounted;
    var gates := map t: EvidenceType | true ::
      MakeGate(t, Sizes(|Get(y.byKind, (t, None), {})|, |Get(y.byKind, (t, Some(Professional)), {})|,
                        |Get(y.byKind, (t, Some(Organisation)), {})|),
               Get(y.rejected, t, 0), |Get(y.disqualified, t, {})|);
    var notCounted := map reason | reason in y.notCounted :: Sorting.StableSort(Less, y.notCounted[reason]);
    s := Status(|verdicts|, y.counted, forall t :: t in gates ==> gates[t].eligible, gates, notCounted);
  }

  // ----- From records to counts, whatever their order -----

  ghost predicate JudgedInOrder(a: Audit, records: seq<Record>, verdicts: seq<Verdict>) {
    && |verdicts| == |records|
    && forall i :: 0 <= i < |records| ==> verdicts[i].record == records[i] && Judged(a, records, verdicts[i])
  }

  lemma NoReasonsMeansCounts(a: Audit, records: seq<Record>, v: Verdict)
    requires Judged(a, records, v)
    ensures VerdictCounts(v) <==> Counts(a, records, v.record)
  {
    JudgedMeans(a, records, v);
    hide Judged, Holds;
    if v.reasons != [] {
      assert v.reasons[0] in v.reasons;
    }
  }

  /** The subjects a status counts are the subjects the records count. */
  lemma SubjectsAreCounted(
      a: Audit, records: seq<Record>, verdicts: seq<Verdict>, t: EvidenceType, kind: Option<CustomerKind>)
    requires JudgedInOrder(a, records, verdicts)
    ensures Subjects(verdicts, t, kind) == Counted(a, records, t, kind)
  {
    hide Counts, Judged, VerdictCounts, KindOf;
    forall v | v in verdicts ensures v.record in records && (VerdictCounts(v) <==> Counts(a, records, v.record)) {
      var i :| 0 <= i < |verdicts| && verdicts[i] == v;
      assert verdicts[i].record == records[i] && Judged(a, records, verdicts[i]);
      NoReasonsMeansCounts(a, records, v);
    }
    forall r | r in records ensures exists v :: v in verdicts && v.record == r {
      var i :| 0 <= i < |records| && records[i] == r;
      assert verdicts[i] in verdicts;
    }
  }

  lemma {:induction false} CountIfOfPermutation<T>(s: seq<T>, u: seq<T>, test: T -> bool)
    requires multiset(s) == multiset(u)
    ensures CountIf(s, test) == CountIf(u, test)
    decreases |s|
  {
    if s == [] {
      assert |multiset(u)| == 0;
    } else {
      var x := s[|s|-1];
      assert s == s[..|s|-1] + [x];
      assert x in multiset(u);
      var k :| 0 <= k < |u| && u[k] == x;
      var rest := u[..k] + u[k + 1..];
      assert u == u[..k] + [x] + u[k + 1..];
      assert multiset(rest) == multiset(u) - multiset{x} by {
        assert multiset(u) == multiset(u[..k]) + multiset{x} + multiset(u[k + 1..]);
      }
      assert multiset(s[..|s|-1]) == multiset(s) - multiset{x};
      CountIfOfPermutation(s[..|s|-1], rest, test);
      CountIfSkips(u[..k], x, u[k + 1..], test);
    }
  }

  lemma {:induction false} CountIfSkips<T>(a: seq<T>, x: T, b: seq<T>, test: T -> bool)
    ensures CountIf(a + [x] + b, test) == CountIf(a + b, test) + (if test(x) then 1 else 0)
    decreases |b|
  {
    if b == [] {
      assert a + [x] + b == a + [x] && a + b == a;
      CountNext(a, x, test);
    } else {
      var front, y := b[..|b|-1], b[|b|-1];
      CountIfSkips(a, x, front, test);
      assert a + [x] + b == a + [x] + front + [y] && a + b == a + front + [y];
      CountNext(a + [x] + front, y, test);
      CountNext(a + front, y, test);
    }
  }

  lemma {:induction false} CountIfAlong<T, U>(s: seq<T>, u: seq<U>, test: T -> bool, same: U -> bool)
    requires |s| == |u| && forall i :: 0 <= i < |s| ==> test(s[i]) == same(u[i])
    ensures CountIf(s, test) == CountIf(u, same)
    decreases |s|
  {
    if s != [] {
      CountIfAlong(s[..|s|-1], u[..|u|-1], test, same);
    }
  }

  lemma CountsOfPermutedVerdicts(
      a: Audit, records: seq<Record>, shuffled: seq<Record>, v: seq<Verdict>, w: seq<Verdict>, test: Record -> bool,
      ofVerdict: Verdict -> bool)
    requires multiset(records) == multiset(shuffled)
    requires |v| == |records| && forall i :: 0 <= i < |v| ==> ofVerdict(v[i]) == test(records[i])
    requires |w| == |shuffled| && forall i :: 0 <= i < |w| ==> ofVerdict(w[i]) == test(shuffled[i])
    ensures CountIf(v, ofVerdict) == CountIf(w, ofVerdict)
  {
    CountIfAlong(v, records, ofVerdict, test);
    CountIfAlong(w, shuffled, ofVerdict, test);
    CountIfOfPermutation(records, shuffled, test);
  }

  lemma OrderNeverMattersToReasons(a: Audit, records: seq<Record>, shuffled: seq<Record>, r: Record)
    requires multiset(records) == multiset(shuffled)
    ensures r in records <==> r in shuffled
    ensures Counts(a, records, r) <==> Counts(a, shuffled, r)
  {
    assert forall q :: q in records <==> q in multiset(records);
    assert forall q :: q in shuffled <==> q in multiset(shuffled);
    forall reason ensures Holds(a, records, r, reason) <==> Holds(a, shuffled, r, reason) {
      if Holds(a, records, r, reason) {
        ReasonsOnlyGrow(a, records, shuffled, r, reason);
      }
      if Holds(a, shuffled, r, reason) {
        ReasonsOnlyGrow(a, shuffled, records, r, reason);
      }
    }
  }

  /** No gate depends on the order of the records or on how they are spread over ledgers. */
  lemma OrderNeverMatters(
      a: Audit, records: seq<Record>, shuffled: seq<Record>, v: seq<Verdict>, w: seq<Verdict>, t: EvidenceType)
    requires multiset(records) == multiset(shuffled)
    requires JudgedInOrder(a, records, v) && JudgedInOrder(a, shuffled, w)
    ensures Report(v, t) == Report(w, t)
    ensures CountIf(v, VerdictCounts) == CountIf(w, VerdictCounts)
  {
    CountedIsPermuted(a, records, shuffled, v, w, t, None);
    CountedIsPermuted(a, records, shuffled, v, w, t, Some(Professional));
    CountedIsPermuted(a, records, shuffled, v, w, t, Some(Organisation));
    DisqualifiedIsPermuted(a, records, shuffled, v, w, t);
    RejectedIsPermuted(a, records, shuffled, v, w, t);
    CountingIsPermuted(a, records, shuffled, v, w);
    hide JudgedInOrder, Subjects, DisqualifiedSubjects, CountIf, MakeGate;
  }

  lemma CountedIsPermuted(
      a: Audit, records: seq<Record>, shuffled: seq<Record>, v: seq<Verdict>, w: seq<Verdict>, t: EvidenceType,
      kind: Option<CustomerKind>)
    requires multiset(records) == multiset(shuffled)
    requires JudgedInOrder(a, records, v) && JudgedInOrder(a, shuffled, w)
    ensures Subjects(v, t, kind) == Subjects(w, t, kind)
  {
    SubjectsAreCounted(a, records, v, t, kind);
    SubjectsAreCounted(a, shuffled, w, t, kind);
    hide JudgedInOrder, Counts, Subjects, KindOf;
    forall r ensures (r in records <==> r in shuffled) && (Counts(a, records, r) <==> Counts(a, shuffled, r)) {
      OrderNeverMattersToReasons(a, records, shuffled, r);
    }
  }

  lemma DisqualifiedIsPermuted(
      a: Audit, records: seq<Record>, shuffled: seq<Record>, v: seq<Verdict>, w: seq<Verdict>, t: EvidenceType)
    requires multiset(records) == multiset(shuffled)
    requires JudgedInOrder(a, records, v) && JudgedInOrder(a, shuffled, w)
    ensures DisqualifiedSubjects(v, t) == DisqualifiedSubjects(w, t)
  {
    hide JudgedInOrder, IsDisqualifying, DisqualifiedSubjects;
    DisqualifiedOfRecords(a, records, v, t);
    DisqualifiedOfRecords(a, shuffled, w, t);
    assert forall q :: q in records <==> q in multiset(records);
    assert forall q :: q in shuffled <==> q in multiset(shuffled);
  }

  lemma DisqualifiedOfRecords(a: Audit, records: seq<Record>, verdicts: seq<Verdict>, t: EvidenceType)
    requires JudgedInOrder(a, records, verdicts)
    ensures DisqualifiedSubjects(verdicts, t)
         == set r | r in records && r.Type() == t && IsDisqualifying(r) :: r.SubjectId()
  {
    hide IsDisqualifying, Judged;
    forall v | v in verdicts ensures v.record in records {
      var i :| 0 <= i < |verdicts| && verdicts[i] == v;
      assert verdicts[i].record == records[i];
    }
    forall r | r in records ensures exists v :: v in verdicts && v.record == r {
      var i :| 0 <= i < |records| && records[i] == r;
      assert verdicts[i] in verdicts;
    }
  }

  lemma RejectedIsPermuted(
      a: Audit, records: seq<Record>, shuffled: seq<Record>, v: seq<Verdict>, w: seq<Verdict>, t: EvidenceType)
    requires multiset(records) == multiset(shuffled)
    requires JudgedInOrder(a, records, v) && JudgedInOrder(a, shuffled, w)
    ensures CountIf(v, IsRejectedOf(t)) == CountIf(w, IsRejectedOf(t))
  {
    hide Judged;
    CountsOfPermutedVerdicts(a, records, shuffled, v, w,
      (r: Record) => r.signed.body.outcome == Rejected && r.Type() == t, IsRejectedOf(t));
  }

  lemma CountingIsPermuted(a: Audit, records: seq<Record>, shuffled: seq<Record>, v: seq<Verdict>, w: seq<Verdict>)
    requires multiset(records) == multiset(shuffled)
    requires JudgedInOrder(a, records, v) && JudgedInOrder(a, shuffled, w)
    ensures CountIf(v, VerdictCounts) == CountIf(w, VerdictCounts)
  {
    hide Judged, Counts, VerdictCounts;
    forall i | 0 <= i < |v| ensures VerdictCounts(v[i]) <==> Counts(a, records, records[i]) {
      NoReasonsMeansCounts(a, records, v[i]);
    }
    forall i | 0 <= i < |w| ensures VerdictCounts(w[i]) <==> Counts(a, records, shuffled[i]) {
      NoReasonsMeansCounts(a, shuffled, w[i]);
      OrderNeverMattersToReasons(a, records, shuffled, shuffled[i]);
    }
    CountsOfPermutedVerdicts(a, records, shuffled, v, w, (r: Record) => Counts(a, records, r), VerdictCounts);
  }

  // ----- The lists of what does not count -----

  function FilteredIds(records: seq<Record>, test: Record -> bool): seq<string> {
    if records == [] then []
    else FilteredIds(records[..|records|-1], test) + (if test(records[|records|-1]) then [records[|records|-1].Id()] else [])
  }

  lemma {:induction false} MentionsOnce(reasons: seq<Reason>, reason: Reason, id: string)
    requires NoneTwice(reasons)
    ensures Mentions(reasons, reason, id) == if reason in reasons then [id] else []
  {
    if reasons != [] {
      var front, last := reasons[..|reasons|-1], reasons[|reasons|-1];
      assert reasons == front + [last];
      MentionsOnce(front, reason, id);
      assert last !in front;
    }
  }

  /** A reason lists, once each, the ids of the records for which it holds. */
  lemma {:induction false} IdsNotCountedAre(
      a: Audit, records: seq<Record>, part: seq<Record>, verdicts: seq<Verdict>, reason: Reason)
    requires |part| == |verdicts|
    requires forall i :: 0 <= i < |part| ==> verdicts[i].record == part[i] && Judged(a, records, verdicts[i])
    ensures IdsNotCounted(verdicts, reason) == FilteredIds(part, (r: Record) => Holds(a, records, r, reason))
    decreases |part|
  {
    hide Holds, Judged, Mentions;
    if part != [] {
      IdsNotCountedAre(a, records, part[..|part|-1], verdicts[..|verdicts|-1], reason);
      var v := verdicts[|verdicts|-1];
      JudgedMeans(a, records, v);
      MentionsOnce(v.reasons, reason, v.record.Id());
    }
  }

  lemma {:induction false} FilteredIdsSkip(a: seq<Record>, x: Record, b: seq<Record>, test: Record -> bool)
    ensures multiset(FilteredIds(a + [x] + b, test))
            == multiset(FilteredIds(a + b, test)) + multiset(if test(x) then [x.Id()] else [])
    decreases |b|
  {
    hide FilteredIds;
    if b == [] {
      assert a + [x] + b == a + [x] && a + b == a;
      FilteredIdsMore(a, x, test);
    } else {
      var front, y := b[..|b|-1], b[|b|-1];
      FilteredIdsSkip(a, x, front, test);
      assert a + [x] + b == a + [x] + front + [y] && a + b == a + front + [y];
      FilteredIdsMore(a + [x] + front, y, test);
      FilteredIdsMore(a + front, y, test);
    }
  }

  lemma FilteredIdsMore(s: seq<Record>, x: Record, test: Record -> bool)
    ensures FilteredIds(s + [x], test) == FilteredIds(s, test) + (if test(x) then [x.Id()] else [])
    ensures multiset(FilteredIds(s + [x], test)) == multiset(FilteredIds(s, test)) + multiset(if test(x) then [x.Id()] else [])
  {
    assert (s + [x])[..|s|] == s;
  }

  lemma {:induction false} FilteredIdsOfPermutation(s: seq<Record>, u: seq<Record>, test: Record -> bool)
    requires multiset(s) == multiset(u)
    ensures multiset(FilteredIds(s, test)) == multiset(FilteredIds(u, test))
    decreases |s|
  {
    if s == [] {
      assert |multiset(u)| == 0;
    } else {
      var x := s[|s|-1];
      assert s == s[..|s|-1] + [x];
      assert x in multiset(u);
      var k :| 0 <= k < |u| && u[k] == x;
      var rest := u[..k] + u[k + 1..];
      assert u == u[..k] + [x] + u[k + 1..];
      assert multiset(rest) == multiset(u) - multiset{x} by {
        assert multiset(u) == multiset(u[..k]) + multiset{x} + multiset(u[k + 1..]);
      }
      FilteredIdsOfPermutation(s[..|s|-1], rest, test);
      FilteredIdsSkip(u[..k], x, u[k + 1..], test);
    }
  }

  /** The sorted list under each reason does not depend on the order of the records either. */
  lemma NotCountedNeverDependsOnOrder(
      a: Audit, records: seq<Record>, shuffled: seq<Record>, v: seq<Verdict>, w: seq<Verdict>, reason: Reason)
    requires multiset(records) == multiset(shuffled)
    requires JudgedInOrder(a, records, v) && JudgedInOrder(a, shuffled, w)
    ensures Sorting.StableSort(Less, IdsNotCounted(v, reason)) == Sorting.StableSort(Less, IdsNotCounted(w, reason))
  {
    hide Holds, Judged, IdsNotCounted;
    var test := (r: Record) => Holds(a, records, r, reason);
    var other := (r: Record) => Holds(a, shuffled, r, reason);
    IdsNotCountedAre(a, records, records, v, reason);
    IdsNotCountedAre(a, shuffled, shuffled, w, reason);
    forall r ensures test(r) == other(r) {
      SameReasonsEitherWay(a, records, shuffled, r, reason);
    }
    SameFilter(shuffled, test, other);
    FilteredIdsOfPermutation(records, shuffled, test);
    Sorting.LessIsStrictOrder();
    Sorting.SortForgetsOrder(Less, IdsNotCounted(v, reason), IdsNotCounted(w, reason));
  }

  lemma SameReasonsEitherWay(a: Audit, records: seq<Record>, shuffled: seq<Record>, r: Record, reason: Reason)
    requires multiset(records) == multiset(shuffled)
    ensures Holds(a, records, r, reason) <==> Holds(a, shuffled, r, reason)
  {
    hide Holds;
    assert forall q :: q in records <==> q in multiset(records);
    assert forall q :: q in shuffled <==> q in multiset(shuffled);
    if Holds(a, records, r, reason) {
      ReasonsOnlyGrow(a, records, shuffled, r, reason);
    }
    if Holds(a, shuffled, r, reason) {
      ReasonsOnlyGrow(a, shuffled, records, r, reason);
    }
  }

  lemma {:induction false} SameFilter(records: seq<Record>, test: Record -> bool, other: Record -> bool)
    requires forall r :: test(r) == other(r)
    ensures FilteredIds(records, test) == FilteredIds(records, other)
  {
    if records != [] {
      SameFilter(records[..|records|-1], test, other);
    }
  }
}
