/** Which records count: signers, disqualification, shared artifacts and subscriptions, and the gate counts. */
module EvidenceCounting {
  import opened Prelude
  import opened EvidenceRecord

  /** What a verdict depends on besides the records: the reviewer set, the artifacts that are retained and hash to
      their names, and the release under audit. */
  datatype Audit = Audit(c: Codec, trusted: Reviewers, retained: set<string>, releaseId: string)

  datatype Reason =
    | ReviewerRevoked | ArtifactUnverified | OtherRelease | CriteriaNotMet | Disqualified | ArtifactShared
    | SubscriptionShared | CustomerKindConflict

  datatype Verdict = Verdict(record: Record, reasons: seq<Reason>)

  ghost predicate UniqueIds(records: seq<Record>) {
    forall i, j :: 0 <= i < j < |records| ==> records[i].Id() != records[j].Id()
  }

  // ----- Signers -----

  /** The status under an id in a dict built record by record: a later record replaces an earlier one. */
  function SignerById(a: Audit, records: seq<Record>, id: string): Option<KeyStatus>
    requires exists r :: r in records && r.Id() == id
  {
    var last := records[|records|-1];
    if last.Id() == id then SignerStatus(a.c, a.trusted, last)
    else
      assert records == records[..|records|-1] + [last];
      SignerById(a, records[..|records|-1], id)
  }

  /** `require_signed`: the status of the key that signed each record, by evidence id. */
  method RequireSigned(a: Audit, records: seq<Record>) returns (result: Result<map<string, KeyStatus>, EvidenceError>)
    ensures result.Success? <==>
      forall r :: r in records ==> SignerById(a, records, r.Id()).Some?
    ensures result.Success? ==>
      && result.value.Keys == (set r | r in records :: r.Id())
      && forall r :: r in records ==> result.value[r.Id()] == SignerById(a, records, r.Id()).value
  {
    var signers: map<string, Option<KeyStatus>> := map[];
    for n := 0 to |records|
      invariant signers.Keys == set r | r in records[..n] :: r.Id()
      invariant forall r :: r in records[..n] ==> signers[r.Id()] == SignerById(a, records[..n], r.Id())
    {
      var r := records[n];
      var seen := records[..n + 1];
      assert seen[..n] == records[..n] && seen == records[..n] + [r];
      signers := signers[r.Id() := SignerStatus(a.c, a.trusted, r)];
    }
    assert records[..|records|] == records;
    if exists id :: id in signers && signers[id].None? {
      return Failure(Unsigned);
    }
    return Success(map id | id in signers :: signers[id].value);
  }

  /** With unique ids, which a verified root has, the dict holds each record's own signer. */
  lemma {:induction false} UniqueIdsNameSigners(a: Audit, records: seq<Record>, r: Record)
    requires UniqueIds(records) && r in records
    ensures SignerById(a, records, r.Id()) == SignerStatus(a.c, a.trusted, r)
  {
    var last := records[|records|-1];
    var front := records[..|records|-1];
    assert records == front + [last];
    if r != last {
      assert r in front;
      UniqueIdsNameSigners(a, front, r);
    }
  }

  /** The last record of its id. */
  ghost predicate IsLastOfItsId(records: seq<Record>, i: nat) {
    i < |records| && forall j :: i < j < |records| ==> records[j].Id() != records[i].Id()
  }

  /** What the dict holds under an id is the status of the last record with it. */
  lemma {:induction false} LastOfItsIdIsNamed(a: Audit, records: seq<Record>, i: nat)
    requires IsLastOfItsId(records, i)
    ensures SignerById(a, records, records[i].Id()) == SignerStatus(a.c, a.trusted, records[i])
    decreases |records|
  {
    hide SignerStatus;
    var front := records[..|records|-1];
    assert records[i] in records && records == front + [records[|records|-1]];
    if i < |records| - 1 {
      assert records[|records|-1].Id() != records[i].Id();
      assert front[i] == records[i] && front[i] in front;
      assert IsLastOfItsId(front, i);
      LastOfItsIdIsNamed(a, front, i);
    }
  }

  /** Every id has a last record. */
  lemma {:induction false} HasLast(records: seq<Record>, r: Record) returns (i: nat)
    requires r in records
    ensures IsLastOfItsId(records, i) && records[i].Id() == r.Id()
    decreases |records|
  {
    var last := records[|records|-1];
    if last.Id() == r.Id() {
      i := |records| - 1;
    } else {
      var front := records[..|records|-1];
      assert records == front + [last] && r in front;
      i := HasLast(front, r);
      assert front[i] == records[i];
    }
  }

  /** The dict names the record's own signer. */
  ghost predicate NamesSigner(a: Audit, records: seq<Record>, r: Record)
    requires r in records
  {
    SignerById(a, records, r.Id()) == SignerStatus(a.c, a.trusted, r)
  }

  ghost predicate SameStatus(a: Audit, q: Record, r: Record) {
    q.Id() == r.Id() ==> SignerStatus(a.c, a.trusted, q) == SignerStatus(a.c, a.trusted, r)
  }

  /** The dict names each record's own signer exactly when records of one id have one status. */
  lemma SignersAreRightExactlyWhen(a: Audit, records: seq<Record>)
    ensures (forall r :: r in records ==> NamesSigner(a, records, r))
            <==> (forall q, r :: q in records && r in records ==> SameStatus(a, q, r))
  {
    hide NamesSigner, SameStatus;
    if forall r :: r in records ==> NamesSigner(a, records, r) {
      forall q, r | q in records && r in records ensures SameStatus(a, q, r) {
        BothNamed(a, records, q, r);
      }
    }
    if forall q, r :: q in records && r in records ==> SameStatus(a, q, r) {
      forall r | r in records ensures NamesSigner(a, records, r) {
        var i := HasLast(records, r);
        assert records[i] in records && SameStatus(a, records[i], r);
        NamedByLast(a, records, i, r);
      }
    }
  }

  lemma BothNamed(a: Audit, records: seq<Record>, q: Record, r: Record)
    requires q in records && r in records && NamesSigner(a, records, q) && NamesSigner(a, records, r)
    ensures SameStatus(a, q, r)
  {
    hide SignerStatus, SignerById;
  }

  lemma NamedByLast(a: Audit, records: seq<Record>, i: nat, r: Record)
    requires r in records && IsLastOfItsId(records, i) && records[i].Id() == r.Id() && SameStatus(a, records[i], r)
    ensures NamesSigner(a, records, r)
  {
    hide SignerStatus, SignerById;
    LastOfItsIdIsNamed(a, records, i);
  }

  /** `require_signed` succeeds. */
  ghost predicate PassesSigned(a: Audit, records: seq<Record>) {
    forall r :: r in records ==> SignerById(a, records, r.Id()).Some?
  }

  /** It succeeds exactly when the last record of every id is signed. */
  lemma PassesSignedExactlyWhen(a: Audit, records: seq<Record>)
    ensures PassesSigned(a, records)
            <==> forall i: nat :: IsLastOfItsId(records, i) ==> SignerStatus(a.c, a.trusted, records[i]).Some?
  {
    hide SignerStatus, SignerById;
    forall i: nat | IsLastOfItsId(records, i)
      ensures SignerById(a, records, records[i].Id()) == SignerStatus(a.c, a.trusted, records[i]) && records[i] in records
    {
      LastOfItsIdIsNamed(a, records, i);
      LastIsRecord(records, i);
    }
    forall r | r in records ensures exists i: nat :: IsLastOfItsId(records, i) && records[i].Id() == r.Id() {
      var i := HasLast(records, r);
    }
  }

  lemma LastIsRecord(records: seq<Record>, i: nat)
    requires IsLastOfItsId(records, i)
    ensures i < |records| && records[i] in records
  {
  }

  /** It succeeds although some record is unsigned exactly when the last record of every id is signed and one that a later
      record of its id follows is not. */
  lemma UnsignedPassesExactlyWhen(a: Audit, records: seq<Record>)
    ensures PassesSigned(a, records) && (exists r :: r in records && SignerStatus(a.c, a.trusted, r).None?)
            <==>
            && (forall i: nat :: IsLastOfItsId(records, i) ==> SignerStatus(a.c, a.trusted, records[i]).Some?)
            && (exists i: nat :: i < |records| && !IsLastOfItsId(records, i)
                                 && SignerStatus(a.c, a.trusted, records[i]).None?)
  {
    hide SignerStatus, SignerById, IsLastOfItsId, PassesSigned;
    PassesSignedExactlyWhen(a, records);
    if r :| r in records && SignerStatus(a.c, a.trusted, r).None? {
      var i :| 0 <= i < |records| && records[i] == r;
    }
    if i: nat :| i < |records| && SignerStatus(a.c, a.trusted, records[i]).None? {
      assert records[i] in records;
    }
  }

  /** Without unique ids an unsigned record hides behind a signed one of the same id. */
  lemma SharedIdHidesUnsigned(a: Audit, unsigned: Record, signed: Record)
    requires unsigned.Id() == signed.Id()
    requires SignerStatus(a.c, a.trusted, unsigned).None? && SignerStatus(a.c, a.trusted, signed).Some?
    ensures forall r :: r in [unsigned, signed] ==> SignerById(a, [unsigned, signed], r.Id()).Some?
  {
  }

  // ----- What disqualifies and what is shared -----

  predicate IsDisqualifying(r: Record) {
    r.signed.body.outcome == Rejected || !MeetsCriteria(r.signed.body.attributes)
  }

  predicate IsAcceptedCustomer(r: Record) {
    r.IsAcceptance() && r.Type() == PayingCustomer && r.signed.body.attributes.CustomerFacts?
  }

  function Subscription(r: Record): string
    requires IsAcceptedCustomer(r)
  {
    r.signed.body.attributes.subscriptionId
  }

  function Kind(r: Record): CustomerKind
    requires IsAcceptedCustomer(r)
  {
    r.signed.body.attributes.customerKind
  }

  predicate SubjectDisqualified(records: seq<Record>, subject: (EvidenceType, string)) {
    exists r :: r in records && r.Subject() == subject && IsDisqualifying(r)
  }

  /** Accepted records cite the artifact for another subject too. */
  predicate ArtifactIsShared(records: seq<Record>, r: Record) {
    exists q :: q in records && q.IsAcceptance() && q.signed.body.artifact == r.signed.body.artifact
                && q.Subject() != r.Subject()
  }

  predicate SubscriptionIsShared(records: seq<Record>, r: Record)
    requires IsAcceptedCustomer(r)
  {
    exists q :: q in records && IsAcceptedCustomer(q) && Subscription(q) == Subscription(r)
                && q.SubjectId() != r.SubjectId()
  }

  predicate KindConflicts(records: seq<Record>, r: Record)
    requires IsAcceptedCustomer(r)
  {
    exists q :: q in records && IsAcceptedCustomer(q) && q.SubjectId() == r.SubjectId() && Kind(q) != Kind(r)
  }

  /** Whether `reason` keeps an acceptance from counting among `records`. */
  predicate Holds(a: Audit, records: seq<Record>, r: Record, reason: Reason) {
    && r.IsAcceptance()
    && match reason
       case ReviewerRevoked => SignerStatus(a.c, a.trusted, r) == Some(Revoked)
       case ArtifactUnverified => r.signed.body.artifact !in a.retained
       case OtherRelease => r.signed.body.releaseId != a.releaseId
       case CriteriaNotMet => !MeetsCriteria(r.signed.body.attributes)
       case Disqualified => SubjectDisqualified(records, r.Subject())
       case ArtifactShared => ArtifactIsShared(records, r)
       case SubscriptionShared => IsAcceptedCustomer(r) && SubscriptionIsShared(records, r)
       case CustomerKindConflict => IsAcceptedCustomer(r) && KindConflicts(records, r)
  }

  /** The acceptance counts: no reason holds. */
  predicate Counts(a: Audit, records: seq<Record>, r: Record) {
    r.IsAcceptance() && forall reason :: !Holds(a, records, r, reason)
  }

  /** An acceptance that is no failing one. */
  predicate IsClean(q: Record) {
    q.signed.body.outcome == Accepted && MeetsCriteria(q.signed.body.attributes)
  }

  /** What it takes to count, among all the records: an acceptance under a key that is not revoked, of the release under audit, whose
      artifact is retained and cited for no other subject; every record of the subject a clean acceptance; and for a customer no
      other one with its subscription, and one kind. */
  lemma CountsExactlyWhen(a: Audit, records: seq<Record>, r: Record)
    requires r in records
    ensures Counts(a, records, r) <==>
              && SignerStatus(a.c, a.trusted, r) != Some(Revoked)
              && r.signed.body.artifact in a.retained && r.signed.body.releaseId == a.releaseId
              && (forall q :: q in records && q.Type() == r.Type() && q.SubjectId() == r.SubjectId() ==> IsClean(q))
              && (forall q :: q in records && q.signed.body.outcome == Accepted && q.signed.body.artifact == r.signed.body.artifact
                    ==> q.Type() == r.Type() && q.SubjectId() == r.SubjectId())
              && (r.Type() == PayingCustomer && r.signed.body.attributes.CustomerFacts? ==>
                    forall q :: (q in records && q.signed.body.outcome == Accepted && q.Type() == PayingCustomer
                                 && q.signed.body.attributes.CustomerFacts?) ==> ConsistentCustomers(r, q))
  {
    hide SignerStatus, MeetsCriteria;
    if Counts(a, records, r) {
      assert !Holds(a, records, r, ReviewerRevoked) && !Holds(a, records, r, ArtifactUnverified)
          && !Holds(a, records, r, OtherRelease) && !Holds(a, records, r, Disqualified)
          && !Holds(a, records, r, ArtifactShared);
      assert !Holds(a, records, r, SubscriptionShared) && !Holds(a, records, r, CustomerKindConflict);
    }
  }

  /** Two customers are one and of one kind, or have subscriptions of their own. */
  predicate ConsistentCustomers(r: Record, q: Record)
    requires r.signed.body.attributes.CustomerFacts? && q.signed.body.attributes.CustomerFacts?
  {
    var one, two := r.signed.body.attributes, q.signed.body.attributes;
    if q.SubjectId() == r.SubjectId() then one.customerKind == two.customerKind else one.subscriptionId != two.subscriptionId
  }

  /** Each reason on its own, for an acceptance. */
  lemma ReasonsInFull(a: Audit, records: seq<Record>, r: Record)
    requires r in records && r.signed.body.outcome == Accepted
    ensures Holds(a, records, r, ReviewerRevoked) <==> SignerStatus(a.c, a.trusted, r) == Some(Revoked)
    ensures Holds(a, records, r, ArtifactUnverified) <==> r.signed.body.artifact !in a.retained
    ensures Holds(a, records, r, OtherRelease) <==> r.signed.body.releaseId != a.releaseId
    ensures Holds(a, records, r, CriteriaNotMet) <==> !IsClean(r)
    ensures Holds(a, records, r, Disqualified)
            <==> exists q :: q in records && q.Type() == r.Type() && q.SubjectId() == r.SubjectId() && !IsClean(q)
    ensures Holds(a, records, r, ArtifactShared)
            <==> exists q :: q in records && q.signed.body.outcome == Accepted && q.signed.body.artifact == r.signed.body.artifact
                             && (q.Type() != r.Type() || q.SubjectId() != r.SubjectId())
    ensures Holds(a, records, r, SubscriptionShared)
            <==> (IsCustomer(r) && exists q :: (q in records && IsCustomer(q) && q.SubjectId() != r.SubjectId()
                  && q.signed.body.attributes.subscriptionId == r.signed.body.attributes.subscriptionId))
    ensures Holds(a, records, r, CustomerKindConflict)
            <==> (IsCustomer(r) && exists q :: (q in records && IsCustomer(q) && q.SubjectId() == r.SubjectId()
                  && q.signed.body.attributes.customerKind != r.signed.body.attributes.customerKind))
  {
    hide SignerStatus, MeetsCriteria;
  }

  predicate IsCustomer(q: Record) {
    q.signed.body.outcome == Accepted && q.Type() == PayingCustomer && q.signed.body.attributes.CustomerFacts?
  }

  /** A clean acceptance in numbers: six and a half hours with an order, a reconciliation and nothing unknown, discrepant, unexplained
      or unplanned; an unaided partner with a workflow; a broker with all three environments reconciled; any customer. */
  lemma CleanExactlyWhen(q: Record)
    ensures IsClean(q) <==>
              var x := q.signed.body.attributes;
              && q.signed.body.outcome == Accepted
              && (x.SessionFacts? ==>
                    && x.sessionSeconds >= 23_400 && x.ordersSubmitted >= 1 && x.reconciliationsCompleted >= 1
                    && x.unknownOrdersAtClose == x.reconciliationDiscrepancies == x.unexplainedIncidents == 0
                    && x.unplannedReconnects == 0)
              && (x.PartnerFacts? ==> x.unaided && x.workflowsCompleted >= 1)
              && (x.OptionsFacts? ==> x.reconciledEnvironments == ["BACKTEST", "LIVE", "PAPER"])
  {
  }

  /** The reasons among `order` that hold, in that order. */
  function ReasonsAmong(a: Audit, records: seq<Record>, r: Record, order: seq<Reason>): (reasons: seq<Reason>)
    ensures forall reason :: reason in reasons <==> reason in order && Holds(a, records, r, reason)
  {
    if order == [] then []
    else
      var first := if Holds(a, records, r, order[0]) then [order[0]] else [];
      var rest := ReasonsAmong(a, records, r, order[1..]);
      assert forall reason :: reason in order <==> reason == order[0] || reason in order[1..];
      assert forall reason :: reason in first + rest <==> reason in first || reason in rest;
      first + rest
  }

  /** The verdict lists exactly the reasons that hold, in the order in which they are decided. */
  ghost predicate Judged(a: Audit, records: seq<Record>, v: Verdict) {
    v.reasons == ReasonsAmong(a, records, v.record, AllReasons())
  }

  ghost predicate NoneTwice(reasons: seq<Reason>) {
    forall i, j :: 0 <= i < j < |reasons| ==> reasons[i] != reasons[j]
  }

  /** So it lists every reason that holds, none that does not, and none twice. */
  lemma JudgedMeans(a: Audit, records: seq<Record>, v: Verdict)
    requires Judged(a, records, v)
    ensures forall reason :: reason in v.reasons <==> Holds(a, records, v.record, reason)
    ensures NoneTwice(v.reasons)
  {
    hide Holds;
    forall reason ensures reason in AllReasons() {
      EveryReasonIsListed(reason);
    }
    AllReasonsDiffer();
    ReasonsAreDistinct(a, records, v.record, AllReasons());
  }

  lemma AllReasonsDiffer()
    ensures NoneTwice(AllReasons())
  {
  }

  lemma {:induction false} ReasonsAreDistinct(a: Audit, records: seq<Record>, r: Record, order: seq<Reason>)
    requires NoneTwice(order)
    ensures NoneTwice(ReasonsAmong(a, records, r, order))
  {
    hide Holds;
    if order != [] {
      ReasonsAreDistinct(a, records, r, order[1..]);
      assert order[0] !in order[1..];
      var rest, all := ReasonsAmong(a, records, r, order[1..]), ReasonsAmong(a, records, r, order);
      assert all == rest || all == [order[0]] + rest;
      OneInFront(order[0], rest);
    }
  }

  lemma OneInFront(x: Reason, rest: seq<Reason>)
    requires x !in rest && NoneTwice(rest)
    ensures NoneTwice([x] + rest)
  {
    var all := [x] + rest;
    forall i, j | 0 <= i < j < |all| ensures all[i] != all[j] {
      assert all[j] == rest[j - 1] && rest[j - 1] in rest;
      assert i > 0 ==> all[i] == rest[i - 1];
    }
  }

  // ----- The verdicts -----

  lemma MoreThanOne<T>(s: set<T>, x: T)
    requires x in s
    ensures |s| > 1 <==> exists y :: y in s && y != x
  {
    if y :| y in s && y != x {
      assert {x, y} <= s;
      SubsetSize({x, y}, s);
    } else {
      assert s == {x};
    }
  }

  lemma {:induction false} SubsetSize<T>(s: set<T>, t: set<T>)
    requires s <= t
    ensures |s| <= |t|
  {
    if s != {} {
      var x :| x in s;
      SubsetSize(s - {x}, t - {x});
    }
  }

  /** `defaultdict(set)[key].add(value)`. */
  function AddTo<K, V>(m: map<K, set<V>>, key: K, value: V): map<K, set<V>> {
    m[key := (if key in m then m[key] else {}) + {value}]
  }

  predicate InGroup<K, V>(m: map<K, set<V>>, key: K, value: V) {
    key in m && value in m[key]
  }

  predicate CitesArtifact(r: Record, artifact: string, subject: (EvidenceType, string)) {
    r.IsAcceptance() && r.signed.body.artifact == artifact && r.Subject() == subject
  }

  predicate CitesSubscription(r: Record, subscription: string, customer: string) {
    IsAcceptedCustomer(r) && Subscription(r) == subscription && r.SubjectId() == customer
  }

  predicate CitesKind(r: Record, customer: string, kind: CustomerKind) {
    IsAcceptedCustomer(r) && r.SubjectId() == customer && Kind(r) == kind
  }

  /** The subjects each artifact is cited for, and the customers of each subscription and kinds of each customer. */
  datatype Citations = Citations(
    artifacts: map<string, set<(EvidenceType, string)>>,
    subscriptions: map<string, set<string>>,
    kinds: map<string, set<CustomerKind>>)

  ghost predicate Cites(records: seq<Record>, c: Citations) {
    && (forall d, v :: InGroup(c.artifacts, d, v) <==> exists r :: r in records && CitesArtifact(r, d, v))
    && (forall d, v :: InGroup(c.subscriptions, d, v) <==> exists r :: r in records && CitesSubscription(r, d, v))
    && (forall d, v :: InGroup(c.kinds, d, v) <==> exists r :: r in records && CitesKind(r, d, v))
  }

  function Cite(c: Citations, r: Record): Citations {
    if !r.IsAcceptance() then c
    else
      var artifacts := AddTo(c.artifacts, r.signed.body.artifact, r.Subject());
      if IsAcceptedCustomer(r) then
        Citations(artifacts, AddTo(c.subscriptions, Subscription(r), r.SubjectId()),
                  AddTo(c.kinds, r.SubjectId(), Kind(r)))
      else c.(artifacts := artifacts)
  }

  /** A record adds its own citations and nothing else. */
  lemma CiteAdds(c: Citations, r: Record)
    ensures forall d, v :: InGroup(Cite(c, r).artifacts, d, v) <==> InGroup(c.artifacts, d, v) || CitesArtifact(r, d, v)
    ensures forall d, v ::
              InGroup(Cite(c, r).subscriptions, d, v) <==> InGroup(c.subscriptions, d, v) || CitesSubscription(r, d, v)
    ensures forall d, v :: InGroup(Cite(c, r).kinds, d, v) <==> InGroup(c.kinds, d, v) || CitesKind(r, d, v)
  {
  }

  lemma CiteNext(records: seq<Record>, r: Record, c: Citations)
    requires Cites(records, c)
    ensures Cites(records + [r], Cite(c, r))
  {
    hide Cite, InGroup, CitesArtifact, CitesSubscription, CitesKind;
    var after, all := Cite(c, r), records + [r];
    CiteAdds(c, r);
    assert r in all && forall q :: q in all <==> q in records || q == r;
  }

  /** A group of more than one is a citation for somebody else. */
  lemma SharedGroups(records: seq<Record>, c: Citations, r: Record)
    requires Cites(records, c) && r in records && r.IsAcceptance()
    ensures r.signed.body.artifact in c.artifacts
    ensures |c.artifacts[r.signed.body.artifact]| > 1 <==> ArtifactIsShared(records, r)
    ensures IsAcceptedCustomer(r) ==>
      && Subscription(r) in c.subscriptions && r.SubjectId() in c.kinds
      && (|c.subscriptions[Subscription(r)]| > 1 <==> SubscriptionIsShared(records, r))
      && (|c.kinds[r.SubjectId()]| > 1 <==> KindConflicts(records, r))
  {
    SharedArtifacts(records, c, r);
    if IsAcceptedCustomer(r) {
      SharedSubscriptions(records, c, r);
      ConflictingKinds(records, c, r);
    }
  }

  lemma SharedArtifacts(records: seq<Record>, c: Citations, r: Record)
    requires Cites(records, c) && r in records && r.IsAcceptance()
    ensures r.signed.body.artifact in c.artifacts
    ensures |c.artifacts[r.signed.body.artifact]| > 1 <==> ArtifactIsShared(records, r)
  {
    var d := r.signed.body.artifact;
    assert CitesArtifact(r, d, r.Subject()) && InGroup(c.artifacts, d, r.Subject());
    MoreThanOne(c.artifacts[d], r.Subject());
    assert forall v :: v in c.artifacts[d] <==> InGroup(c.artifacts, d, v);
    if ArtifactIsShared(records, r) {
      var q :| q in records && q.IsAcceptance() && q.signed.body.artifact == d && q.Subject() != r.Subject();
      assert CitesArtifact(q, d, q.Subject()) && InGroup(c.artifacts, d, q.Subject()) && q.Subject() in c.artifacts[d];
    }
    if v :| v in c.artifacts[d] && v != r.Subject() {
      assert InGroup(c.artifacts, d, v);
      var q :| q in records && CitesArtifact(q, d, v);
    }
  }

  lemma SharedSubscriptions(records: seq<Record>, c: Citations, r: Record)
    requires Cites(records, c) && r in records && IsAcceptedCustomer(r)
    ensures Subscription(r) in c.subscriptions
    ensures |c.subscriptions[Subscription(r)]| > 1 <==> SubscriptionIsShared(records, r)
  {
    var d := Subscription(r);
    assert CitesSubscription(r, d, r.SubjectId()) && InGroup(c.subscriptions, d, r.SubjectId());
    MoreThanOne(c.subscriptions[d], r.SubjectId());
    assert forall v :: v in c.subscriptions[d] <==> InGroup(c.subscriptions, d, v);
    if SubscriptionIsShared(records, r) {
      var q :| q in records && IsAcceptedCustomer(q) && Subscription(q) == d && q.SubjectId() != r.SubjectId();
      assert CitesSubscription(q, d, q.SubjectId()) && InGroup(c.subscriptions, d, q.SubjectId()) && q.SubjectId() in c.subscriptions[d];
    }
    if v :| v in c.subscriptions[d] && v != r.SubjectId() {
      assert InGroup(c.subscriptions, d, v);
      var q :| q in records && CitesSubscription(q, d, v);
    }
  }

  lemma ConflictingKinds(records: seq<Record>, c: Citations, r: Record)
    requires Cites(records, c) && r in records && IsAcceptedCustomer(r)
    ensures r.SubjectId() in c.kinds
    ensures |c.kinds[r.SubjectId()]| > 1 <==> KindConflicts(records, r)
  {
    var d := r.SubjectId();
    assert CitesKind(r, d, Kind(r)) && InGroup(c.kinds, d, Kind(r));
    MoreThanOne(c.kinds[d], Kind(r));
    assert forall v :: v in c.kinds[d] <==> InGroup(c.kinds, d, v);
    if KindConflicts(records, r) {
      var q :| q in records && IsAcceptedCustomer(q) && q.SubjectId() == d && Kind(q) != Kind(r);
      assert CitesKind(q, d, Kind(q)) && InGroup(c.kinds, d, Kind(q)) && Kind(q) in c.kinds[d];
    }
    if v :| v in c.kinds[d] && v != Kind(r) {
      assert InGroup(c.kinds, d, v);
      var q :| q in records && CitesKind(q, d, v);
    }
  }

  /** Whether the dicts built over all the records give an acceptance this reason. */
  predicate Gives(
      a: Audit, signer: KeyStatus, disqualified: set<(EvidenceType, string)>, cited: Citations, r: Record, reason: Reason)
    requires r.signed.body.artifact in cited.artifacts
    requires IsAcceptedCustomer(r) ==> Subscription(r) in cited.subscriptions && r.SubjectId() in cited.kinds
  {
    var b := r.signed.body;
    match reason
    case ReviewerRevoked => signer == Revoked
    case ArtifactUnverified => b.artifact !in a.retained
    case OtherRelease => b.releaseId != a.releaseId
    case CriteriaNotMet => !MeetsCriteria(b.attributes)
    case Disqualified => r.Subject() in disqualified
    case ArtifactShared => |cited.artifacts[b.artifact]| > 1
    case SubscriptionShared => IsAcceptedCustomer(r) && |cited.subscriptions[Subscription(r)]| > 1
    case CustomerKindConflict => IsAcceptedCustomer(r) && |cited.kinds[r.SubjectId()]| > 1
  }

  /** The order in which the reasons are decided. */
  function AllReasons(): seq<Reason> {
    [ReviewerRevoked, ArtifactUnverified, OtherRelease, CriteriaNotMet, Disqualified, ArtifactShared, SubscriptionShared,
     CustomerKindConflict]
  }

  lemma EveryReasonIsListed(reason: Reason)
    ensures reason in AllReasons()
  {
    var all := AllReasons();
    match reason
    case ReviewerRevoked => assert all[0] == reason;
    case ArtifactUnverified => assert all[1] == reason;
    case OtherRelease => assert all[2] == reason;
    case CriteriaNotMet => assert all[3] == reason;
    case Disqualified => assert all[4] == reason;
    case ArtifactShared => assert all[5] == reason;
    case SubscriptionShared => assert all[6] == reason;
    case CustomerKindConflict => assert all[7] == reason;
  }

  /** The reasons of an acceptance among `order`, in that order. */
  function ReasonsFrom(
      a: Audit, signer: KeyStatus, disqualified: set<(EvidenceType, string)>, cited: Citations, r: Record,
      order: seq<Reason>): (reasons: seq<Reason>)
    requires r.signed.body.artifact in cited.artifacts
    requires IsAcceptedCustomer(r) ==> Subscription(r) in cited.subscriptions && r.SubjectId() in cited.kinds
    ensures forall reason :: reason in reasons
              <==> reason in order && Gives(a, signer, disqualified, cited, r, reason)
  {
    if order == [] then []
    else
      var first := if Gives(a, signer, disqualified, cited, r, order[0]) then [order[0]] else [];
      var rest := ReasonsFrom(a, signer, disqualified, cited, r, order[1..]);
      assert forall reason :: reason in order <==> reason == order[0] || reason in order[1..];
      assert forall reason :: reason in first + rest <==> reason in first || reason in rest;
      first + rest
  }

  /** What the dicts say of a record: its reasons if it is an acceptance, and none if it is a rejection. */
  function VerdictFrom(
      a: Audit, signer: KeyStatus, disqualified: set<(EvidenceType, string)>, cited: Citations, r: Record)
      : (v: Verdict)
    requires r.IsAcceptance() ==> r.signed.body.artifact in cited.artifacts
    requires IsAcceptedCustomer(r) ==> Subscription(r) in cited.subscriptions && r.SubjectId() in cited.kinds
    ensures v.record == r
  {
    Verdict(r, if r.IsAcceptance() then ReasonsFrom(a, signer, disqualified, cited, r, AllReasons()) else [])
  }

  lemma GivesIsHolds(
      a: Audit, records: seq<Record>, disqualified: set<(EvidenceType, string)>, cited: Citations, r: Record, reason: Reason)
    requires r in records && r.IsAcceptance() && Cites(records, cited) && SignerStatus(a.c, a.trusted, r).Some?
    requires disqualified == set q | q in records && IsDisqualifying(q) :: q.Subject()
    ensures r.signed.body.artifact in cited.artifacts
    ensures IsAcceptedCustomer(r) ==> Subscription(r) in cited.subscriptions && r.SubjectId() in cited.kinds
    ensures Gives(a, SignerStatus(a.c, a.trusted, r).value, disqualified, cited, r, reason)
            <==> Holds(a, records, r, reason)
  {
    hide Cites, ArtifactIsShared, SubscriptionIsShared, KindConflicts, MeetsCriteria, SignerStatus;
    SharedGroups(records, cited, r);
    assert r.Subject() in disqualified <==> SubjectDisqualified(records, r.Subject());
  }

  lemma ReasonsAreJudged(
      a: Audit, records: seq<Record>, disqualified: set<(EvidenceType, string)>, cited: Citations, r: Record)
    requires r in records && Cites(records, cited) && SignerStatus(a.c, a.trusted, r).Some?
    requires disqualified == set q | q in records && IsDisqualifying(q) :: q.Subject()
    ensures r.IsAcceptance() ==> r.signed.body.artifact in cited.artifacts
    ensures IsAcceptedCustomer(r) ==> Subscription(r) in cited.subscriptions && r.SubjectId() in cited.kinds
    ensures Judged(a, records, VerdictFrom(a, SignerStatus(a.c, a.trusted, r).value, disqualified, cited, r))
  {
    if r.IsAcceptance() {
      GivesIsHolds(a, records, disqualified, cited, r, ReviewerRevoked);
      hide Cites, Gives, SignerStatus, Holds, IsDisqualifying;
      SameReasons(a, records, disqualified, cited, r, AllReasons());
    } else {
      NoReasons(a, records, r, AllReasons());
    }
  }

  lemma {:induction false} SameReasons(
      a: Audit, records: seq<Record>, disqualified: set<(EvidenceType, string)>, cited: Citations, r: Record,
      order: seq<Reason>)
    requires r in records && r.IsAcceptance() && Cites(records, cited) && SignerStatus(a.c, a.trusted, r).Some?
    requires disqualified == set q | q in records && IsDisqualifying(q) :: q.Subject()
    requires r.signed.body.artifact in cited.artifacts
    requires IsAcceptedCustomer(r) ==> Subscription(r) in cited.subscriptions && r.SubjectId() in cited.kinds
    ensures ReasonsFrom(a, SignerStatus(a.c, a.trusted, r).value, disqualified, cited, r, order)
            == ReasonsAmong(a, records, r, order)
  {
    hide Cites, Gives, SignerStatus, Holds, IsDisqualifying, IsAcceptedCustomer;
    if order != [] {
      GivesIsHolds(a, records, disqualified, cited, r, order[0]);
      SameReasons(a, records, disqualified, cited, r, order[1..]);
    }
  }

  lemma {:induction false} NoReasons(a: Audit, records: seq<Record>, r: Record, order: seq<Reason>)
    requires !r.IsAcceptance()
    ensures ReasonsAmong(a, records, r, order) == []
  {
    if order != [] {
      NoReasons(a, records, r, order[1..]);
    }
  }

  method CiteAll(records: seq<Record>) returns (cited: Citations)
    ensures Cites(records, cited)
  {
    cited := Citations(map[], map[], map[]);
    assert Cites([], cited);
    hide Cites, Cite;
    assert records[..0] == [];
    for n := 0 to |records|
      invariant Cites(records[..n], cited)
    {
      CiteNext(records[..n], records[n], cited);
      assert records[..n + 1] == records[..n] + [records[n]];
      cited := Cite(cited, records[n]);
    }
    assert records[..|records|] == records;
  }

  /** The verdicts, record by record, from the dicts built over all of them. */
  method JudgeAll(
      a: Audit, records: seq<Record>, signers: map<string, KeyStatus>, disqualified: set<(EvidenceType, string)>,
      cited: Citations) returns (verdicts: seq<Verdict>)
    requires Cites(records, cited)
    requires disqualified == set q | q in records && IsDisqualifying(q) :: q.Subject()
    requires forall r :: r in records ==> r.Id() in signers && SignerStatus(a.c, a.trusted, r) == Some(signers[r.Id()])
    ensures |verdicts| == |records|
    ensures forall i :: 0 <= i < |records| ==> verdicts[i].record == records[i] && Judged(a, records, verdicts[i])
  {
    hide SignerStatus, Cites, Judged, IsDisqualifying, VerdictFrom, IsAcceptedCustomer;
    verdicts := [];
    for n := 0 to |records|
      invariant |verdicts| == n
      invariant forall i :: 0 <= i < n ==> verdicts[i].record == records[i] && Judged(a, records, verdicts[i])
    {
      var r := records[n];
      assert r in records;
      ReasonsAreJudged(a, records, disqualified, cited, r);
      verdicts := verdicts + [VerdictFrom(a, signers[r.Id()], disqualified, cited, r)];
    }
  }

  /** `assess`: refuses a root with an unsigned record, and otherwise judges every record in order. */
  method Assess(a: Audit, records: seq<Record>) returns (result: Result<seq<Verdict>, EvidenceError>)
    requires UniqueIds(records)
    ensures result.Success? <==> forall r :: r in records ==> SignerStatus(a.c, a.trusted, r).Some?
    ensures result.Success? ==>
      && |result.value| == |records|
      && forall i :: 0 <= i < |records| ==>
           result.value[i].record == records[i] && Judged(a, records, result.value[i])
  {
    hide SignerStatus, Cites, Judged, IsDisqualifying, UniqueIds, SignerById;
    forall r | r in records ensures SignerById(a, records, r.Id()) == SignerStatus(a.c, a.trusted, r) {
      UniqueIdsNameSigners(a, records, r);
    }
    var signed := RequireSigned(a, records);
    if signed.Failure? {
      return Failure(signed.error);
    }
    var disqualified := set r | r in records && IsDisqualifying(r) :: r.Subject();
    var cited := CiteAll(records);
    var verdicts := JudgeAll(a, records, signed.value, disqualified, cited);
    return Success(verdicts);
  }
}
