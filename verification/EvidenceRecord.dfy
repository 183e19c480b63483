/** Records of the acceptance ledger, their attributes and criteria, and the reviewer keys that sign them. */
module EvidenceRecord {
  import opened Prelude
  import CanonicalTime

  datatype EvidenceType = PaperSession | LiveSession | DesignPartner | BrokerOptions | PayingCustomer
  datatype Outcome = Accepted | Rejected
  datatype Environment = Paper | Live | NoEnvironment
  datatype CustomerKind = Professional | Organisation

  datatype Attributes =
    | SessionFacts(
        sessionSeconds: int,
        ordersSubmitted: int,
        reconciliationsCompleted: int,
        unknownOrdersAtClose: int,
        reconciliationDiscrepancies: int,
        unexplainedIncidents: int,
        unplannedReconnects: int,
        plannedReconnectDrills: int)
    | PartnerFacts(workflowsCompleted: int, unaided: bool)
    | OptionsFacts(reconciledEnvironments: seq<string>)
    | CustomerFacts(customerKind: CustomerKind, subscriptionId: string)

  /** Everything a reviewer signs. */
  datatype Body = Body(
    schemaVersion: int,
    evidenceId: string,
    evidenceType: EvidenceType,
    subjectId: string,
    occurredAt: string,
    observedBy: string,
    reviewedBy: string,
    artifact: string,
    outcome: Outcome,
    notes: string,
    releaseId: string,
    environment: Environment,
    attributes: Attributes,
    keyId: string,
    prevHash: string)

  /** Everything a record's hash covers: the body and its signature. */
  datatype Signed = Signed(body: Body, signature: string)

  datatype Record = Record(signed: Signed, recordHash: string)
  {
    function Id(): string { signed.body.evidenceId }
    function Type(): EvidenceType { signed.body.evidenceType }
    function SubjectId(): string { signed.body.subjectId }
    function Subject(): (EvidenceType, string) { (Type(), SubjectId()) }
    function PrevHash(): string { signed.body.prevHash }
    predicate IsAcceptance() { signed.body.outcome == Accepted }
  }

  /** Canonical JSON, SHA-256 and Ed25519 verification, which are not part of this model. `decode` is the JSON
      parser followed by the checks on keys and value types; it gives None where those refuse. */
  datatype Codec = Codec(
    encodeRecord: Record -> string,
    encodeSigned: Signed -> string,
    encodeBody: Body -> string,
    decode: string -> Option<Record>,
    sha256: string -> string,
    verifies: (string, string, string) -> bool)

  /** What is assumed of canonical JSON: distinct records have distinct encodings, each a non-empty single line
      that parses back to its record. */
  ghost predicate FaithfulJson(c: Codec) {
    && (forall r :: c.decode(c.encodeRecord(r)) == Some(r))
    && (forall r :: '\n' !in c.encodeRecord(r) && c.encodeRecord(r) != "")
    && (forall s, t :: c.encodeSigned(s) == c.encodeSigned(t) ==> s == t)
  }

  const SCHEMA_VERSION := 2
  const MAX_NOTES_CHARACTERS := 1024
  const MIN_SESSION_SECONDS := 6 * 3600 + 30 * 60

  /** `"0" * 64`, the predecessor of every first record. */
  function ZeroHash(): (h: string)
    ensures IsHex(h, 64)
  {
    seq(64, _ => '0')
  }

  /** What separates these signatures from any other use of the same key. */
  function SignatureDomain(): string {
    "follon-acceptance-evidence-v2\n"
  }

  datatype EvidenceError =
    | UnsupportedVersion | NotCanonicalId | ObserverReviews | NotesNotConcise | WrongEnvironment | BadTimestamp
    | BadAttributes | BadDigest | BadSignatureShape | DiscontinuousChain | HashMismatch
    | MissingNewline | BadLine | NotJson | NotCanonicalJson | LedgerTooLarge | DuplicateId | Unsigned
    | MissingLedger | TailDeleted | HeadChanged | KeyNotActive

  predicate IsIdCharacter(c: char) {
    'a' <= c <= 'z' || '0' <= c <= '9' || c == '.' || c == '_' || c == '-'
  }

  predicate IsCanonicalId(s: string) {
    s != "" && forall i :: 0 <= i < |s| ==> IsIdCharacter(s[i])
  }

  predicate IsHex(s: string, length: nat) {
    |s| == length && forall i :: 0 <= i < |s| ==> 'a' <= s[i] <= 'f' || '0' <= s[i] <= '9'
  }

  function RequiredEnvironment(t: EvidenceType): Environment {
    match t
    case PaperSession => Paper
    case LiveSession => Live
    case _ => NoEnvironment
  }

  function AllEnvironments(): seq<string> {
    ["BACKTEST", "LIVE", "PAPER"]
  }

  predicate ValidAttributes(t: EvidenceType, a: Attributes) {
    match t
    case PaperSession => ValidSession(a)
    case LiveSession => ValidSession(a)
    case DesignPartner => a.PartnerFacts? && a.workflowsCompleted >= 0
    case BrokerOptions =>
      && a.OptionsFacts?
      && (forall i, j :: 0 <= i < j < |a.reconciledEnvironments| ==>
            Less(a.reconciledEnvironments[i], a.reconciledEnvironments[j]))
      && (forall e :: e in a.reconciledEnvironments ==> e in AllEnvironments())
    case PayingCustomer => a.CustomerFacts? && IsCanonicalId(a.subscriptionId)
  }

  predicate ValidSession(a: Attributes) {
    && a.SessionFacts?
    && a.sessionSeconds >= 0 && a.ordersSubmitted >= 0 && a.reconciliationsCompleted >= 0
    && a.unknownOrdersAtClose >= 0 && a.reconciliationDiscrepancies >= 0 && a.unexplainedIncidents >= 0
    && a.unplannedReconnects >= 0 && a.plannedReconnectDrills >= 0
  }

  /** `criteria_shortfalls` is empty: what a clean session, an unaided partner or a full export is. */
  predicate MeetsCriteria(a: Attributes) {
    match a
    case SessionFacts(seconds, orders, reconciliations, unknown, discrepancies, incidents, reconnects, _) =>
      && seconds >= MIN_SESSION_SECONDS && orders >= 1 && reconciliations >= 1
      && unknown == 0 && discrepancies == 0 && incidents == 0 && reconnects == 0
    case PartnerFacts(workflows, unaided) => workflows >= 1 && unaided
    case OptionsFacts(environments) => environments == AllEnvironments()
    case CustomerFacts(_, _) => true
  }

  predicate WellFormedBody(b: Body) {
    && b.schemaVersion == SCHEMA_VERSION
    && IsCanonicalId(b.evidenceId) && IsCanonicalId(b.subjectId) && IsCanonicalId(b.observedBy)
    && IsCanonicalId(b.reviewedBy) && IsCanonicalId(b.releaseId) && IsCanonicalId(b.keyId)
    && b.observedBy != b.reviewedBy
    && |b.notes| <= MAX_NOTES_CHARACTERS && '\n' !in b.notes
    && b.environment == RequiredEnvironment(b.evidenceType)
    && CanonicalTime.IsLedgerTimestamp(b.occurredAt)
    && ValidAttributes(b.evidenceType, b.attributes)
    && IsHex(b.artifact, 64) && IsHex(b.prevHash, 64)
  }

  predicate WellFormed(r: Record) {
    WellFormedBody(r.signed.body) && IsHex(r.recordHash, 64) && IsHex(r.signed.signature, 128)
  }

  function HashOf(c: Codec, s: Signed): string {
    c.sha256(c.encodeSigned(s))
  }

  /** A record that is well formed, follows `previous`, and is hashed over its own content. */
  predicate Extends(c: Codec, r: Record, previous: string) {
    WellFormed(r) && r.PrevHash() == previous && HashOf(c, r.signed) == r.recordHash
  }

  /** `validate_record`, check by check in the source's order. */
  function ValidateRecord(c: Codec, r: Record, expectedPrevious: string): (result: Result<Record, EvidenceError>)
    ensures result.Success? <==> Extends(c, r, expectedPrevious)
    ensures result.Success? ==> result.value == r
  {
    var b := r.signed.body;
    if b.schemaVersion != SCHEMA_VERSION then Failure(UnsupportedVersion)
    else if !(IsCanonicalId(b.evidenceId) && IsCanonicalId(b.subjectId) && IsCanonicalId(b.observedBy)
              && IsCanonicalId(b.reviewedBy) && IsCanonicalId(b.releaseId) && IsCanonicalId(b.keyId)) then
      Failure(NotCanonicalId)
    else if b.observedBy == b.reviewedBy then Failure(ObserverReviews)
    else if |b.notes| > MAX_NOTES_CHARACTERS || '\n' in b.notes then Failure(NotesNotConcise)
    else if b.environment != RequiredEnvironment(b.evidenceType) then Failure(WrongEnvironment)
    else if !CanonicalTime.IsLedgerTimestamp(b.occurredAt) then Failure(BadTimestamp)
    else if !ValidAttributes(b.evidenceType, b.attributes) then Failure(BadAttributes)
    else if !(IsHex(b.artifact, 64) && IsHex(b.prevHash, 64) && IsHex(r.recordHash, 64)) then Failure(BadDigest)
    else if !IsHex(r.signed.signature, 128) then Failure(BadSignatureShape)
    else if b.prevHash != expectedPrevious then Failure(DiscontinuousChain)
    else if HashOf(c, r.signed) != r.recordHash then Failure(HashMismatch)
    else Success(r)
  }

  // ----- What a valid record is, in full -----

  /** Not empty, and of lower-case letters, digits, dots, underscores and hyphens. */
  predicate MatchesId(s: string) {
    s != "" && forall c :: c in s ==> c in "abcdefghijklmnopqrstuvwxyz0123456789._-"
  }

  predicate MatchesHex(s: string, length: nat) {
    |s| == length && forall c :: c in s ==> c in "0123456789abcdef"
  }

  lemma IdCharacters(c: char)
    ensures IsIdCharacter(c) <==> c in "abcdefghijklmnopqrstuvwxyz0123456789._-"
  {
    var letters, digits := "abcdefghijklmnopqrstuvwxyz", "0123456789";
    assert forall i :: 0 <= i < |letters| ==> letters[i] == ('a' as int + i) as char;
    assert forall i :: 0 <= i < |digits| ==> digits[i] == ('0' as int + i) as char;
    assert 'a' <= c <= 'z' ==> letters[c as int - 'a' as int] == c;
    assert '0' <= c <= '9' ==> digits[c as int - '0' as int] == c;
    assert "abcdefghijklmnopqrstuvwxyz0123456789._-" == letters + digits + "._-";
  }

  lemma HexCharacters(c: char)
    ensures 'a' <= c <= 'f' || '0' <= c <= '9' <==> c in "0123456789abcdef"
  {
    var letters, digits := "abcdef", "0123456789";
    assert forall i :: 0 <= i < |letters| ==> letters[i] == ('a' as int + i) as char;
    assert forall i :: 0 <= i < |digits| ==> digits[i] == ('0' as int + i) as char;
    assert 'a' <= c <= 'f' ==> letters[c as int - 'a' as int] == c;
    assert '0' <= c <= '9' ==> digits[c as int - '0' as int] == c;
    assert "0123456789abcdef" == digits + letters;
  }

  lemma IdExactlyWhen(s: string)
    ensures IsCanonicalId(s) <==> MatchesId(s)
  {
    hide IsIdCharacter;
    forall c: char ensures IsIdCharacter(c) <==> c in "abcdefghijklmnopqrstuvwxyz0123456789._-" {
      IdCharacters(c);
    }
    if IsCanonicalId(s) {
      forall c | c in s ensures IsIdCharacter(c) {
        var i :| 0 <= i < |s| && s[i] == c;
      }
    }
    assert forall i :: 0 <= i < |s| ==> s[i] in s;
  }

  lemma HexExactlyWhen(s: string, length: nat)
    ensures IsHex(s, length) <==> MatchesHex(s, length)
  {
    forall c: char ensures 'a' <= c <= 'f' || '0' <= c <= '9' <==> c in "0123456789abcdef" {
      HexCharacters(c);
    }
    assert forall i :: 0 <= i < |s| ==> s[i] in s;
  }

  /** The attributes each type of evidence has to have. */
  ghost predicate MatchesAttributes(t: EvidenceType, x: Attributes) {
    && (t == PaperSession || t == LiveSession ==>
          && x.SessionFacts? && x.sessionSeconds >= 0 && x.ordersSubmitted >= 0 && x.reconciliationsCompleted >= 0
          && x.unknownOrdersAtClose >= 0 && x.reconciliationDiscrepancies >= 0 && x.unexplainedIncidents >= 0
          && x.unplannedReconnects >= 0 && x.plannedReconnectDrills >= 0)
    && (t == DesignPartner ==> x.PartnerFacts? && x.workflowsCompleted >= 0)
    && (t == BrokerOptions ==> x.OptionsFacts? && SomeEnvironments(x.reconciledEnvironments))
    && (t == PayingCustomer ==> x.CustomerFacts? && MatchesId(x.subscriptionId))
  }

  function OneIf(present: bool, name: string): seq<string> {
    if present then [name] else []
  }

  /** Some of the three environments, each once and in order. */
  ghost predicate SomeEnvironments(list: seq<string>) {
    exists b, l, p :: list == OneIf(b, "BACKTEST") + OneIf(l, "LIVE") + OneIf(p, "PAPER")
  }

  lemma EnvironmentOrder()
    ensures Less("BACKTEST", "LIVE") && Less("BACKTEST", "PAPER") && Less("LIVE", "PAPER")
    ensures !Less("LIVE", "BACKTEST") && !Less("PAPER", "BACKTEST") && !Less("PAPER", "LIVE")
    ensures !Less("BACKTEST", "BACKTEST") && !Less("LIVE", "LIVE") && !Less("PAPER", "PAPER")
  {
  }

  predicate AscendingEnvironments(list: seq<string>) {
    && (forall i, j :: 0 <= i < j < |list| ==> Less(list[i], list[j]))
    && (forall e :: e in list ==> e in AllEnvironments())
  }

  function Place(environment: string): nat {
    if environment == "BACKTEST" then 0 else if environment == "LIVE" then 1 else 2
  }

  /** In an ascending list of environments the places ascend. */
  lemma {:induction false} PlacesAscend(list: seq<string>, i: nat)
    requires AscendingEnvironments(list) && i < |list|
    ensures i <= Place(list[i]) && (i > 0 ==> Place(list[i - 1]) < Place(list[i]))
    decreases i
  {
    hide Less;
    EnvironmentOrder();
    assert list[i] in list;
    if i > 0 {
      PlacesAscend(list, i - 1);
      assert list[i - 1] in list && Less(list[i - 1], list[i]);
    }
  }

  lemma EnvironmentsExactlyWhen(list: seq<string>)
    ensures AscendingEnvironments(list) <==> SomeEnvironments(list)
  {
    hide Less;
    EnvironmentOrder();
    if AscendingEnvironments(list) {
      forall i: nat | i < |list|
        ensures list[i] == "BACKTEST" || list[i] == "LIVE" || list[i] == "PAPER"
        ensures i > 0 ==> Place(list[i - 1]) < Place(list[i])
      {
        assert list[i] in list;
        PlacesAscend(list, i);
      }
      if list != [] {
        PlacesAscend(list, |list| - 1);
      }
      ByPlaces(list);
    }
  }

  lemma ByPlaces(list: seq<string>)
    requires |list| <= 3
    requires forall i: nat :: i < |list| ==> list[i] == "BACKTEST" || list[i] == "LIVE" || list[i] == "PAPER"
    requires |list| > 1 ==> Place(list[0]) < Place(list[1])
    requires |list| > 2 ==> Place(list[1]) < Place(list[2])
    ensures SomeEnvironments(list)
  {
    var b := |list| > 0 && list[0] == "BACKTEST";
    var p := |list| > 0 && list[|list| - 1] == "PAPER";
    var l := |list| > (if b then 1 else 0) + (if p then 1 else 0);
    var all := OneIf(b, "BACKTEST") + OneIf(l, "LIVE") + OneIf(p, "PAPER");
    if |list| == 1 {
      assert list == [list[0]] && list == all;
    } else if |list| == 2 {
      assert list == [list[0], list[1]] && list == all;
    } else if |list| == 3 {
      assert list == [list[0], list[1], list[2]] && list == all;
    } else {
      assert list == all;
    }
  }

  /** `validate_record` accepts exactly this: the version, the identifiers, two different people, short notes on one line, the
      environment of the type, the time, the attributes of the type, the digests, the signature's shape, the place in the chain and
      the record's own hash. */
  lemma RecordIsValidExactlyWhen(c: Codec, r: Record, previous: string)
    ensures ValidateRecord(c, r, previous).Success? <==>
              var b := r.signed.body;
              && b.schemaVersion == 2
              && MatchesId(b.evidenceId) && MatchesId(b.subjectId) && MatchesId(b.observedBy) && MatchesId(b.reviewedBy)
              && MatchesId(b.releaseId) && MatchesId(b.keyId)
              && b.observedBy != b.reviewedBy
              && |b.notes| <= 1024 && '\n' !in b.notes
              && b.environment == (if b.evidenceType == PaperSession then Paper
                                   else if b.evidenceType == LiveSession then Live else NoEnvironment)
              && CanonicalTime.IsLedgerTimestamp(b.occurredAt)
              && MatchesAttributes(b.evidenceType, b.attributes)
              && MatchesHex(b.artifact, 64) && MatchesHex(b.prevHash, 64) && MatchesHex(r.recordHash, 64)
              && MatchesHex(r.signed.signature, 128)
              && b.prevHash == previous && r.recordHash == c.sha256(c.encodeSigned(r.signed))
  {
    hide IsCanonicalId, MatchesId, IsHex, MatchesHex, CanonicalTime.IsLedgerTimestamp, ValidAttributes, MatchesAttributes;
    var b := r.signed.body;
    IdExactlyWhen(b.evidenceId);
    IdExactlyWhen(b.subjectId);
    IdExactlyWhen(b.observedBy);
    IdExactlyWhen(b.reviewedBy);
    IdExactlyWhen(b.releaseId);
    IdExactlyWhen(b.keyId);
    HexExactlyWhen(b.artifact, 64);
    HexExactlyWhen(b.prevHash, 64);
    HexExactlyWhen(r.recordHash, 64);
    HexExactlyWhen(r.signed.signature, 128);
    AttributesExactlyWhen(b.evidenceType, b.attributes);
  }

  lemma AttributesExactlyWhen(t: EvidenceType, x: Attributes)
    ensures ValidAttributes(t, x) <==> MatchesAttributes(t, x)
  {
    hide IsCanonicalId, MatchesId, Less, AllEnvironments, SomeEnvironments;
    if x.OptionsFacts? {
      EnvironmentsExactlyWhen(x.reconciledEnvironments);
    }
    if x.CustomerFacts? {
      IdExactlyWhen(x.subscriptionId);
    }
  }

  // ----- Reviewer keys -----

  datatype KeyStatus = Active | Revoked
  datatype ReviewerKey = ReviewerKey(reviewerId: string, publicKey: string, status: KeyStatus)

  /** The trusted reviewer set, by key id. */
  type Reviewers = map<string, ReviewerKey>

  /** The status of the listed key that signed the record, or None when no listed key did. */
  function SignerStatus(c: Codec, trusted: Reviewers, r: Record): Option<KeyStatus> {
    var b := r.signed.body;
    if b.keyId !in trusted || trusted[b.keyId].reviewerId != b.reviewedBy then None
    else if !c.verifies(trusted[b.keyId].publicKey, SignatureDomain() + c.encodeBody(b), r.signed.signature) then None
    else Some(trusted[b.keyId].status)
  }

  /** How a reviewer set may change: keys are added and revoked, never removed, replaced or restored. */
  ghost predicate Grows(before: Reviewers, after: Reviewers) {
    forall k :: k in before ==>
      && k in after
      && after[k].reviewerId == before[k].reviewerId
      && after[k].publicKey == before[k].publicKey
      && (before[k].status == Revoked ==> after[k].status == Revoked)
  }
}
