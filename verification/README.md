# Follon: a verified model of its evidence, replay, signature and publication logic

Follon is a trading system: a Rust kernel with command-line tools, a read-only operator dashboard served from Python, and
release tooling in Python. This project models the parts of it whose correctness is not visible from one function, and
proves what those parts promise.

| modules | what they model |
|---|---|
| EvidenceRecord, EvidenceLedger, EvidenceRoot, EvidenceAnchor, EvidenceReader, EvidenceRefusal | the acceptance ledger: records, hash chains, the ledger root on disk, external anchors, reading while appends go on (`tools/acceptance_evidence.py`) |
| EvidenceAppend, EvidenceStore | appending under the lock file: as a state machine with crashes, I/O errors and readers, and as one undisturbed call on an object |
| EvidenceCounting, EvidenceGates, EvidenceReport, EvidenceAudit | which records count, the gate status and what it says of the records, and the audit as a whole |
| PrimeField, Edwards, EdwardsGroup, LittleEndian, PointCoding, Ed25519 | RFC 8032 as `tools/ed25519.py` implements it |
| CausalGraph, CausalFilter, ReplayCandidates, CausalOrder, ReplayProjection, ReplayAsOf, DecisionReconstruction | the dashboard's causal replay projection, its cutoff in time and its walk back through causes (`apps/desktop/server.py`) |
| LoginLimiter | the dashboard's login limiter, for sequential and for interleaved handlers |
| Calendar, CanonicalTime | canonical UTC timestamps (`core/domain/src/error.rs`) and the dashboard's fractional ones |
| ImmutablePublication | publication of immutable artifacts by staging, syncing and linking (`apps/cli/src/lib.rs`) |
| CursorMerge, FixedPoint | the advanced-account projection of a backtest (`apps/cli/src/backtest.rs`), and the kernel's decimals |
| Protobuf, Csv, SbomMerge, StatementReconciliation | the wire codec of the dynamic scan, the catalogue's CSV automaton, the SBOM merge, broker-statement reconciliation |
| Prelude, Sorting | shared types, string order, sorted sets and stable sorting |

Verify with `dafny verify dfyconfig.toml` (Dafny 4.11).

## What is assumed

- SHA-256, SHA-512, canonical JSON and the Ed25519 check of a reviewer's signature are parameters. `FaithfulJson` says that
  canonical JSON is injective, one line, and parsed back by the parser. Nothing is assumed of SHA-256: the anchor theorem
  says that the claim holds or two records collide. `IsSha512` says only that a digest has 64 octets.
- `IsPrimeField` assumes that the field modulus is prime, in the form of Euclid's lemma and Fermat's theorem. `AdditionLaw`
  assumes that the affine Edwards law is complete, closed and associative. `IsEd25519` assumes that the source's
  SQRT_MINUS_ONE squares to -1, that the curve constant is no square, and that the base point has order GROUP_ORDER; that
  GROUP_ORDER is prime is assumed only where a signature is tied to its message. That
  the extended coordinates of the source compute that law, that scalars act as they should, that decoding finds a root
  whenever there is one, and everything about keys and signatures is proved from these.
- Strings compare code point by code point, as Python does, and as Rust does by comparing UTF-8.

Where two statements of the source disagree, the model follows the code. Seven expectations turn out false of the code, and
each is stated with the exact condition under which it holds:

- The dashboard compares timestamps as strings although it admits fractions. Its cutoff in time can keep a later event:
  `CanonicalTime.StringCutoffIsTemporalExactlyWhen`, `CanonicalTime.FractionSlipsPastCutoff`. The status of a decision can call
  a prompt receipt an anomaly and an early one verified: `DecisionReconstruction.OnTimeIsTrueExactlyWhen`,
  `DecisionReconstruction.StatusIsTrueExactlyWhen`, `DecisionReconstruction.PromptReceiptIsFlagged`,
  `DecisionReconstruction.EarlyReceiptIsVerified`.
- An append never checks the sizes a read enforces: `EvidenceAppend.CompletedAppend`, `EvidenceStore.AppendReadsBack`,
  `EvidenceStore.OneAppendCanStopTheRoot`.
- `require_signed` keys signers by evidence id, so it relies on the unique ids of a verified root:
  `EvidenceCounting.SignersAreRightExactlyWhen`, `EvidenceCounting.UnsignedPassesExactlyWhen`,
  `EvidenceCounting.SharedIdHidesUnsigned`.
- `merge_components` takes what it does not reconcile from the first component:
  `SbomMerge.OthersSurviveExactlyWhenAgreed`, `SbomMerge.OthersDependOnOrder`.
- Corporate actions after the last bar are passed over in silence: `CursorMerge.SuccessMeansApplied`,
  `CursorMerge.TrailingActionIsIgnored`.
- Reconciliation compares only the first internal position of an instrument with the broker's:
  `StatementReconciliation.SumsDecideExactlyWhen`, `StatementReconciliation.SplitLotsMislead`.
- A split does not keep the value of a position, because both the quantity and the mark are truncated:
  `CursorMerge.SplitKeepsValue`, `FixedPoint.HalfOfAThird`.

Four more conditions are of the same kind:

- An audit reads the ledgers one by one and the anchors afterwards, so it can refuse an anchor of the very root it reads:
  `EvidenceReader.AnchorHoldsOnAReadingExactlyWhen`, `EvidenceRefusal.AnchorIssuedMeanwhileIsRefused`.
- The replay as of a moment orphans events whose cause was received later than they were: `ReplayAsOf.ClosedExactlyWhen`,
  `ReplayAsOf.AlwaysClosedExactlyWhen`, `ReplayAsOf.WindowIsCausalExactlyWhen`.
- A signature made with a nonce that is zero modulo the group order is refused by the source's own verifier:
  `Ed25519.SignedMessagesVerify`.
- The seconds that the login limiter tells a client to wait are enough with at most five tracked failures, which sequential
  logins keep to, and can be too few with the six that two interleaved handlers reach: `LoginLimiter.WaitIsEnoughExactlyWhen`,
  `LoginLimiter.WaitIsShortWithSix`, `LoginLimiter.SixIsReached`.

## Model

| member | source | states |
|---|---|---|
| EvidenceLedger.ParseLedger | tools/acceptance_evidence.py:502-525 | succeeds exactly on renderings of verified hash chains whose lines fit, and returns that chain: no other bytes parse |
| EvidenceLedger.RenderIsInjective | tools/acceptance_evidence.py:163-164 | one ledger file has one chain of records |
| EvidenceLedger.PrefixOfRendering | tools/acceptance_evidence.py:502-525 | a partly read ledger is a prefix of every chain the whole file could hold |
| EvidenceRecord.ValidateRecord | tools/acceptance_evidence.py:298-336 | a record passes exactly when it is well formed, follows the expected hash and is hashed over its own content |
| EvidenceRecord.RecordIsValidExactlyWhen | tools/acceptance_evidence.py:230-336 | the same in full: every identifier, digest and attribute by the characters and numbers it may have |
| EvidenceRoot.ReadLedgerRoot | tools/acceptance_evidence.py:568-582 | success returns the sorted ledgers of a root that is sound, within sizes and stored on the disk; failure means the disk stores no such root |
| EvidenceRoot.ReadingIsUnique | tools/acceptance_evidence.py:568-582 | a disk holds at most one root |
| EvidenceAnchor.CheckAnchor | tools/acceptance_evidence.py:657-680 | passes exactly when every anchored ledger still has its anchored record under its anchored hash, and returns whether the anchor covers every ledger at its present length |
| EvidenceAnchor.SameHashSamePrefix | tools/acceptance_evidence.py:206-207 | chains that agree on one hash agree on every record up to it, or two of their records collide: induction backwards along `prev_hash` |
| EvidenceAnchor.AnchorTheorem | tools/acceptance_evidence.py:605-680 | an anchor of one root holds on another exactly when each ledger of the first is an unchanged prefix of the second's, and covers it exactly when the roots are equal, unless the roots contain a hash collision |
| EvidenceAnchor.InjectiveHashNeverCollides | tools/acceptance_evidence.py:206-207 | under an injective hash the anchor theorem is unconditional |
| EvidenceAnchor.OneAnchorPerRoot | tools/acceptance_evidence.py:644-646 | the valid anchors of one root list the same entries in one order |
| EvidenceAppend.StepHolds | tools/acceptance_evidence.py:870-964 | every step of every appender, reader, crash, write error, lock removal and reviewer change keeps the store's invariant |
| EvidenceAppend.AppendsAreExclusive | tools/acceptance_evidence.py:870-889 | in every run at most one process is between taking and releasing the lock |
| EvidenceAppend.RunGrows | tools/acceptance_evidence.py:898-964 | in every run no record, ledger or issued anchor ever goes away |
| EvidenceAppend.AnchorsNeverFail | tools/acceptance_evidence.py:683-699 | every anchor ever issued, even one read file by file during an append, holds on every root read later |
| EvidenceAppend.ReadableExactlyWhen | tools/acceptance_evidence.py:528-582 | the root reads back exactly when no line is unfinished and every size is within its limit |
| EvidenceAppend.CompletedAppend | tools/acceptance_evidence.py:935-964 | a completed append added exactly one record to the root it verified, the caller's template after the head of its ledger, signed and hashed as it stands, with its artifact retained, and the root reads back, as exactly that, if and only if line and ledger fit the sizes |
| EvidenceAppend.SuccessLasts | tools/acceptance_evidence.py:935-964 | whoever is told that its append succeeded has its finished record in the ledger, right behind what it verified there, at every later moment of every run |
| EvidenceAppend.OrphanedLineStopsTheRoot | tools/acceptance_evidence.py:957-963 | once a dead writer leaves part of a line, no read succeeds and the bytes never change again |
| EvidenceReader.EarlierAnchorsHoldOnAReading | tools/acceptance_evidence.py:568-582 | an anchor issued before an audit begins to read, file by file and without the lock, holds on what it has read when it is done |
| EvidenceReader.AnchorHoldsOnAReadingExactlyWhen | tools/acceptance_evidence.py:657-680 | any anchor of a run, whenever it was issued, holds on a reading exactly when nothing anchored is missing from it |
| EvidenceRefusal.AnchorIssuedMeanwhileIsRefused | tools/acceptance_evidence.py:811-816 | from every verified root and for every acceptable append that fits there is a run in which an audit reads a ledger, the append to it completes, another reader anchors the root, the audit reads the rest, and the anchor does not hold on what it has read |
| EvidenceRefusal.FirstRecordIsRefused | tools/acceptance_evidence.py:811-816 | such a run begins at one empty ledger, with a first record that any signer of the reviewer's key can add |
| EvidenceStore.LedgerStore.AppendRecord | tools/acceptance_evidence.py:898-964 | refuses exactly what the checks refuse and then changes nothing; otherwise retains the artifact and appends exactly the line of the template finished with the head it read, its signature and its hash; the lock is as before |
| EvidenceStore.LedgerStore.Verify | tools/acceptance_evidence.py:936-956 | lets through exactly the requests acceptable on the root the disk holds |
| EvidenceStore.HonestAppendIsAcceptedExactlyWhen | tools/acceptance_evidence.py:935-956 | what a signer of its key signs is accepted on a root exactly when the root is signed, the id new, the ledger named as one, the template well formed once it carries the head, and the key listed as active for the reviewer: the signature is of the finished record |
| EvidenceStore.RecordsHaveUniqueIds | tools/acceptance_evidence.py:568-594 | the records of a verified root, listed ledger by ledger, have distinct ids, as `require_signed` needs |
| EvidenceStore.AppendReadsBack | tools/acceptance_evidence.py:517-533 | the appended root is stored, sound and signed throughout, and reads back if and only if line and ledger fit |
| EvidenceStore.LongIdStopsTheRoot | tools/acceptance_evidence.py:517-533 | an accepted append whose id is longer than a line may be leaves a disk that stores no readable root |
| EvidenceStore.OneAppendCanStopTheRoot | tools/acceptance_evidence.py:898-964 | such an append exists for every signer of a listed key: on an empty root every check accepts it, and afterwards nothing reads |
| EvidenceCounting.RequireSigned | tools/acceptance_evidence.py:449-457 | the loop's dict holds, for each id, the status under its last record, and it fails exactly when one is missing |
| EvidenceCounting.UniqueIdsNameSigners | tools/acceptance_evidence.py:449-457 | with unique ids, which a verified root has, the dict names each record's own signer |
| EvidenceCounting.SharedIdHidesUnsigned | tools/acceptance_evidence.py:452 | without them an unsigned record hides behind a signed one |
| EvidenceCounting.SignersAreRightExactlyWhen | tools/acceptance_evidence.py:452 | the dict names each record's own signer exactly when records of one id have one status |
| EvidenceCounting.PassesSignedExactlyWhen | tools/acceptance_evidence.py:452-457 | `require_signed` succeeds exactly when the last record of every id is signed |
| EvidenceCounting.UnsignedPassesExactlyWhen | tools/acceptance_evidence.py:452-457 | it succeeds although a record is unsigned exactly when the last record of every id is signed and one that is not last is unsigned |
| EvidenceCounting.Assess | tools/acceptance_evidence.py:460-499 | one verdict a record, in order, with exactly the reasons that hold of it among all records, in the order the source decides them |
| EvidenceCounting.JudgedMeans | tools/acceptance_evidence.py:478-498 | a verdict lists every reason that holds, none that does not, and none twice |
| EvidenceCounting.CountsExactlyWhen | tools/acceptance_evidence.py:460-499 | what it takes to count, said of the records' own fields: not revoked, retained, of this release, every record of the subject a clean acceptance, the artifact no other subject's, and for customers a subscription of their own and one kind |
| EvidenceCounting.ReasonsInFull | tools/acceptance_evidence.py:477-498 | each reason on its own, in the same fields |
| EvidenceCounting.CleanExactlyWhen | tools/acceptance_evidence.py:270-295 | the criteria in numbers |
| EvidenceGates.ReasonsOnlyGrow | tools/acceptance_evidence.py:460-499 | adding records removes no reason |
| EvidenceGates.RejectionsNeverRaiseCounts | tools/acceptance_evidence.py:438-499 | adding rejections anywhere adds no counted subject to any gate |
| EvidenceGates.RevocationNeverRaisesCounts | tools/acceptance_evidence.py:353-362 | revoking keys adds no counted subject and leaves a signed root signed |
| EvidenceGates.DisqualificationIsFinal | tools/acceptance_evidence.py:438-446 | a disqualified subject is counted in no extension of the records |
| EvidenceGates.CountedArtifactsDiffer | tools/acceptance_evidence.py:468-492 | counted records of different subjects never cite one artifact |
| EvidenceGates.CountedCustomersDiffer | tools/acceptance_evidence.py:493-497 | counted customers never share a subscription, and each has one kind |
| EvidenceGates.ObservedCountsSubjectsOnce | tools/acceptance_evidence.py:755-772 | a gate's total over kinds is its number of distinct counted subjects |
| EvidenceGates.NoMoreSubjectsThanArtifacts | tools/acceptance_evidence.py:468-492 | the counted subjects of all gates are at most as many as the retained artifacts |
| EvidenceGates.GateTotalsWithinArtifacts | tools/acceptance_evidence.py:757-779 | so is the sum of the observed counts of all gates |
| EvidenceGates.RemainingIsZeroExactlyWhenEligible | tools/acceptance_evidence.py:758-776 | a gate has nothing remaining exactly when some alternative is met |
| EvidenceGates.StatusOf | tools/acceptance_evidence.py:727-793 | the walk over the verdicts reports, for every gate, the numbers defined on the set of counting subjects, and under each reason the sorted ids it keeps from counting |
| EvidenceGates.SubjectsAreCounted | tools/acceptance_evidence.py:739-756 | the subjects a status counts are those the records count |
| EvidenceGates.OrderNeverMatters | tools/acceptance_evidence.py:727-793 | no gate depends on the order of the records |
| EvidenceGates.NotCountedNeverDependsOnOrder | tools/acceptance_evidence.py:742-747 | nor does the list under any reason |
| EvidenceGates.IdsNotCountedAre | tools/acceptance_evidence.py:746-747 | under a reason stand the ids of exactly the records for which it holds, once for each |
| EvidenceReport.ReportIsTrue | tools/acceptance_evidence.py:757-779 | every gate, number by number, from the records alone: rows, the nearest row, what is missing, eligibility, observed, rejected and disqualified |
| EvidenceReport.GatesInNumbers | tools/acceptance_evidence.py:758-788 | all gates are eligible exactly with thirty paper sessions, sixty live ones, five partners, one broker, and ten professionals or three organisations |
| EvidenceReport.StatusOfVerdicts | tools/acceptance_evidence.py:727-793 | the whole status says what is true of the records: the numbers, the gates, and under each reason the sorted ids it keeps from counting |
| EvidenceAudit.AuditRoot | tools/acceptance_evidence.py:796-831 | the audit as a whole: succeeds exactly when the disk stores a root on which every anchor holds and every record carries the signature of a key listed for its reviewer, says which anchors cover it, and reports what is true of its records in every number, with no more counted subjects in all than retained artifacts |
| EvidenceAudit.SignedExactlyWhen | tools/acceptance_evidence.py:353-362 | a record has a signer exactly when the key it names is listed for the reviewer it names and verifies the signature of its body under the ledger's domain |
| EvidenceAudit.SoundIsWellTyped | tools/acceptance_evidence.py:230-267 | the records of a verified root have the attributes of their types |
| EvidenceAudit.ReportWithinArtifacts | tools/acceptance_evidence.py:757-779 | the observed counts of a whole report are at most as many as the retained artifacts |
| Ed25519.Pkcs8IsExact | tools/ed25519.py:183-204 | a key file yields a seed exactly when it is one of the two layouts around it, the second with the seed's own public key |
| Ed25519.PrefixesAreDer | tools/ed25519.py:178-185 | the two layouts are DER: each length octet counts what follows it |
| Edwards.AddRepresentsSum | tools/ed25519.py:36-42 | the extended addition computes the affine law for all representatives of all curve points, T = XY/Z included |
| EdwardsGroup.EqualExactlyWhenSame | tools/ed25519.py:55-60 | `_equal` decides whether two representatives stand for one point |
| EdwardsGroup.RepresentsOne | tools/ed25519.py:55-60 | extended coordinates stand for one affine point only |
| EdwardsGroup.Multiply | tools/ed25519.py:45-52 | the double-and-add loop returns a representative of scalar times point |
| EdwardsGroup.LoopMeansSum | tools/ed25519.py:45-52 | the loop's meaning in any state: result plus scalar times point |
| EdwardsGroup.TimesOfSum | tools/ed25519.py:45-52 | (m + n) A = m A + n A |
| EdwardsGroup.TimesOfProduct | tools/ed25519.py:45-52 | (m n) A = m (n A) |
| EdwardsGroup.TimesIsInjective | tools/ed25519.py:19 | two multiples of a point coincide exactly when the scalars agree modulo its order |
| PointCoding.RootIsRoot | tools/ed25519.py:69-72 | the power (p+3)/8, corrected by a root of -1, is a root of every non-zero square |
| PointCoding.RecoverXIsExact | tools/ed25519.py:63-77 | returns x exactly when (x, y) is on the curve, x is a residue and has the wanted parity |
| PointCoding.CompressIsEncode | tools/ed25519.py:85-89 | the encoding depends on the point only, not on its representative |
| PointCoding.EncodeFits | tools/ed25519.py:85-89 | the encoding is y in 32 octets, least significant first, with the parity of x in the highest bit |
| PointCoding.CompressRoundTrip | tools/ed25519.py:85-101 | decoding an encoded point gives an equal point, for every curve point |
| PointCoding.DecompressIsExact | tools/ed25519.py:92-101 | a string decodes only if it is the encoding of a curve point, and to that point |
| PointCoding.DecompressRoundTrip | tools/ed25519.py:85-101 | re-encoding what was decoded gives the string back |
| PointCoding.EncodeIsInjective | tools/ed25519.py:85-89 | different points have different encodings |
| Ed25519.ClampIsOctetwise | tools/ed25519.py:127-134 | the masks on the integer do what section 5.1.5 of RFC 8032 asks of the octets |
| Ed25519.ClampIsNoMultiple | tools/ed25519.py:127-134 | a clamped scalar is never a multiple of the group order |
| Ed25519.ValidPublicKeyIsExact | tools/ed25519.py:109-123 | accepts exactly the encodings of non-neutral points that the group order kills |
| Ed25519.ValidKeysAreNotOfSmallOrder | tools/ed25519.py:104-123 | a key accepted as valid is never refused for small order |
| Ed25519.DerivedKeysAreValid | tools/ed25519.py:137-140 | every public key derived from a seed is valid |
| Ed25519.VerifyIsExact | tools/ed25519.py:154-175 | accepts exactly when key and commitment encode curve points of no small order and the response below the order solves the equation under the hash of commitment, key and message |
| Ed25519.SignedMessagesVerify | tools/ed25519.py:143-175 | for every seed and message, `verify` accepts what `sign` made if and only if the nonce, the hash of prefix and message modulo the order, is not zero |
| Ed25519.SignatureParts | tools/ed25519.py:143-151 | the commitment of a signature encodes the nonce times the base point, and its response is the nonce plus the hash of commitment, key and message times the secret scalar |
| Ed25519.SignatureBindsMessage | tools/ed25519.py:123-175 | a signature that a derived key accepts for one message it accepts for another exactly when the two hashes agree modulo the order |
| Ed25519.OneResponsePerCommitment | tools/ed25519.py:166-175 | two accepted signatures of a message with one commitment are equal |
| CausalFilter.CyclicEventIds | apps/desktop/server.py:773-798 | exactly the events that are their own ancestors |
| CausalFilter.KeepCausallySound | apps/desktop/server.py:1019-1070 | keeps, in order, exactly the candidates whose chain of causes reaches an event without one, and explains every other once |
| CausalFilter.KeptEventsReachRoots | apps/desktop/server.py:1066-1070 | the chains of kept events end inside the kept events |
| ReplayCandidates.Scan | apps/desktop/server.py:942-972 | the candidates are the first occurrences of the keys, in reading order and numbered in it, as many as the cap allows; the repeated keys; and how many first occurrences were omitted |
| ReplayCandidates.FirstPlaces | apps/desktop/server.py:959-972 | the places where a key is read first: all of them, no other, ascending |
| ReplayCandidates.CandidatesOfScan | apps/desktop/server.py:959-972 | each candidate was read, no key has two, and below the cap each key has one |
| ReplayCandidates.SurvivorsAreDistinct | apps/desktop/server.py:997-1017 | no two survivors share an id |
| ReplayCandidates.SurvivorsOccurOnce | apps/desktop/server.py:997-1017 | below the cap the survivors are exactly the events whose id occurs once in the whole scan |
| CausalOrder.CanonicalReplayEvents | apps/desktop/server.py:801-833 | the heap loop returns the events in the greedy causal order, of all that could come next the one received first and retained first, and raises exactly when some event's chain of causes reaches no event without a cause |
| CausalOrder.OrderIsPermutation | apps/desktop/server.py:801-833 | nothing is lost or repeated |
| CausalOrder.ParentComesFirst | apps/desktop/server.py:801-833 | no child precedes its parent |
| CausalOrder.PrefixIsCausallyClosed | apps/desktop/server.py:1144 | the cut after the first records orphans no event |
| CausalOrder.OrderIsUnique | apps/desktop/server.py:758-763 | whatever the order of the input there is one such order |
| CausalOrder.GreedyIsEarliestFirst | apps/desktop/server.py:758-833 | said in receive times and retained places alone: what comes at a place arrived no later than anything that could have come there |
| CausalOrder.EarliestFirstIsUnique | apps/desktop/server.py:758-763 | and events with places of their own have one such order |
| CausalOrder.OrderIsArrivalWhenCausesArriveFirst | apps/desktop/server.py:801-833 | when no event arrived before its cause it is the order of arrival |
| CausalOrder.OrderIsSortWhenCausesComeEarlier | apps/desktop/server.py:801-833 | it is the plain sort by key when every parent's key is below its child's |
| ReplayProjection.ReplayEvents | apps/desktop/server.py:942-1083 | scan, duplicate elimination, filter and order together: never raises; below the cap an id is shown exactly when it is read once in the whole scan and its chain of causes ends among such events; each event shown is the scan's own under its number; and the order is the causal one that always takes what was received first |
| ReplayProjection.UniqueGraphIsOnceGraph | apps/desktop/server.py:997-1022 | below the cap the causes among the survivors are those read off the scan |
| ReplayAsOf.ScanGivesReplay | apps/desktop/server.py:1071-1083 | what the filter in time is given: ids are distinct, every cause is there and every chain is complete |
| ReplayAsOf.OrphansExactlyWhen | apps/desktop/server.py:1115 | the chain of an event still shown is complete exactly when no ancestor was received after the cutoff, and its own cause is there exactly when that was not |
| ReplayAsOf.ClosedExactlyWhen | apps/desktop/server.py:1115 | what is shown is closed under causation exactly when no event shown has a cause received after the cutoff |
| ReplayAsOf.AlwaysClosedExactlyWhen | apps/desktop/server.py:1115 | it is closed for every cutoff exactly when no event was received, as strings compare, before its cause |
| ReplayAsOf.WindowIsCausalExactlyWhen | apps/desktop/server.py:1144-1147 | the window that is shown, cut anywhere, is the causal prefix it is labelled as exactly when no event shown has a cause received after the cutoff |
| DecisionReconstruction.BuildDecisionReconstruction | apps/desktop/server.py:1163-1239 | the chain back from the target, incomplete exactly when it leaves the events, verified exactly when it ends at an event without a cause and no receive time on it is below its event time as a string, and never longer than there are events |
| DecisionReconstruction.OnTimeIsTrueExactlyWhen | apps/desktop/server.py:1201-1204 | the comparison of one event's two times is right about the instants exactly when the fractions compare reliably; it passes an early receipt exactly when the event's fraction extends the receipt's by more than zeros, and flags a timely one exactly when the receipt's extends the event's |
| DecisionReconstruction.StatusIsTrueExactlyWhen | apps/desktop/server.py:1201-1204 | on a complete chain verified means that no event was received before it happened, and an anomaly that some event was, exactly unless nothing is flagged and an early receipt slips through, or all that is flagged is flagged wrongly and nothing slips through |
| DecisionReconstruction.ReliableChainsAreJudgedRight | apps/desktop/server.py:1201-1204 | so the status is right about the instants on every complete chain whose times all compare reliably |
| DecisionReconstruction.PromptReceiptIsFlagged | apps/desktop/server.py:1203-1204 | an event on any whole second, received half a second later, is reported as an anomaly |
| DecisionReconstruction.EarlyReceiptIsVerified | apps/desktop/server.py:1203-1204 | an event half a second past any whole second, received on that second, is verified |
| DecisionReconstruction.StopsInCycle | apps/desktop/server.py:1192-1194 | a walk that meets itself neither ends nor leaves |
| DecisionReconstruction.ReconstructShown | apps/desktop/server.py:1084-1239 | on the presented events, cut after the newest thousand, the walk is incomplete exactly when an ancestor was cut, and never while a thousand or fewer are kept; otherwise its status is right about the instants exactly unless the strings mislead |
| DecisionReconstruction.PresentedAreNewest | apps/desktop/server.py:1084-1139 | the events presented are in order, a thousand at most, and nothing that is cut comes before any of them |
| DecisionReconstruction.ChainInPart | apps/desktop/server.py:1139-1171 | in a part of the kept events a chain leaves exactly when something on it is missing, and otherwise ends at its root |
| CanonicalTime.LexicalOrderIsTemporalOrder | core/domain/src/error.rs:42-64 | on accepted timestamps string order is the order of the instants, and no instant has two spellings |
| CanonicalTime.EpochSecondsMergeOnlyLeapSeconds | apps/cli/src/backtest.rs:2330-2333 | whole seconds merge only a leap second with the second before it |
| CanonicalTime.LeapSecondsEndMonths | core/domain/src/error.rs:58 | a sixtieth second is accepted exactly before the first day of a month, as the last nanosecond before it |
| CanonicalTime.LedgerTimestampsAreCanonical | tools/acceptance_evidence.py:214-222 | the acceptance ledger admits exactly the canonical timestamps that are no leap second and not of year 0 |
| CanonicalTime.WholeSecondsAreLedgerTimestamps | apps/desktop/server.py:93-95 | without a fraction the dashboard admits what the acceptance ledger does |
| CanonicalTime.StringCutoffIsTemporalExactlyWhen | apps/desktop/server.py:1113-1116 | the string cutoff is the cutoff in time exactly when the fractions compare reliably |
| CanonicalTime.FractionSlipsPastCutoff | apps/desktop/server.py:1113-1116 | half a second past a whole-second cutoff an event is kept |
| Calendar.EarlierDateEarlierDay | core/domain/src/error.rs:58 | dates compare by days elapsed, month lengths and leap years included |
| Calendar.DaysInClosedForm | core/domain/src/error.rs:58 | the number of a day is that of the Gregorian calendar in closed form |
| ImmutablePublication.StepHolds | apps/cli/src/lib.rs:14-85 | every step of every call, crash and power loss keeps the invariant and a legal history of an atomic write-once register |
| ImmutablePublication.AbsentOrComplete | apps/cli/src/lib.rs:9-13 | the path is absent or holds one call's complete contents, or what it held before |
| ImmutablePublication.ContentsNeverChange | apps/cli/src/lib.rs:9-13 | once present the contents never change |
| ImmutablePublication.LossKeepsOrRemoves | apps/cli/src/lib.rs:49-58 | power loss keeps the published contents whole or loses the name |
| ImmutablePublication.AnswersAreTrue | apps/cli/src/lib.rs:21-85 | `Ok` means the path holds the caller's contents, the conflict error that it holds others, at any later moment before a power loss |
| ImmutablePublication.FailuresHaveCauses | apps/cli/src/lib.rs:21-85 | a call fails otherwise than by the conflict only if the operating system reported an error to it |
| ImmutablePublication.RealTimeOrder | apps/cli/src/lib.rs:14-85 | the calls take effect in an order that respects real time: linearizability |
| ImmutablePublication.OnlyItsOwnerRemovesAFile | apps/cli/src/lib.rs:49-83 | a staging file disappears only by the call that created it |
| ImmutablePublication.OthersKeepTheirFiles | apps/cli/src/lib.rs:38-83 | no call removes another call's staging file |
| ImmutablePublication.Directory.WriteImmutable | apps/cli/src/lib.rs:14-85 | one undisturbed call, with any faults: the outcome, the file and the staging files after it |
| CursorMerge.AdvancedAccountProjection | apps/cli/src/backtest.rs:2335-2479 | the loops compute the specified projection, error by error |
| CursorMerge.EveryStreamMerges | apps/cli/src/backtest.rs:2353-2465 | after every stream the operations are exactly the scheduled items due by the greatest bar time so far, each once and in order, with the stream's fills, and every mark seen is that of the steps before |
| CursorMerge.EachEventExtends | apps/cli/src/backtest.rs:2353-2465 | a bar adds its corporate actions, then delistings, then accruals, then its own positive close; a fill adds its trade at the marks so far; and the account accepted each |
| CursorMerge.EachEventFails | apps/cli/src/backtest.rs:2353-2465 | which event stops a stream and why: the first thing wrong with a fill, or a bar whose close is not positive, whose split overflows or one of whose items the account refuses |
| CursorMerge.FillsSeeEarlierCloses | apps/cli/src/backtest.rs:2385-2398 | a fill sees the closes of the bars before it and no other |
| CursorMerge.MarkIsLastClose | apps/cli/src/backtest.rs:2410-2422 | a mark is the last close divided by every later split's ratio |
| CursorMerge.NoMarkBeforeAClose | apps/cli/src/backtest.rs:2341 | an instrument that never closed has no mark |
| CursorMerge.MarksStayNonNegative | apps/cli/src/backtest.rs:2410-2463 | no mark is ever negative |
| CursorMerge.SplitKeepsValue | apps/cli/src/backtest.rs:2410-2422 | a split that truncates the quantity and the mark lowers the size of the value, long or short, by less than a unit of the mark for each unit of quantity and a unit of quantity at the new mark; exactly when it keeps the value; other marks stay |
| FixedPoint.QuotientLeaves | core/domain/src/decimal.rs:63-82 | what truncating division leaves out is smaller than the divisor, has the sign of the dividend, and is nothing exactly when the divisor divides |
| FixedPoint.SplitIsExactExactlyWhen | core/backtest/src/lib.rs:1199-1207 | a split keeps the value exactly when the ratio divides the mark, or there is no position, and the multiplied quantity needs no more than eight decimals, or the new mark is zero |
| FixedPoint.HalfOfAThird | core/backtest/src/lib.rs:1203 | one share is split at 0.33333333, its instrument closes at 1000 and sets the mark, and a split at 0.5 then loses a hundred-thousandth |
| CursorMerge.SuccessMeansApplied | apps/cli/src/backtest.rs:2467-2472 | on success every delisting and accrual was applied, and every corporate action if and only if none lies after the greatest bar time |
| CursorMerge.OutsideRangeExactlyWhen | apps/cli/src/backtest.rs:2467-2472 | the range error occurs exactly when a delisting or accrual lies after the greatest bar time |
| CursorMerge.SucceedsExactlyWhen | apps/cli/src/backtest.rs:2467-2479 | a stream that runs succeeds exactly when it has a bar, nothing of two schedules lies after the greatest bar time, and the last bar's time is canonical |
| CursorMerge.TrailingActionIsIgnored | apps/cli/src/backtest.rs:2404-2407 | a corporate action after the last bar is passed over without an error |
| CursorMerge.PreparationSchedules | apps/cli/src/backtest.rs:2343-2347 | the sorts permute the schedules into time order, as the merge needs, corporate actions of one time by id and the others as they were given |
| CursorMerge.CutIsTemporal | apps/cli/src/backtest.rs:2404-2407 | on canonical timestamps applied means in effect no later than the latest bar |
| LoginLimiter.Limiter.RetryAfter | apps/desktop/server.py:203-216 | the table pruned, and the wait of what is left |
| LoginLimiter.Limiter.RecordFailure | apps/desktop/server.py:219-234 | the failure recorded, after evicting a client whose last failure is oldest if the table is full |
| LoginLimiter.Limiter.Login | apps/desktop/server.py:1364-1373 | one login from check to answer |
| LoginLimiter.LoginMeans | apps/desktop/server.py:1364-1373 | while blocked nothing is recorded, a login that succeeds forgets the client, and one that fails puts its moment behind the failures of the last minute |
| LoginLimiter.LoginLeavesOthers | apps/desktop/server.py:219-239 | no other client is touched but the one that makes room for a failure in a full table |
| LoginLimiter.LoginGrowsBelowTheBound | apps/desktop/server.py:225-231 | the table grows only while it has fewer than ten thousand clients |
| LoginLimiter.FailuresAreSpaced | apps/desktop/server.py:197-239 | in every sequential run six successive failures span the window, one to five are tracked, and the table keeps its size |
| LoginLimiter.BlockedExactlyWhile | apps/desktop/server.py:203-216 | a client is blocked exactly while some failure with four or more after it is inside the window, in whatever order the deque is |
| LoginLimiter.WaitIsEnough | apps/desktop/server.py:214-216 | with at most five failures, in whatever order, waiting as told is enough |
| LoginLimiter.WaitIsBounded | apps/desktop/server.py:216 | the wait is at least a second, and at most sixty exactly when the first failure is not later than the check |
| LoginLimiter.WaitIsLeast | apps/desktop/server.py:216 | the wait is the least whole number of seconds after which the first failure has expired, and with at most five failures the least that unblocks |
| LoginLimiter.WaitIsEnoughExactlyWhen | apps/desktop/server.py:214-216 | with any number of failures waiting as told unblocks exactly when every one with four or more after it has expired by then |
| LoginLimiter.WaitIsShortWithSix | apps/desktop/server.py:214-216 | with six failures it is too short |
| LoginLimiter.SixIsReached | apps/desktop/server.py:1364-1373 | two interleaved handlers reach those six failures |
| LoginLimiter.WaitingUnblocks | apps/desktop/server.py:1364-1373 | in every sequential run waiting out the seconds first told unblocks, however often the client retried meanwhile |
| LoginLimiter.ThreadedRunHolds | apps/desktop/server.py:203-239 | in every interleaving of k handlers a client is tracked with at most 4 + k failures, never none |
| LoginLimiter.BoundIsReached | apps/desktop/server.py:1364-1373 | for every k some interleaving reaches 4 + k |
| Protobuf.Varint | tools/dast_scan.py:172-179 | the loop writes the base-128 form |
| Protobuf.LoopReadsVarint | tools/dast_scan.py:200-207 | the shifting loop computes the value of the digits, least significant first |
| Protobuf.VarintRoundTrip | tools/dast_scan.py:172-207 | reading inverts writing, whatever follows |
| Protobuf.FieldBegins | tools/dast_scan.py:182-192 | a field is its number and wire type in one varint, then the number, or the length and the data |
| Protobuf.PbFields | tools/dast_scan.py:195-232 | the dictionary of exactly the fields read, or the first error |
| Protobuf.GroupIsExact | tools/dast_scan.py:218-228 | under each field number its values in order, and no other number |
| Protobuf.TruncationIsExact | tools/dast_scan.py:195-232 | what the decoder makes of every prefix of every message: an error inside a varint, a silently shortened payload inside one |
| Protobuf.RoundTrip | tools/dast_scan.py:182-232 | decoding the encodings of any fields gives them back |
| Protobuf.EncodingIsInjective | tools/dast_scan.py:182-192 | different messages have different encodings |
| Protobuf.NestedRoundTrip | tools/dast_scan.py:187-188 | a message inside a field decodes in turn |
| Csv.ParseCsv | apps/desktop/src/catalog.ts:338-374 | the index loop computes the automaton's rows |
| Csv.TextIsKept | apps/desktop/src/catalog.ts:338-374 | whatever the text, every character that is no structure ends up in the cells, in its order: outside quotes commas and breaks go, and quotes but the second of two inside quotes |
| Csv.RoundTrip | apps/desktop/src/catalog.ts:338-374 | every printing of a table under section 2 of RFC 4180, whatever is quoted and however lines break, reads back as the table minus its blank rows |
| Csv.ReadingIsIdempotent | apps/desktop/src/catalog.ts:338-374 | what is read from any text, printed and read again, is the same table |
| SbomMerge.MergeComponents | tools/generate_sbom.py:188-213 | the in-place loop computes the specified merge and lists it by key |
| SbomMerge.MergeIsExact | tools/generate_sbom.py:190-212 | fails exactly when two components of one key carry different values for a field; otherwise one entry a key, holding what its components carry and declare |
| SbomMerge.ConflictIsReal | tools/generate_sbom.py:207-211 | the conflict that is reported is one: two components of a key with that ecosystem and name carry different values for that field |
| SbomMerge.OrderDoesNotMatter | tools/generate_sbom.py:204-213 | permuting the input changes neither failure nor keys, reconciled values and places |
| SbomMerge.OthersDependOnOrder | tools/generate_sbom.py:199-203 | what is not reconciled comes from the first component |
| SbomMerge.OthersSurviveExactlyWhenAgreed | tools/generate_sbom.py:198-212 | that part survives every permutation of the input exactly when the components of the key agree on it |
| SbomMerge.MergeIsIdempotent | tools/generate_sbom.py:188-213 | merging a merge's output changes nothing |
| StatementReconciliation.ReconcileStatement | core/accounting/src/statement.rs:105-192 | the loops over both sides compute the specified incidents or the first error |
| StatementReconciliation.CashIsExact | core/accounting/src/statement.rs:113-124 | cash rows are accepted exactly when all parse and no currency repeats, and the map is then the rows |
| StatementReconciliation.PositionsAreExact | core/accounting/src/statement.rs:151-164 | the same of position rows |
| StatementReconciliation.RefusedForFirstBadRow | core/accounting/src/statement.rs:113-164 | a statement is refused for the first row that something is wrong with, and for the first thing wrong with it, the cash rows before the positions |
| StatementReconciliation.HeldIsExact | core/accounting/src/statement.rs:166-178 | for all lists of positions: each is compared with the broker's quantity the first time and with zero after that |
| StatementReconciliation.IncidentsAreExact | core/accounting/src/statement.rs:126-189 | with distinct instruments the incidents are exactly the differences, with the true values, each subject once |
| StatementReconciliation.EmptyExactlyWhenAgreed | core/accounting/src/statement.rs:104-110 | the list is empty exactly when the books agree |
| StatementReconciliation.PositionsPassExactlyWhen | core/accounting/src/statement.rs:166-189 | without distinct instruments: what an empty list of position incidents means |
| StatementReconciliation.EmptyLotsPassByTheirSums | core/accounting/src/statement.rs:166-189 | when the later positions of every instrument are empty, no incident means that the sums agree |
| StatementReconciliation.SumsDecideExactlyWhen | core/accounting/src/statement.rs:166-189 | for every broker side, no incident means that the sums agree, exactly under that condition |
| StatementReconciliation.SplitLotsMislead | core/accounting/src/statement.rs:166-178 | two lots that add up to the broker's quantity give two false incidents |
| StatementReconciliation.RowOrderDoesNotMatter | core/accounting/src/statement.rs:113-164 | permuting the statement's rows changes neither acceptance nor the incidents |
| StatementReconciliation.FromRecords | core/accounting/src/statement.rs:65-101 | the loop computes the statement of the records or stops at the first short one |
| StatementReconciliation.StatementIsExact | core/accounting/src/statement.rs:69-100 | a statement is read exactly when no record is short, and holds each row as often as the records do |
| StatementReconciliation.RecordOrderDoesNotMatter | core/accounting/src/statement.rs:65-192 | from CSV records to incidents: their order changes neither refusal nor incidents |

## Left out

- SHA-256, SHA-512, JSON, regular expressions, UTF-8 and the RFC 3339 parser: parameters or predicates on what they return.
- The primality of the field and of the group order, Fermat's theorem and the group law: assumed, as listed above.
- Files and the network: only the steps that publication, locking and appending depend on. Symbolic-link and path checks,
  permissions, HTTP, gRPC and subprocesses are not part of this model.
- `load_trusted_reviewers`, `read_anchor` and the command line of `tools/acceptance_evidence.py`: parsing around what is modelled; `tools/release_promotion_gate.py` adds guards over their result.
- The kernel's `AdvancedBacktestAccount`, `MultiCurrencyLedger` and `ReplayEngine`: the account is the sequence of operations
  handed to it and an arbitrary refusal of any of them, and of its arithmetic only what a split does to a quantity; a ledger
  is a map. Of `Decimal` only multiplication and division are modelled.
- CursorMerge.AdvancedAccountProjection: starts from decoded events and stops before the report, because the JSON fields and
  the report's arithmetic are not part of this model.
- `deterministic_bps_offset`, `drop_bars`, `jitter_bars` and `shock_bars_from`: short arithmetic on copied bars.
- StatementReconciliation.FromRecords: starts from the records the CSV library reads, and reports a short one by its place.
- LoginLimiter.Limiter.RecordFailure: any client whose last failure is oldest may be evicted, because which of several is
  depends on the dictionary's insertion order.
- Protobuf.Varint: numbers from zero up, because the source's loop never ends on a negative one.
- DecisionReconstruction.BuildDecisionReconstruction: the walk and its status; hashes, summaries and the clock are not modelled.
- EvidenceStore.LedgerStore.AppendRecord: no I/O errors, because EvidenceAppend has them at every step.
- ImmutablePublication.Directory.WriteImmutable: no other call at work, because the state machine has them.
- The bit operations of the source are written as arithmetic: `|` of disjoint bits is a sum, shifts and masks are quotients and
  remainders by powers of two.
- Rendering, workspaces, fixture data, CLI parsing and database recovery: no property that spans functions.
