/** Publication of one immutable file as a state machine: any number of concurrent calls, each staging its contents,
    syncing them and linking the final name, with I/O errors and crashes at every step and power loss. */
module ImmutablePublication {
  import opened Prelude

  datatype Inode = Inode(contents: string, synced: bool)

  /** A staging file's name carries the process id and the first digits of the contents' digest. */
  datatype Name = Name(pid: nat, tag: string)

  datatype Outcome = Ok | Conflict | Failed

  datatype Phase =
    | Begun
    | Reading
    | Creating
    | Writing(inode: nat, written: nat)
    | Cleaning(inode: nat)
    | Synced(inode: nat)
    | Linked(inode: nat)
    | Losing(inode: nat)
    | Compared(inode: nat, existing: Option<string>)
    | Returned(outcome: Outcome)
    | Dead
  {
    /** The call has created its staging file and not yet removed it. */
    predicate OwnsStaging() { Writing? || Cleaning? || Synced? || Linked? || Losing? || Compared? }
  }

  datatype Call = Call(pid: nat, contents: string, phase: Phase)

  /** What an atomic register would have done, in order: a publication tried, with its answer, or the file lost. */
  datatype Entry = Published(id: nat, contents: string, ok: bool) | Vanished

  datatype Files = Files(target: Option<nat>, staging: map<Name, nat>, inodes: map<nat, Inode>)

  /** `log` is history: the order in which the calls took effect. */
  datatype State = State(files: Files, calls: map<nat, Call>, log: seq<Entry>)

  datatype Event =
    | Start(id: nat, pid: nat, contents: string)
    | Exists(id: nat)
    | Read(id: nat)
    | ReadError(id: nat)
    | Create(id: nat, inode: nat)
    | CreateError(id: nat)
    | Write(id: nat, upto: nat)
    | WriteError(id: nat)
    | Sync(id: nat)
    | Link(id: nat)
    | LinkError(id: nat)
    | Remove(id: nat)
    | RemoveError(id: nat)
    | Crash(id: nat)
    | PowerLoss(after: Files)

  /** The digest prefix of some contents. */
  type Tagger = string -> string

  function NameOf(tag: Tagger, call: Call): Name {
    Name(call.pid, tag(call.contents))
  }

  /** What a reader of the path finds. */
  function Visible(files: Files): Option<string> {
    if files.target.Some? && files.target.value in files.inodes
    then Some(files.inodes[files.target.value].contents)
    else None
  }

  /** Power loss keeps synced data, cuts unsynced data anywhere, and may drop directory entries. */
  ghost predicate Survives(before: Files, after: Files) {
    && (after.target == before.target || after.target == None)
    && (forall n :: n in after.staging ==> n in before.staging && after.staging[n] == before.staging[n])
    && after.inodes.Keys == before.inodes.Keys
    && (forall i :: i in before.inodes ==>
          && (before.inodes[i].synced ==> after.inodes[i] == before.inodes[i])
          && (!before.inodes[i].synced ==>
                !after.inodes[i].synced && after.inodes[i].contents <= before.inodes[i].contents))
  }

  ghost predicate Enabled(tag: Tagger, s: State, e: Event) {
    match e
    case Start(id, pid, contents) => id !in s.calls
    case Exists(id) => id in s.calls && s.calls[id].phase.Begun?
    case Read(id) =>
      id in s.calls && (s.calls[id].phase.Reading? || s.calls[id].phase.Losing?) && Visible(s.files).Some?
    case ReadError(id) => id in s.calls && (s.calls[id].phase.Reading? || s.calls[id].phase.Losing?)
    case Create(id, inode) =>
      && id in s.calls && s.calls[id].phase.Creating?
      && NameOf(tag, s.calls[id]) !in s.files.staging && inode !in s.files.inodes
    case CreateError(id) => id in s.calls && s.calls[id].phase.Creating?
    case Write(id, upto) =>
      id in s.calls && s.calls[id].phase.Writing? && s.calls[id].phase.written < upto <= |s.calls[id].contents|
    case WriteError(id) => id in s.calls && s.calls[id].phase.Writing?
    case Sync(id) =>
      id in s.calls && s.calls[id].phase.Writing? && s.calls[id].phase.written == |s.calls[id].contents|
    case Link(id) => id in s.calls && s.calls[id].phase.Synced?
    case LinkError(id) => id in s.calls && s.calls[id].phase.Synced?
    case Remove(id) =>
      id in s.calls && (s.calls[id].phase.Cleaning? || s.calls[id].phase.Linked? || s.calls[id].phase.Compared?)
    case RemoveError(id) =>
      id in s.calls && (s.calls[id].phase.Cleaning? || s.calls[id].phase.Linked? || s.calls[id].phase.Compared?)
    case Crash(id) => id in s.calls && !s.calls[id].phase.Returned?
    case PowerLoss(after) => Survives(s.files, after)
  }

  function Moved(s: State, id: nat, phase: Phase): State
    requires id in s.calls
  {
    s.(calls := s.calls[id := s.calls[id].(phase := phase)])
  }

  function Logged(s: State, id: nat, ok: bool): State
    requires id in s.calls
  {
    s.(log := s.log + [Published(id, s.calls[id].contents, ok)])
  }

  function Answer(existing: Option<string>, contents: string): Outcome {
    match existing
    case None => Failed
    case Some(text) => if text == contents then Ok else Conflict
  }

  /** What a call returns once its staging file is out of the way. */
  function AfterRemoval(call: Call): Outcome {
    match call.phase
    case Linked(_) => Ok
    case Compared(_, existing) => Answer(existing, call.contents)
    case _ => Failed
  }

  /** The state after an event. */
  ghost function Next(tag: Tagger, s: State, e: Event): State
    requires Enabled(tag, s, e)
  {
    match e
    case Start(id, pid, contents) => s.(calls := s.calls[id := Call(pid, contents, Begun)])
    case Exists(id) => Moved(s, id, if s.files.target.Some? then Reading else Creating)
    case Read(id) =>
      var call, found := s.calls[id], Visible(s.files);
      Moved(Logged(s, id, found == Some(call.contents)), id,
            if call.phase.Losing? then Compared(call.phase.inode, found) else Returned(Answer(found, call.contents)))
    case ReadError(id) =>
      var call := s.calls[id];
      Moved(s, id, if call.phase.Losing? then Compared(call.phase.inode, None) else Returned(Failed))
    case Create(id, inode) =>
      Moved(s, id, Writing(inode, 0))
        .(files := s.files.(staging := s.files.staging[NameOf(tag, s.calls[id]) := inode],
                            inodes := s.files.inodes[inode := Inode("", false)]))
    case CreateError(id) => Moved(s, id, Returned(Failed))
    case Write(id, upto) =>
      var call := s.calls[id];
      Moved(s, id, Writing(call.phase.inode, upto))
        .(files := s.files.(inodes := s.files.inodes[call.phase.inode := Inode(call.contents[..upto], false)]))
    case WriteError(id) => Moved(s, id, Cleaning(s.calls[id].phase.inode))
    case Sync(id) =>
      var i := s.calls[id].phase.inode;
      Moved(s, id, Synced(i))
        .(files := s.files.(inodes := s.files.inodes[i := Inode(s.calls[id].contents, true)]))
    case Link(id) =>
      var i := s.calls[id].phase.inode;
      if s.files.target.Some? then Moved(s, id, Losing(i))
      else Moved(Logged(s, id, true), id, Linked(i)).(files := s.files.(target := Some(i)))
    case LinkError(id) => Moved(s, id, Cleaning(s.calls[id].phase.inode))
    case Remove(id) =>
      Moved(s, id, Returned(AfterRemoval(s.calls[id])))
        .(files := s.files.(staging := s.files.staging - {NameOf(tag, s.calls[id])}))
    case RemoveError(id) => Moved(s, id, Returned(Failed))
    case Crash(id) => Moved(s, id, Dead)
    case PowerLoss(after) =>
      State(after, map id | id in s.calls :: if s.calls[id].phase.Returned? then s.calls[id] else s.calls[id].(phase := Dead),
            if after.target == s.files.target then s.log else s.log + [Vanished])
  }

  // ----- The register the file refines -----

  /** The contents of an atomic write-once register after an entry. */
  function After(value: Option<string>, entry: Entry): Option<string> {
    match entry
    case Vanished => None
    case Published(_, contents, _) => if value.None? then Some(contents) else value
  }

  /** The answer an atomic write-once register gives: yes when it was empty or held the very contents. */
  predicate Answers(value: Option<string>, entry: Entry) {
    entry.Published? ==> (entry.ok <==> value.None? || value == Some(entry.contents))
  }

  function Value(initial: Option<string>, log: seq<Entry>): Option<string> {
    if log == [] then initial else After(Value(initial, log[..|log| - 1]), log[|log| - 1])
  }

  predicate Legal(initial: Option<string>, log: seq<Entry>) {
    log == [] || (Legal(initial, log[..|log| - 1]) && Answers(Value(initial, log[..|log| - 1]), log[|log| - 1]))
  }

  // ----- What every step keeps -----

  ghost predicate Owned(tag: Tagger, files: Files, call: Call, inode: nat) {
    && NameOf(tag, call) in files.staging && files.staging[NameOf(tag, call)] == inode
    && inode in files.inodes
  }

  /** What holds of the files for a call, by its phase. */
  ghost predicate CallHolds(tag: Tagger, files: Files, call: Call) {
    match call.phase
    case Reading => files.target.Some?
    case Writing(i, written) =>
      && Owned(tag, files, call, i) && files.target != Some(i)
      && written <= |call.contents| && files.inodes[i] == Inode(call.contents[..written], false)
    case Cleaning(i) => Owned(tag, files, call, i) && files.target != Some(i)
    case Synced(i) =>
      Owned(tag, files, call, i) && files.target != Some(i) && files.inodes[i] == Inode(call.contents, true)
    case Linked(i) => Owned(tag, files, call, i) && files.target == Some(i)
    case Losing(i) => Owned(tag, files, call, i) && files.target.Some? && files.target != Some(i)
    case Compared(i, existing) => Owned(tag, files, call, i) && files.target.Some? && files.target != Some(i)
    case _ => true
  }

  ghost predicate CallsHold(tag: Tagger, files: Files, calls: map<nat, Call>) {
    forall id :: id in calls ==> CallHolds(tag, files, calls[id])
  }

  /** No two calls at work share a staging file. */
  ghost predicate Separate(tag: Tagger, calls: map<nat, Call>) {
    forall i, j :: i in calls && j in calls && i != j && calls[i].phase.OwnsStaging() && calls[j].phase.OwnsStaging() ==>
      calls[i].phase.inode != calls[j].phase.inode && NameOf(tag, calls[i]) != NameOf(tag, calls[j])
  }

  /** Names lead to inodes, and the published one is on disk for good. */
  ghost predicate FilesHold(files: Files) {
    && (forall n :: n in files.staging ==> files.staging[n] in files.inodes)
    && (files.target.Some? ==> files.target.value in files.inodes && files.inodes[files.target.value].synced)
  }

  /** The calls that have taken effect. */
  predicate Effective(phase: Phase) {
    phase.Linked? || phase.Compared? || phase.Returned? || phase.Dead?
  }

  /** The answer a call has fixed. */
  ghost predicate Settled(log: seq<Entry>, id: nat, call: Call) {
    match call.phase
    case Linked(_) => Published(id, call.contents, true) in log
    case Compared(_, Some(text)) => Published(id, call.contents, text == call.contents) in log
    case Returned(Ok) => Published(id, call.contents, true) in log
    case Returned(Conflict) => Published(id, call.contents, false) in log
    case _ => true
  }

  /** Every entry is the effect of a call. */
  ghost predicate EntriesAreEffects(log: seq<Entry>, calls: map<nat, Call>) {
    forall e :: e in log && e.Published? ==>
      e.id in calls && calls[e.id].contents == e.contents && Effective(calls[e.id].phase)
  }

  /** No call takes effect twice. */
  ghost predicate EffectsAreUnique(log: seq<Entry>) {
    forall i, j :: 0 <= i < j < |log| && log[i].Published? && log[j].Published? ==> log[i].id != log[j].id
  }

  /** Every definite answer is an entry. */
  ghost predicate AnswersAreEntries(log: seq<Entry>, calls: map<nat, Call>) {
    forall id :: id in calls ==> Settled(log, id, calls[id])
  }

  ghost predicate LogMatches(log: seq<Entry>, calls: map<nat, Call>) {
    EntriesAreEffects(log, calls) && EffectsAreUnique(log) && AnswersAreEntries(log, calls)
  }

  /** The log is a legal history of the register, and leaves it as the path is. */
  ghost predicate Refines(initial: Option<string>, s: State) {
    Legal(initial, s.log) && Value(initial, s.log) == Visible(s.files)
  }

  ghost predicate Inv(tag: Tagger, initial: Option<string>, s: State) {
    && CallsHold(tag, s.files, s.calls) && Separate(tag, s.calls) && FilesHold(s.files)
    && LogMatches(s.log, s.calls) && Refines(initial, s)
  }

  /** Any directory, with whatever staging files were left behind, and no call yet. */
  ghost predicate Init(initial: Option<string>, s: State) {
    FilesHold(s.files) && Visible(s.files) == initial && s.calls == map[] && s.log == []
  }

  lemma InitHolds(tag: Tagger, initial: Option<string>, s: State)
    requires Init(initial, s)
    ensures Inv(tag, initial, s)
  {
  }

  lemma StepKeepsFiles(tag: Tagger, s: State, e: Event)
    requires FilesHold(s.files) && CallsHold(tag, s.files, s.calls) && Enabled(tag, s, e)
    ensures FilesHold(Next(tag, s, e).files)
  {
  }

  /** Events that leave the directory alone. */
  predicate IsQuiet(e: Event) {
    e.Start? || e.Exists? || e.Read? || e.ReadError? || e.CreateError? || e.WriteError? || e.LinkError? || e.RemoveError?
    || e.Crash?
  }

  /** Only creation gives a call a staging file. */
  lemma StagingIsInherited(tag: Tagger, s: State, e: Event, id: nat)
    requires Enabled(tag, s, e) && id in Next(tag, s, e).calls && Next(tag, s, e).calls[id].phase.OwnsStaging()
    requires !(e.Create? && e.id == id)
    ensures id in s.calls && s.calls[id].phase.OwnsStaging()
    ensures var call := Next(tag, s, e).calls[id];
            call.phase.inode == s.calls[id].phase.inode && NameOf(tag, call) == NameOf(tag, s.calls[id])
  {
  }

  lemma NewStagingIsApart(tag: Tagger, s: State, e: Event, id: nat)
    requires CallsHold(tag, s.files, s.calls) && Enabled(tag, s, e) && e.Create?
    requires id in s.calls && id != e.id && s.calls[id].phase.OwnsStaging()
    ensures var call := Next(tag, s, e).calls[e.id];
            call.phase.inode != s.calls[id].phase.inode && NameOf(tag, call) != NameOf(tag, s.calls[id])
  {
    assert CallHolds(tag, s.files, s.calls[id]);
  }

  lemma StepKeepsSeparate(tag: Tagger, s: State, e: Event)
    requires CallsHold(tag, s.files, s.calls) && Separate(tag, s.calls) && Enabled(tag, s, e)
    ensures Separate(tag, Next(tag, s, e).calls)
  {
    hide CallsHold, Enabled, Next, NameOf;
    var t := Next(tag, s, e);
    forall i, j | i in t.calls && j in t.calls && i != j && t.calls[i].phase.OwnsStaging() && t.calls[j].phase.OwnsStaging()
      ensures t.calls[i].phase.inode != t.calls[j].phase.inode && NameOf(tag, t.calls[i]) != NameOf(tag, t.calls[j])
    {
      if e.Create? && (e.id == i || e.id == j) {
        var other := if e.id == i then j else i;
        StagingIsInherited(tag, s, e, other);
        NewStagingIsApart(tag, s, e, other);
      } else {
        StagingIsInherited(tag, s, e, i);
        StagingIsInherited(tag, s, e, j);
      }
    }
  }

  lemma QuietKeepsCalls(tag: Tagger, s: State, e: Event)
    requires CallsHold(tag, s.files, s.calls) && Enabled(tag, s, e) && IsQuiet(e)
    ensures CallsHold(tag, Next(tag, s, e).files, Next(tag, s, e).calls)
  {
  }

  lemma CreateKeepsCalls(tag: Tagger, s: State, e: Event)
    requires FilesHold(s.files) && CallsHold(tag, s.files, s.calls) && Enabled(tag, s, e) && e.Create?
    ensures CallsHold(tag, Next(tag, s, e).files, Next(tag, s, e).calls)
  {
  }

  lemma WriteKeepsCalls(tag: Tagger, s: State, e: Event)
    requires CallsHold(tag, s.files, s.calls) && Separate(tag, s.calls)
    requires Enabled(tag, s, e) && (e.Write? || e.Sync?)
    ensures CallsHold(tag, Next(tag, s, e).files, Next(tag, s, e).calls)
  {
  }

  lemma LinkKeepsCalls(tag: Tagger, s: State, e: Event)
    requires CallsHold(tag, s.files, s.calls) && Separate(tag, s.calls) && Enabled(tag, s, e) && e.Link?
    ensures CallsHold(tag, Next(tag, s, e).files, Next(tag, s, e).calls)
  {
  }

  lemma RemoveKeepsCalls(tag: Tagger, s: State, e: Event)
    requires CallsHold(tag, s.files, s.calls) && Separate(tag, s.calls) && Enabled(tag, s, e) && e.Remove?
    ensures CallsHold(tag, Next(tag, s, e).files, Next(tag, s, e).calls)
  {
  }

  lemma LossKeepsCalls(tag: Tagger, s: State, e: Event)
    requires CallsHold(tag, s.files, s.calls) && Enabled(tag, s, e) && e.PowerLoss?
    ensures CallsHold(tag, Next(tag, s, e).files, Next(tag, s, e).calls)
  {
  }

  lemma StepKeepsCalls(tag: Tagger, s: State, e: Event)
    requires FilesHold(s.files) && CallsHold(tag, s.files, s.calls) && Separate(tag, s.calls) && Enabled(tag, s, e)
    ensures CallsHold(tag, Next(tag, s, e).files, Next(tag, s, e).calls)
  {
    hide CallsHold, Enabled, Next, FilesHold, Separate;
    if IsQuiet(e) {
      QuietKeepsCalls(tag, s, e);
    } else if e.Create? {
      CreateKeepsCalls(tag, s, e);
    } else if e.Link? {
      LinkKeepsCalls(tag, s, e);
    } else if e.Remove? {
      RemoveKeepsCalls(tag, s, e);
    } else if e.PowerLoss? {
      LossKeepsCalls(tag, s, e);
    } else {
      WriteKeepsCalls(tag, s, e);
    }
  }

  /** The entry a step adds is that of a call that had no effect before. */
  lemma NewEntry(tag: Tagger, s: State, e: Event)
    requires Enabled(tag, s, e)
    ensures var log := Next(tag, s, e).log;
            || log == s.log
            || log == s.log + [Vanished]
            || (exists ok :: log == s.log + [Published(e.id, s.calls[e.id].contents, ok)] && !Effective(s.calls[e.id].phase)
                             && Effective(Next(tag, s, e).calls[e.id].phase))
  {
    hide Survives, NameOf, Visible;
    if e.Read? {
      var entry := Next(tag, s, e).log[|s.log|];
      assert entry == Published(e.id, s.calls[e.id].contents, entry.ok);
    }
  }

  lemma EffectIsLasting(tag: Tagger, s: State, e: Event, id: nat)
    requires Enabled(tag, s, e) && id in s.calls
    ensures var call := Next(tag, s, e).calls[id];
            id in Next(tag, s, e).calls && call.contents == s.calls[id].contents && call.pid == s.calls[id].pid
            && (Effective(s.calls[id].phase) ==> Effective(call.phase))
  {
    hide Survives, NameOf, Visible;
  }

  lemma StepKeepsEffects(tag: Tagger, s: State, e: Event)
    requires EntriesAreEffects(s.log, s.calls) && Enabled(tag, s, e)
    ensures EntriesAreEffects(Next(tag, s, e).log, Next(tag, s, e).calls)
  {
    hide Enabled, Next;
    NewEntry(tag, s, e);
    var t := Next(tag, s, e);
    forall entry | entry in t.log && entry.Published?
      ensures entry.id in t.calls && t.calls[entry.id].contents == entry.contents && Effective(t.calls[entry.id].phase)
    {
      assert entry in s.log || entry == t.log[|s.log|];
      if entry in s.log {
        EffectIsLasting(tag, s, e, entry.id);
      } else {
        NewEntryId(tag, s, e);
        EffectIsLasting(tag, s, e, e.id);
      }
    }
  }

  lemma NewEntryId(tag: Tagger, s: State, e: Event)
    requires Enabled(tag, s, e) && |Next(tag, s, e).log| > |s.log| && Next(tag, s, e).log[|s.log|].Published?
    ensures !e.PowerLoss? && e.id in s.calls
  {
    hide Survives, NameOf, Visible;
  }

  lemma StepKeepsUnique(tag: Tagger, s: State, e: Event)
    requires EntriesAreEffects(s.log, s.calls) && EffectsAreUnique(s.log) && Enabled(tag, s, e)
    ensures EffectsAreUnique(Next(tag, s, e).log)
  {
    hide Enabled, Next;
    NewEntry(tag, s, e);
    forall i | 0 <= i < |s.log| && s.log[i].Published? ensures s.log[i] in s.log && Effective(s.calls[s.log[i].id].phase) {
    }
  }

  lemma OtherStaysSettled(tag: Tagger, s: State, e: Event, id: nat)
    requires Enabled(tag, s, e) && id in s.calls && Settled(s.log, id, s.calls[id]) && (e.PowerLoss? || e.id != id)
    ensures Settled(Next(tag, s, e).log, id, Next(tag, s, e).calls[id])
  {
    hide Survives, NameOf, Visible;
  }

  lemma OwnBecomesSettled(tag: Tagger, s: State, e: Event)
    requires Enabled(tag, s, e) && !e.PowerLoss? && (e.id in s.calls ==> Settled(s.log, e.id, s.calls[e.id]))
    ensures Settled(Next(tag, s, e).log, e.id, Next(tag, s, e).calls[e.id])
  {
    hide Survives, NameOf, Visible;
  }

  lemma StepKeepsLog(tag: Tagger, s: State, e: Event)
    requires LogMatches(s.log, s.calls) && Enabled(tag, s, e)
    ensures LogMatches(Next(tag, s, e).log, Next(tag, s, e).calls)
  {
    StepKeepsEffects(tag, s, e);
    StepKeepsUnique(tag, s, e);
    hide Enabled, Next, Settled, EntriesAreEffects, EffectsAreUnique;
    var t := Next(tag, s, e);
    forall id | id in t.calls ensures Settled(t.log, id, t.calls[id]) {
      if !e.PowerLoss? && e.id == id {
        OwnBecomesSettled(tag, s, e);
      } else {
        CallsAreKept(tag, s, e, id);
        OtherStaysSettled(tag, s, e, id);
      }
    }
  }

  lemma CallsAreKept(tag: Tagger, s: State, e: Event, id: nat)
    requires Enabled(tag, s, e) && id in Next(tag, s, e).calls
    ensures (e.Start? && id == e.id && id !in s.calls) || id in s.calls
  {
  }

  lemma LogStep(initial: Option<string>, log: seq<Entry>, e: Entry)
    ensures Value(initial, log + [e]) == After(Value(initial, log), e)
    ensures Legal(initial, log + [e]) <==> Legal(initial, log) && Answers(Value(initial, log), e)
  {
    assert (log + [e])[..|log|] == log;
  }

  lemma SilentRefines(tag: Tagger, initial: Option<string>, s: State, e: Event)
    requires FilesHold(s.files) && CallsHold(tag, s.files, s.calls) && Refines(initial, s)
    requires Enabled(tag, s, e) && !e.Read? && !e.Link? && !e.PowerLoss?
    ensures Refines(initial, Next(tag, s, e))
  {
    hide Legal, Value;
  }

  lemma EffectRefines(tag: Tagger, initial: Option<string>, s: State, e: Event)
    requires FilesHold(s.files) && CallsHold(tag, s.files, s.calls) && Refines(initial, s)
    requires Enabled(tag, s, e) && (e.Read? || e.Link? || e.PowerLoss?)
    ensures Refines(initial, Next(tag, s, e))
  {
    hide Legal, Value;
    var t := Next(tag, s, e);
    if t.log != s.log {
      LogStep(initial, s.log, t.log[|s.log|]);
      assert t.log == s.log + [t.log[|s.log|]];
    }
  }

  lemma StepRefines(tag: Tagger, initial: Option<string>, s: State, e: Event)
    requires FilesHold(s.files) && CallsHold(tag, s.files, s.calls) && Refines(initial, s) && Enabled(tag, s, e)
    ensures Refines(initial, Next(tag, s, e))
  {
    hide Refines, Enabled, Next, CallsHold, FilesHold;
    if e.Read? || e.Link? || e.PowerLoss? {
      EffectRefines(tag, initial, s, e);
    } else {
      SilentRefines(tag, initial, s, e);
    }
  }

  lemma StepHolds(tag: Tagger, initial: Option<string>, s: State, e: Event)
    requires Inv(tag, initial, s) && Enabled(tag, s, e)
    ensures Inv(tag, initial, Next(tag, s, e))
  {
    hide Enabled, Next, CallsHold, FilesHold, Separate, LogMatches, Refines;
    StepKeepsFiles(tag, s, e);
    StepKeepsSeparate(tag, s, e);
    StepKeepsCalls(tag, s, e);
    StepKeepsLog(tag, s, e);
    StepRefines(tag, initial, s, e);
  }

  // ----- Whole runs -----

  ghost predicate IsRun(tag: Tagger, initial: Option<string>, states: seq<State>, events: seq<Event>) {
    && |states| == |events| + 1
    && Init(initial, states[0])
    && forall k :: 0 <= k < |events| ==>
         Enabled(tag, states[k], events[k]) && states[k + 1] == Next(tag, states[k], events[k])
  }

  lemma {:induction false} RunHolds(tag: Tagger, initial: Option<string>, states: seq<State>, events: seq<Event>, k: nat)
    requires IsRun(tag, initial, states, events) && k < |states|
    ensures Inv(tag, initial, states[k])
    decreases k
  {
    hide Inv, Init, Enabled;
    if k == 0 {
      InitHolds(tag, initial, states[0]);
    } else {
      RunHolds(tag, initial, states, events, k - 1);
      StepHolds(tag, initial, states[k - 1], events[k - 1]);
    }
  }

  /** No power is lost between two moments of a run. */
  ghost predicate Powered(events: seq<Event>, i: nat, j: nat)
    requires i <= j <= |events|
  {
    forall k :: i <= k < j ==> !events[k].PowerLoss?
  }

  /** Entries are only added; without power loss none of them is a loss. */
  lemma {:induction false} LogGrows(
    tag: Tagger, initial: Option<string>, states: seq<State>, events: seq<Event>, i: nat, j: nat)
    requires IsRun(tag, initial, states, events) && i <= j < |states|
    ensures states[i].log <= states[j].log
    ensures Powered(events, i, j) ==> Vanished !in states[j].log[|states[i].log|..]
    decreases j
  {
    hide Init, Enabled, Next;
    if i < j {
      LogGrows(tag, initial, states, events, i, j - 1);
      NewEntry(tag, states[j - 1], events[j - 1]);
      if !events[j - 1].PowerLoss? {
        VanishedIsLoss(tag, states[j - 1], events[j - 1]);
      }
      var was, now, start := states[j - 1].log, states[j].log, |states[i].log|;
      assert now == was + now[|was|..];
      assert now[start..] == was[start..] + now[|was|..];
    }
  }

  lemma VanishedIsLoss(tag: Tagger, s: State, e: Event)
    requires Enabled(tag, s, e) && !e.PowerLoss?
    ensures Next(tag, s, e).log != s.log + [Vanished]
  {
    hide Survives, NameOf, Visible;
    if e.Read? || e.Link? {
      assert Next(tag, s, e).log == s.log || Next(tag, s, e).log[|s.log|].Published?;
    }
  }

  lemma {:induction false} LegalPrefix(initial: Option<string>, log: seq<Entry>, k: nat)
    requires Legal(initial, log) && k < |log|
    ensures Legal(initial, log[..k]) && Answers(Value(initial, log[..k]), log[k])
    ensures Value(initial, log[..k + 1]) == After(Value(initial, log[..k]), log[k])
    decreases |log|
  {
    var front := log[..|log| - 1];
    assert log[..k + 1][..k] == log[..k];
    if k < |log| - 1 {
      LegalPrefix(initial, front, k);
      assert front[..k] == log[..k];
    }
  }

  /** A written register keeps its contents until it is lost. */
  lemma {:induction false} WrittenOnce(initial: Option<string>, log: seq<Entry>, k: nat)
    requires k <= |log| && Value(initial, log[..k]).Some? && Vanished !in log[k..]
    ensures Value(initial, log) == Value(initial, log[..k])
    decreases |log|
  {
    if k == |log| {
      assert log[..k] == log;
    } else {
      var front := log[..|log| - 1];
      assert front[..k] == log[..k] && log[k..] == front[k..] + [log[|log| - 1]];
      WrittenOnce(initial, front, k);
    }
  }

  /** What the register holds was there at first or is the contents of a publication that succeeded. */
  lemma {:induction false} ValueIsPublished(initial: Option<string>, log: seq<Entry>, x: string)
    requires Legal(initial, log) && Value(initial, log) == Some(x)
    ensures initial == Some(x) || exists id :: Published(id, x, true) in log
    decreases |log|
  {
    if log != [] {
      var front, last := log[..|log| - 1], log[|log| - 1];
      if Value(initial, front) == Some(x) {
        ValueIsPublished(initial, front, x);
      } else {
        assert last == Published(last.id, x, true) && last in log;
      }
    }
  }

  /** At every moment the path is absent, or holds what it held before the run or one call's complete contents. */
  lemma AbsentOrComplete(tag: Tagger, initial: Option<string>, states: seq<State>, events: seq<Event>, k: nat, x: string)
    requires IsRun(tag, initial, states, events) && k < |states| && Visible(states[k].files) == Some(x)
    ensures initial == Some(x) || exists id :: id in states[k].calls && states[k].calls[id].contents == x
  {
    RunHolds(tag, initial, states, events, k);
    hide IsRun, CallsHold, Separate, FilesHold, EffectsAreUnique, AnswersAreEntries, Legal, Value, Visible;
    ValueIsPublished(initial, states[k].log, x);
    if initial != Some(x) {
      var id :| Published(id, x, true) in states[k].log;
      assert id in states[k].calls;
    }
  }

  /** Once present, the contents never change; only power loss can take the file away. */
  lemma ContentsNeverChange(
    tag: Tagger, initial: Option<string>, states: seq<State>, events: seq<Event>, i: nat, j: nat)
    requires IsRun(tag, initial, states, events) && i <= j < |states|
    requires Visible(states[i].files).Some? && Powered(events, i, j)
    ensures Visible(states[j].files) == Visible(states[i].files)
  {
    RunHolds(tag, initial, states, events, i);
    RunHolds(tag, initial, states, events, j);
    LogGrows(tag, initial, states, events, i, j);
    hide IsRun, CallsHold, Separate, FilesHold, LogMatches, Legal, Value, Visible, Powered;
    var log, k := states[j].log, |states[i].log|;
    assert log[..k] == states[i].log;
    WrittenOnce(initial, log, k);
  }

  /** And power loss, thanks to the sync before the link, keeps the contents whole or loses the name. */
  lemma LossKeepsOrRemoves(tag: Tagger, s: State, e: Event)
    requires FilesHold(s.files) && Enabled(tag, s, e) && e.PowerLoss?
    ensures var after := Visible(Next(tag, s, e).files); after == None || after == Visible(s.files)
  {
  }

  lemma NoEntryYet(log: seq<Entry>, calls: map<nat, Call>, id: nat, entry: Entry)
    requires EntriesAreEffects(log, calls) && id !in calls && entry.Published? && entry.id == id
    ensures entry !in log
  {
  }

  /** Where the entry of a call that returned lies: after everything that was there before the call began. */
  lemma EntryOf(tag: Tagger, initial: Option<string>, states: seq<State>, events: seq<Event>, i: nat, j: nat, id: nat)
    returns (q: nat)
    requires IsRun(tag, initial, states, events) && i <= j < |states|
    requires id !in states[i].calls && id in states[j].calls
    requires states[j].calls[id].phase == Returned(Ok) || states[j].calls[id].phase == Returned(Conflict)
    ensures |states[i].log| <= q < |states[j].log|
    ensures states[j].log[q]
            == Published(id, states[j].calls[id].contents, states[j].calls[id].phase == Returned(Ok))
  {
    RunHolds(tag, initial, states, events, i);
    RunHolds(tag, initial, states, events, j);
    LogGrows(tag, initial, states, events, i, j);
    hide IsRun, CallsHold, Separate, FilesHold, Refines, EffectsAreUnique;
    var call := states[j].calls[id];
    assert Settled(states[j].log, id, call);
    var entry := Published(id, call.contents, call.phase == Returned(Ok));
    assert entry in states[j].log;
    NoEntryYet(states[i].log, states[i].calls, id, entry);
    q :| 0 <= q < |states[j].log| && states[j].log[q] == entry;
    assert forall k :: 0 <= k < |states[i].log| ==> states[i].log[k] == states[j].log[k];
  }

  /** What a definite answer means, at any later moment before a power loss: `Ok` that the path holds the caller's
      contents, the conflict error that it holds others. */
  lemma AnswersAreTrue(
    tag: Tagger, initial: Option<string>, states: seq<State>, events: seq<Event>, i: nat, j: nat, id: nat)
    requires IsRun(tag, initial, states, events) && i <= j < |states| && Powered(events, i, j)
    requires id !in states[i].calls && id in states[j].calls
    ensures states[j].calls[id].phase == Returned(Ok) ==>
              Visible(states[j].files) == Some(states[j].calls[id].contents)
    ensures states[j].calls[id].phase == Returned(Conflict) ==>
              Visible(states[j].files).Some? && Visible(states[j].files) != Some(states[j].calls[id].contents)
  {
    hide IsRun, Visible, Powered;
    if states[j].calls[id].phase == Returned(Ok) || states[j].calls[id].phase == Returned(Conflict) {
      var q := EntryOf(tag, initial, states, events, i, j, id);
      ValueAfterEntry(tag, initial, states, events, i, j, q);
    }
  }

  /** Without power loss the path holds, at any later moment, what it held right after an entry. */
  lemma ValueAfterEntry(
    tag: Tagger, initial: Option<string>, states: seq<State>, events: seq<Event>, i: nat, j: nat, q: nat)
    requires IsRun(tag, initial, states, events) && i <= j < |states| && Powered(events, i, j)
    requires |states[i].log| <= q < |states[j].log| && states[j].log[q].Published?
    ensures var entry := states[j].log[q];
            && Visible(states[j].files).Some?
            && (entry.ok <==> Visible(states[j].files) == Some(entry.contents))
  {
    RefinedAt(tag, initial, states, events, i, j);
    hide IsRun, Legal, Value, Visible, Powered;
    var log, start := states[j].log, |states[i].log|;
    LegalPrefix(initial, log, q);
    TailOfTail(log, start, q + 1);
    WrittenOnce(initial, log, q + 1);
  }

  lemma RefinedAt(tag: Tagger, initial: Option<string>, states: seq<State>, events: seq<Event>, i: nat, j: nat)
    requires IsRun(tag, initial, states, events) && i <= j < |states| && Powered(events, i, j)
    ensures Refines(initial, states[j])
    ensures |states[i].log| <= |states[j].log| && Vanished !in states[j].log[|states[i].log|..]
  {
    hide IsRun, Powered, CallsHold, Separate, FilesHold, LogMatches, Refines;
    RunHolds(tag, initial, states, events, j);
    LogGrows(tag, initial, states, events, i, j);
  }

  lemma TailOfTail(log: seq<Entry>, start: nat, q: nat)
    requires start <= q <= |log| && Vanished !in log[start..]
    ensures Vanished !in log[q..]
  {
    assert log[q..] == log[start..][q - start..];
  }

  /** The calls take effect in an order that respects real time: one that answered before another began comes first.
      With `Refines`, which makes the log a legal history of the atomic register, this is linearizability. */
  lemma RealTimeOrder(
    tag: Tagger, initial: Option<string>, states: seq<State>, events: seq<Event>, i: nat, j: nat, a: nat, b: nat)
    returns (p: nat, q: nat)
    requires IsRun(tag, initial, states, events) && i <= j < |states|
    requires a in states[i].calls && b !in states[i].calls && b in states[j].calls
    requires states[i].calls[a].phase == Returned(Ok) || states[i].calls[a].phase == Returned(Conflict)
    requires states[j].calls[b].phase == Returned(Ok) || states[j].calls[b].phase == Returned(Conflict)
    ensures p < q < |states[j].log|
    ensures states[j].log[p] == Published(a, states[i].calls[a].contents, states[i].calls[a].phase == Returned(Ok))
    ensures states[j].log[q] == Published(b, states[j].calls[b].contents, states[j].calls[b].phase == Returned(Ok))
  {
    q := EntryOf(tag, initial, states, events, i, j, b);
    assert a !in states[0].calls;
    p := EntryOf(tag, initial, states, events, 0, i, a);
    LogGrows(tag, initial, states, events, i, j);
  }

  /** A staging file disappears only by power loss or by the hand of the call that created it. */
  lemma OnlyItsOwnerRemovesAFile(tag: Tagger, s: State, e: Event, n: Name)
    requires CallsHold(tag, s.files, s.calls) && Enabled(tag, s, e) && !e.PowerLoss?
    requires n in s.files.staging && n !in Next(tag, s, e).files.staging
    ensures e.Remove? && n == NameOf(tag, s.calls[e.id]) && s.files.staging[n] == s.calls[e.id].phase.inode
  {
    hide Survives, Visible;
    assert e.Remove?;
    assert CallHolds(tag, s.files, s.calls[e.id]);
  }

  /** No call removes the staging file of another. */
  lemma OthersKeepTheirFiles(tag: Tagger, s: State, e: Event, id: nat)
    requires CallsHold(tag, s.files, s.calls) && Separate(tag, s.calls) && FilesHold(s.files)
    requires Enabled(tag, s, e) && !e.PowerLoss? && id in s.calls && id != e.id && s.calls[id].phase.OwnsStaging()
    ensures var m, t := NameOf(tag, s.calls[id]), Next(tag, s, e);
            m in t.files.staging && t.files.staging[m] == s.calls[id].phase.inode && id in t.calls && t.calls[id] == s.calls[id]
  {
    hide CallsHold, Separate, FilesHold, Enabled, Next;
    CallAt(tag, s.files, s.calls, id);
    assert Owned(tag, s.files, s.calls[id], s.calls[id].phase.inode);
    StepKeepsCalls(tag, s, e);
    OtherCallIsKept(tag, s, e, id);
    CallAt(tag, Next(tag, s, e).files, Next(tag, s, e).calls, id);
  }

  lemma CallAt(tag: Tagger, files: Files, calls: map<nat, Call>, id: nat)
    requires CallsHold(tag, files, calls) && id in calls
    ensures CallHolds(tag, files, calls[id])
  {
    hide CallHolds;
  }

  lemma OtherCallIsKept(tag: Tagger, s: State, e: Event, id: nat)
    requires Enabled(tag, s, e) && !e.PowerLoss? && id in s.calls && id != e.id
    ensures id in Next(tag, s, e).calls && Next(tag, s, e).calls[id] == s.calls[id]
  {
    hide Survives, Visible, NameOf;
  }

  // ----- Calls that fail -----

  /** The operating system reported an error to the call. */
  predicate IsErrorOf(e: Event, id: nat) {
    (e.ReadError? || e.CreateError? || e.WriteError? || e.LinkError? || e.RemoveError?) && e.id == id
  }

  /** The call is on its way to an error other than the conflict, or has returned one. */
  predicate IsFailing(phase: Phase) {
    phase.Cleaning? || (phase.Compared? && phase.existing.None?) || phase == Returned(Failed)
  }

  lemma FailingBegins(tag: Tagger, s: State, e: Event, id: nat)
    requires Enabled(tag, s, e) && id in Next(tag, s, e).calls && IsFailing(Next(tag, s, e).calls[id].phase)
    ensures IsErrorOf(e, id) || (id in s.calls && IsFailing(s.calls[id].phase))
  {
    hide Survives, Visible, NameOf;
  }

  /** A call fails otherwise than by the conflict only if the operating system reported an error to it: a call without one says
      truly whether its contents are there. */
  lemma {:induction false} FailuresHaveCauses(
    tag: Tagger, initial: Option<string>, states: seq<State>, events: seq<Event>, j: nat, id: nat) returns (k: nat)
    requires IsRun(tag, initial, states, events) && j < |states| && id in states[j].calls && IsFailing(states[j].calls[id].phase)
    ensures k < j && IsErrorOf(events[k], id)
    decreases j
  {
    hide Enabled, Next, IsFailing, IsErrorOf, FilesHold, Visible;
    assert j > 0;
    FailingBegins(tag, states[j - 1], events[j - 1], id);
    k := j - 1;
    if !IsErrorOf(events[k], id) {
      k := FailuresHaveCauses(tag, initial, states, events, j - 1, id);
    }
  }

  // ----- One call on its own -----

  /** Which of the calls to the operating system fail, and where a failing write or sync leaves the staging file. */
  datatype Faults = Faults(read: bool, create: bool, write: Option<nat>, link: bool, remove: bool)

  function Staged(contents: string, faults: Faults): string {
    match faults.write
    case Some(stop) => if stop < |contents| then contents[..stop] else contents
    case None => contents
  }

  /** The directory of the artifact, as one undisturbed call sees it: the file and the staging files by name. */
  class Directory {
    var target: Option<string>
    var staging: map<Name, string>

    /** `write_immutable`. */
    method WriteImmutable(tag: Tagger, pid: nat, contents: string, faults: Faults) returns (outcome: Outcome)
      modifies this
      ensures outcome == Ok ==> target == Some(contents)
      ensures outcome == Conflict <==> old(target).Some? && old(target) != Some(contents) && !faults.read
      ensures target == if old(target).None? && Name(pid, tag(contents)) !in old(staging)
                           && !faults.create && faults.write.None? && !faults.link
                        then Some(contents) else old(target)
      ensures var name := Name(pid, tag(contents));
              staging == if old(target).None? && name !in old(staging) && !faults.create && faults.remove
                         then old(staging)[name := Staged(contents, faults)]
                         else old(staging)
      ensures faults == Faults(false, false, None, false, false) ==>
                (outcome == Ok <==> old(target) == Some(contents)
                                    || (old(target).None? && Name(pid, tag(contents)) !in old(staging)))
    {
      if target.Some? {
        return if faults.read then Failed else Answer(target, contents);
      }
      var name := Name(pid, tag(contents));
      if name in staging || faults.create {
        return Failed;
      }
      staging := staging[name := Staged(contents, faults)];
      if faults.write.Some? {
        if !faults.remove {
          staging := staging - {name};
        }
        return Failed;
      }
      if !faults.link {
        target := Some(contents);
      }
      if faults.remove {
        return Failed;
      }
      staging := staging - {name};
      outcome := if faults.link then Failed else Ok;
    }
  }
}
