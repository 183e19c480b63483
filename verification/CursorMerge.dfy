/** The advanced-account projection of a backtest: an event stream merged with three schedules by cursors, the operations it
    hands to the account, and the marks they see. */
module CursorMerge {
  import opened Prelude
  import opened Sorting
  import opened FixedPoint
  import CanonicalTime

  datatype Action =
    | Split(id: string, at: string, instrument: string, ratio: int)
    | OtherAction(id: string, at: string, instrument: string)

  datatype Delisting = Delisting(id: string, at: string, instrument: string, price: int)

  datatype Accrual = Accrual(id: string, at: string, days: nat, basis: nat)

  datatype Fill = Fill(execution: string, instrument: string, buys: Option<bool>, quantity: int, price: int, at: string)

  datatype Event =
    | Bar(time: string, instrument: string, close: int)
    | Filled(time: string, fill: Fill)
    | Unrelated(time: string)

  /** The last price of each instrument. */
  type Marks = map<string, int>

  /** What the projection does, in order: the operations on the account with the marks they see, and the closes that set
      them. */
  datatype Step =
    | Act(action: Action)
    | Settle(delisting: Delisting)
    | Accrue(accrual: Accrual, marks: Marks)
    | Trade(fill: Fill, marks: Marks)
    | Close(instrument: string, price: int)

  datatype Error =
    | InvalidSide
    | NoTerms(instrument: string)
    | BadTime(text: string)
    | Refused(step: Step)
    | Overflow
    | NonPositiveClose
    | NoMarketEvents
    | OutsideRange

  /** The schedules, in the order the cursors walk them, the instruments with terms, what the account refuses after the steps
      so far. */
  datatype Setup = Setup(
    actions: seq<Action>,
    delistings: seq<Delisting>,
    accruals: seq<Accrual>,
    terms: set<string>,
    refuses: (seq<Step>, Step) -> bool)

  datatype Progress = Progress(
    trace: seq<Step>,
    marks: Marks,
    action: nat,
    delisting: nat,
    accrual: nat,
    last: Option<string>)

  const START := Progress([], map[], 0, 0, 0, None)

  function Take(x: Setup, s: Progress, step: Step): Result<Progress, Error> {
    if x.refuses(s.trace, step) then Failure(Refused(step)) else Success(s.(trace := s.trace + [step]))
  }

  // ----- The three cursors -----

  /** A split divides the instrument's mark. */
  function SplitMarks(marks: Marks, action: Action): Option<Marks> {
    if action.Split? && action.instrument in marks then
      match CheckedDiv(marks[action.instrument], action.ratio)
      case None => None
      case Some(mark) => Some(marks[action.instrument := mark])
    else Some(marks)
  }

  function NextAction(x: Setup, s: Progress): Result<Progress, Error>
    requires s.action < |x.actions|
  {
    var action := x.actions[s.action];
    match Take(x, s, Act(action))
    case Failure(error) => Failure(error)
    case Success(t) =>
      match SplitMarks(s.marks, action)
      case None => Failure(Overflow)
      case Some(marks) => Success(t.(marks := marks, action := s.action + 1))
  }

  function DueActions(x: Setup, s: Progress, time: string): Result<Progress, Error>
    decreases |x.actions| - s.action
  {
    if s.action < |x.actions| && AtMost(x.actions[s.action].at, time) then
      match NextAction(x, s)
      case Failure(error) => Failure(error)
      case Success(t) => DueActions(x, t, time)
    else Success(s)
  }

  function NextDelisting(x: Setup, s: Progress): Result<Progress, Error>
    requires s.delisting < |x.delistings|
  {
    match Take(x, s, Settle(x.delistings[s.delisting]))
    case Failure(error) => Failure(error)
    case Success(t) => Success(t.(delisting := s.delisting + 1))
  }

  function DueDelistings(x: Setup, s: Progress, time: string): Result<Progress, Error>
    decreases |x.delistings| - s.delisting
  {
    if s.delisting < |x.delistings| && AtMost(x.delistings[s.delisting].at, time) then
      match NextDelisting(x, s)
      case Failure(error) => Failure(error)
      case Success(t) => DueDelistings(x, t, time)
    else Success(s)
  }

  function NextAccrual(x: Setup, s: Progress): Result<Progress, Error>
    requires s.accrual < |x.accruals|
  {
    match Take(x, s, Accrue(x.accruals[s.accrual], s.marks))
    case Failure(error) => Failure(error)
    case Success(t) => Success(t.(accrual := s.accrual + 1))
  }

  function DueAccruals(x: Setup, s: Progress, time: string): Result<Progress, Error>
    decreases |x.accruals| - s.accrual
  {
    if s.accrual < |x.accruals| && AtMost(x.accruals[s.accrual].at, time) then
      match NextAccrual(x, s)
      case Failure(error) => Failure(error)
      case Success(t) => DueAccruals(x, t, time)
    else Success(s)
  }

  // ----- The stream -----

  function OnFill(x: Setup, s: Progress, fill: Fill): Result<Progress, Error> {
    if fill.buys.None? then Failure(InvalidSide)
    else if fill.instrument !in x.terms then Failure(NoTerms(fill.instrument))
    else if !CanonicalTime.IsCanonical(fill.at) then Failure(BadTime(fill.at))
    else Take(x, s, Trade(fill, s.marks))
  }

  function OnClose(s: Progress, bar: Event): Result<Progress, Error>
    requires bar.Bar?
  {
    if bar.close <= 0 then Failure(NonPositiveClose)
    else Success(s.(trace := s.trace + [Close(bar.instrument, bar.close)],
                    marks := s.marks[bar.instrument := bar.close],
                    last := Some(bar.time)))
  }

  function OnBar(x: Setup, s: Progress, bar: Event): Result<Progress, Error>
    requires bar.Bar?
  {
    match DueActions(x, s, bar.time)
    case Failure(error) => Failure(error)
    case Success(a) =>
      match DueDelistings(x, a, bar.time)
      case Failure(error) => Failure(error)
      case Success(b) =>
        match DueAccruals(x, b, bar.time)
        case Failure(error) => Failure(error)
        case Success(t) => OnClose(t, bar)
  }

  function OnEvent(x: Setup, s: Progress, event: Event): Result<Progress, Error> {
    match event
    case Bar(_, _, _) => OnBar(x, s, event)
    case Filled(_, fill) => OnFill(x, s, fill)
    case Unrelated(_) => Success(s)
  }

  function Run(x: Setup, events: seq<Event>): Result<Progress, Error> {
    if events == [] then Success(START)
    else
      match Run(x, events[..|events| - 1])
      case Failure(error) => Failure(error)
      case Success(s) => OnEvent(x, s, events[|events| - 1])
  }

  /** The end of the projection: some bar was seen, and nothing of two of the schedules is left. */
  function Finish(x: Setup, s: Progress): Result<Progress, Error> {
    if s.last.None? then Failure(NoMarketEvents)
    else if s.accrual != |x.accruals| || s.delisting != |x.delistings| then Failure(OutsideRange)
    else if !CanonicalTime.IsCanonical(s.last.value) then Failure(BadTime(s.last.value))
    else Success(s)
  }

  function Projected(x: Setup, events: seq<Event>): Result<Progress, Error> {
    match Run(x, events)
    case Failure(error) => Failure(error)
    case Success(s) => Finish(x, s)
  }

  method ApplyActions(x: Setup, start: Progress, time: string) returns (r: Result<Progress, Error>)
    ensures r == DueActions(x, start, time)
  {
    hide NextAction;
    var s := start;
    while s.action < |x.actions| && AtMost(x.actions[s.action].at, time)
      invariant DueActions(x, s, time) == DueActions(x, start, time)
      decreases |x.actions| - s.action
    {
      var next := NextAction(x, s);
      if next.Failure? {
        return next;
      }
      assert next.value.action == s.action + 1 by { ActionMoves(x, s); }
      s := next.value;
    }
    r := Success(s);
  }

  lemma ActionMoves(x: Setup, s: Progress)
    requires s.action < |x.actions| && NextAction(x, s).Success?
    ensures NextAction(x, s).value.action == s.action + 1
  {
  }

  method ApplyDelistings(x: Setup, start: Progress, time: string) returns (r: Result<Progress, Error>)
    ensures r == DueDelistings(x, start, time)
  {
    var s := start;
    while s.delisting < |x.delistings| && AtMost(x.delistings[s.delisting].at, time)
      invariant DueDelistings(x, s, time) == DueDelistings(x, start, time)
      decreases |x.delistings| - s.delisting
    {
      var next := NextDelisting(x, s);
      if next.Failure? {
        return next;
      }
      s := next.value;
    }
    r := Success(s);
  }

  method ApplyAccruals(x: Setup, start: Progress, time: string) returns (r: Result<Progress, Error>)
    ensures r == DueAccruals(x, start, time)
  {
    var s := start;
    while s.accrual < |x.accruals| && AtMost(x.accruals[s.accrual].at, time)
      invariant DueAccruals(x, s, time) == DueAccruals(x, start, time)
      decreases |x.accruals| - s.accrual
    {
      var next := NextAccrual(x, s);
      if next.Failure? {
        return next;
      }
      s := next.value;
    }
    r := Success(s);
  }

  method ApplyBar(x: Setup, s: Progress, bar: Event) returns (r: Result<Progress, Error>)
    requires bar.Bar?
    ensures r == OnBar(x, s, bar)
  {
    hide DueActions, DueDelistings, DueAccruals;
    r := ApplyActions(x, s, bar.time);
    if r.Failure? { return; }
    r := ApplyDelistings(x, r.value, bar.time);
    if r.Failure? { return; }
    r := ApplyAccruals(x, r.value, bar.time);
    if r.Failure? { return; }
    r := OnClose(r.value, bar);
  }

  /** `advanced_account_projection`, up to the report. */
  method AdvancedAccountProjection(x: Setup, events: seq<Event>) returns (r: Result<Progress, Error>)
    ensures r == Projected(x, events)
  {
    hide OnBar, OnFill;
    var s := START;
    assert events[..0] == [];
    for i := 0 to |events|
      invariant Run(x, events[..i]) == Success(s)
    {
      RunStops(x, events, i + 1);
      assert events[..i + 1][..i] == events[..i];
      var next: Result<Progress, Error>;
      match events[i] {
        case Bar(_, _, _) => next := ApplyBar(x, s, events[i]);
        case Filled(_, fill) => next := OnFill(x, s, fill);
        case Unrelated(_) => next := Success(s);
      }
      if next.Failure? {
        return next;
      }
      s := next.value;
    }
    assert events[..|events|] == events;
    r := Finish(x, s);
  }

  /** The first error ends the run. */
  lemma {:induction false} RunStops(x: Setup, events: seq<Event>, i: nat)
    requires i <= |events|
    ensures Run(x, events[..i]).Failure? ==> Run(x, events) == Run(x, events[..i])
    decreases |events|
  {
    hide OnEvent;
    if i < |events| {
      RunStops(x, events[..|events| - 1], i);
      assert events[..|events| - 1][..i] == events[..i];
    } else {
      assert events[..i] == events;
    }
  }

  // ----- What the steps record -----

  function ActionsIn(trace: seq<Step>): seq<Action> {
    if trace == [] then []
    else
      var last := trace[|trace| - 1];
      ActionsIn(trace[..|trace| - 1]) + (if last.Act? then [last.action] else [])
  }

  function DelistingsIn(trace: seq<Step>): seq<Delisting> {
    if trace == [] then []
    else
      var last := trace[|trace| - 1];
      DelistingsIn(trace[..|trace| - 1]) + (if last.Settle? then [last.delisting] else [])
  }

  function AccrualsIn(trace: seq<Step>): seq<Accrual> {
    if trace == [] then []
    else
      var last := trace[|trace| - 1];
      AccrualsIn(trace[..|trace| - 1]) + (if last.Accrue? then [last.accrual] else [])
  }

  function FillsIn(trace: seq<Step>): seq<Fill> {
    if trace == [] then []
    else
      var last := trace[|trace| - 1];
      FillsIn(trace[..|trace| - 1]) + (if last.Trade? then [last.fill] else [])
  }

  function ClosesIn(trace: seq<Step>): seq<(string, int)> {
    if trace == [] then []
    else
      var last := trace[|trace| - 1];
      ClosesIn(trace[..|trace| - 1]) + (if last.Close? then [(last.instrument, last.price)] else [])
  }

  /** The marks after one more step. */
  function Marked(before: Marks, step: Step): Marks {
    match step
    case Close(instrument, price) => before[instrument := price]
    case Act(action) =>
      var split := SplitMarks(before, action);
      if split.Some? then split.value else before
    case _ => before
  }

  /** The marks some steps leave, read off the steps alone. */
  function MarksAfter(trace: seq<Step>): Marks {
    if trace == [] then map[] else Marked(MarksAfter(trace[..|trace| - 1]), trace[|trace| - 1])
  }

  /** Every fill and every accrual is given the marks of the steps before it. */
  ghost predicate MarksAreSeen(trace: seq<Step>) {
    trace == [] ||
    (var front, last := trace[..|trace| - 1], trace[|trace| - 1];
     && MarksAreSeen(front)
     && (last.Trade? ==> last.marks == MarksAfter(front))
     && (last.Accrue? ==> last.marks == MarksAfter(front)))
  }

  lemma OneMoreStep(front: seq<Step>, last: Step)
    ensures var trace := front + [last];
            && ActionsIn(trace) == ActionsIn(front) + (if last.Act? then [last.action] else [])
            && DelistingsIn(trace) == DelistingsIn(front) + (if last.Settle? then [last.delisting] else [])
            && AccrualsIn(trace) == AccrualsIn(front) + (if last.Accrue? then [last.accrual] else [])
            && FillsIn(trace) == FillsIn(front) + (if last.Trade? then [last.fill] else [])
            && ClosesIn(trace) == ClosesIn(front) + (if last.Close? then [(last.instrument, last.price)] else [])
            && MarksAfter(trace) == Marked(MarksAfter(front), last)
            && (MarksAreSeen(trace) <==>
                  MarksAreSeen(front)
                  && (last.Trade? ==> last.marks == MarksAfter(front))
                  && (last.Accrue? ==> last.marks == MarksAfter(front)))
  {
    hide Marked;
    assert (front + [last])[..|front|] == front;
  }

  /** The steps are the schedules up to the cursors, each item once and in order, and the marks are right. */
  ghost predicate Consistent(x: Setup, s: Progress) {
    && s.action <= |x.actions| && s.delisting <= |x.delistings| && s.accrual <= |x.accruals|
    && ActionsIn(s.trace) == x.actions[..s.action]
    && DelistingsIn(s.trace) == x.delistings[..s.delisting]
    && AccrualsIn(s.trace) == x.accruals[..s.accrual]
    && s.marks == MarksAfter(s.trace) && MarksAreSeen(s.trace)
  }

  lemma PrefixGrows<T>(list: seq<T>, n: nat)
    requires n < |list|
    ensures list[..n + 1] == list[..n] + [list[n]]
  {
  }

  lemma ActionIsConsistent(x: Setup, s: Progress)
    requires Consistent(x, s) && s.action < |x.actions| && NextAction(x, s).Success?
    ensures var t := NextAction(x, s).value;
            && Consistent(x, t) && t.delisting == s.delisting && t.accrual == s.accrual && t.last == s.last
            && t.action == s.action + 1 && FillsIn(t.trace) == FillsIn(s.trace) && ClosesIn(t.trace) == ClosesIn(s.trace)
  {
    hide ActionsIn, DelistingsIn, AccrualsIn, FillsIn, ClosesIn, MarksAfter, MarksAreSeen, SplitMarks;
    OneMoreStep(s.trace, Act(x.actions[s.action]));
    PrefixGrows(x.actions, s.action);
  }

  lemma DelistingIsConsistent(x: Setup, s: Progress)
    requires Consistent(x, s) && s.delisting < |x.delistings| && NextDelisting(x, s).Success?
    ensures var t := NextDelisting(x, s).value;
            && Consistent(x, t) && t.action == s.action && t.accrual == s.accrual && t.last == s.last
            && t.delisting == s.delisting + 1
            && FillsIn(t.trace) == FillsIn(s.trace) && ClosesIn(t.trace) == ClosesIn(s.trace)
  {
    hide ActionsIn, DelistingsIn, AccrualsIn, FillsIn, ClosesIn, MarksAfter, MarksAreSeen, SplitMarks;
    OneMoreStep(s.trace, Settle(x.delistings[s.delisting]));
    PrefixGrows(x.delistings, s.delisting);
  }

  lemma AccrualIsConsistent(x: Setup, s: Progress)
    requires Consistent(x, s) && s.accrual < |x.accruals| && NextAccrual(x, s).Success?
    ensures var t := NextAccrual(x, s).value;
            && Consistent(x, t) && t.action == s.action && t.delisting == s.delisting && t.last == s.last
            && t.accrual == s.accrual + 1
            && FillsIn(t.trace) == FillsIn(s.trace) && ClosesIn(t.trace) == ClosesIn(s.trace)
  {
    hide ActionsIn, DelistingsIn, AccrualsIn, FillsIn, ClosesIn, MarksAfter, MarksAreSeen, SplitMarks;
    OneMoreStep(s.trace, Accrue(x.accruals[s.accrual], s.marks));
    PrefixGrows(x.accruals, s.accrual);
  }

  // ----- The cursors cut the schedules at the latest bar -----

  /** The first `n` are due by a moment, and no other is. */
  ghost predicate IsCut(times: seq<string>, n: nat, latest: Option<string>) {
    && n <= |times|
    && (forall i :: 0 <= i < n ==> latest.Some? && AtMost(times[i], latest.value))
    && (forall i :: n <= i < |times| ==> latest.None? || Less(latest.value, times[i]))
  }

  ghost predicate AreOrdered(times: seq<string>) {
    forall i, j :: 0 <= i <= j < |times| ==> AtMost(times[i], times[j])
  }

  function Later(latest: Option<string>, time: string): Option<string> {
    if latest.None? || Less(latest.value, time) then Some(time) else latest
  }

  function ActionTimes(x: Setup): (times: seq<string>)
    ensures |times| == |x.actions| && forall i :: 0 <= i < |times| ==> times[i] == x.actions[i].at
  {
    seq(|x.actions|, i requires 0 <= i < |x.actions| => x.actions[i].at)
  }

  function DelistingTimes(x: Setup): (times: seq<string>)
    ensures |times| == |x.delistings| && forall i :: 0 <= i < |times| ==> times[i] == x.delistings[i].at
  {
    seq(|x.delistings|, i requires 0 <= i < |x.delistings| => x.delistings[i].at)
  }

  function AccrualTimes(x: Setup): (times: seq<string>)
    ensures |times| == |x.accruals| && forall i :: 0 <= i < |times| ==> times[i] == x.accruals[i].at
  {
    seq(|x.accruals|, i requires 0 <= i < |x.accruals| => x.accruals[i].at)
  }

  ghost predicate IsScheduled(x: Setup) {
    AreOrdered(ActionTimes(x)) && AreOrdered(DelistingTimes(x)) && AreOrdered(AccrualTimes(x))
  }

  /** A cursor that stops at the first item after a time, having started at an earlier cut, is at the cut of the later of the
      two moments. */
  lemma CutMoves(times: seq<string>, n: nat, m: nat, latest: Option<string>, time: string)
    requires AreOrdered(times) && IsCut(times, n, latest) && n <= m <= |times|
    requires forall i :: n <= i < m ==> AtMost(times[i], time)
    requires m < |times| ==> !AtMost(times[m], time)
    ensures IsCut(times, m, Later(latest, time))
  {
    hide Less, AtMost;
    var now := Later(latest, time).value;
    LaterIsLater(latest, time);
    forall i | 0 <= i < m ensures AtMost(times[i], now) {
      if i < n {
        AtMostChains(times[i], latest.value, now);
      } else {
        AtMostChains(times[i], time, now);
      }
    }
    forall i | m <= i < |times| ensures Less(now, times[i]) {
      AtMostChains(time, times[m], times[m]);
      AtMostChains(time, times[m], times[i]);
    }
  }

  lemma LaterIsLater(latest: Option<string>, time: string)
    ensures AtMost(time, Later(latest, time).value)
    ensures latest.Some? ==> AtMost(latest.value, Later(latest, time).value)
    ensures Later(latest, time) == Some(time) || Later(latest, time) == latest
  {
    if latest.Some? {
      LessIsTotal(latest.value, time);
    }
  }

  lemma {:induction false} ActionsRun(x: Setup, s: Progress, time: string)
    requires Consistent(x, s) && DueActions(x, s, time).Success?
    ensures var t := DueActions(x, s, time).value;
            && Consistent(x, t) && t.delisting == s.delisting && t.accrual == s.accrual && t.last == s.last
            && FillsIn(t.trace) == FillsIn(s.trace) && ClosesIn(t.trace) == ClosesIn(s.trace)
            && s.action <= t.action && (forall i :: s.action <= i < t.action ==> AtMost(ActionTimes(x)[i], time))
            && (t.action < |x.actions| ==> !AtMost(ActionTimes(x)[t.action], time))
    decreases |x.actions| - s.action
  {
    hide Consistent, NextAction, FillsIn, ClosesIn, AtMost;
    assert s.action <= |x.actions| by { CursorsInRange(x, s); }
    if s.action < |x.actions| && AtMost(x.actions[s.action].at, time) {
      ActionIsConsistent(x, s);
      ActionsRun(x, NextAction(x, s).value, time);
    }
  }

  lemma CursorsInRange(x: Setup, s: Progress)
    requires Consistent(x, s)
    ensures s.action <= |x.actions| && s.delisting <= |x.delistings| && s.accrual <= |x.accruals|
  {
  }

  lemma {:induction false} DelistingsRun(x: Setup, s: Progress, time: string)
    requires Consistent(x, s) && DueDelistings(x, s, time).Success?
    ensures var t := DueDelistings(x, s, time).value;
            && Consistent(x, t) && t.action == s.action && t.accrual == s.accrual && t.last == s.last
            && FillsIn(t.trace) == FillsIn(s.trace) && ClosesIn(t.trace) == ClosesIn(s.trace)
            && s.delisting <= t.delisting
            && (forall i :: s.delisting <= i < t.delisting ==> AtMost(DelistingTimes(x)[i], time))
            && (t.delisting < |x.delistings| ==> !AtMost(DelistingTimes(x)[t.delisting], time))
    decreases |x.delistings| - s.delisting
  {
    hide Consistent, NextDelisting, FillsIn, ClosesIn, AtMost;
    assert s.delisting <= |x.delistings| by { CursorsInRange(x, s); }
    if s.delisting < |x.delistings| && AtMost(x.delistings[s.delisting].at, time) {
      DelistingIsConsistent(x, s);
      DelistingsRun(x, NextDelisting(x, s).value, time);
    }
  }

  lemma {:induction false} AccrualsRun(x: Setup, s: Progress, time: string)
    requires Consistent(x, s) && DueAccruals(x, s, time).Success?
    ensures var t := DueAccruals(x, s, time).value;
            && Consistent(x, t) && t.action == s.action && t.delisting == s.delisting && t.last == s.last
            && FillsIn(t.trace) == FillsIn(s.trace) && ClosesIn(t.trace) == ClosesIn(s.trace)
            && s.accrual <= t.accrual
            && (forall i :: s.accrual <= i < t.accrual ==> AtMost(AccrualTimes(x)[i], time))
            && (t.accrual < |x.accruals| ==> !AtMost(AccrualTimes(x)[t.accrual], time))
    decreases |x.accruals| - s.accrual
  {
    hide Consistent, NextAccrual, FillsIn, ClosesIn, AtMost;
    assert s.accrual <= |x.accruals| by { CursorsInRange(x, s); }
    if s.accrual < |x.accruals| && AtMost(x.accruals[s.accrual].at, time) {
      AccrualIsConsistent(x, s);
      AccrualsRun(x, NextAccrual(x, s).value, time);
    }
  }

  lemma CloseIsConsistent(x: Setup, s: Progress, bar: Event)
    requires Consistent(x, s) && bar.Bar? && OnClose(s, bar).Success?
    ensures var t := OnClose(s, bar).value;
            && Consistent(x, t) && t.action == s.action && t.delisting == s.delisting && t.accrual == s.accrual
            && t.last == Some(bar.time) && FillsIn(t.trace) == FillsIn(s.trace)
            && ClosesIn(t.trace) == ClosesIn(s.trace) + [(bar.instrument, bar.close)]
  {
    hide ActionsIn, DelistingsIn, AccrualsIn, FillsIn, ClosesIn, MarksAfter, MarksAreSeen, SplitMarks;
    OneMoreStep(s.trace, Close(bar.instrument, bar.close));
  }

  lemma FillIsConsistent(x: Setup, s: Progress, fill: Fill)
    requires Consistent(x, s) && OnFill(x, s, fill).Success?
    ensures var t := OnFill(x, s, fill).value;
            && Consistent(x, t) && t == s.(trace := s.trace + [Trade(fill, MarksAfter(s.trace))])
            && FillsIn(t.trace) == FillsIn(s.trace) + [fill] && ClosesIn(t.trace) == ClosesIn(s.trace)
  {
    hide ActionsIn, DelistingsIn, AccrualsIn, FillsIn, ClosesIn, MarksAfter, MarksAreSeen, SplitMarks;
    OneMoreStep(s.trace, Trade(fill, s.marks));
  }

  /** The cursors are at the cut of the greatest bar time so far, all three. */
  ghost predicate CutsAt(x: Setup, s: Progress, latest: Option<string>) {
    && IsCut(ActionTimes(x), s.action, latest)
    && IsCut(DelistingTimes(x), s.delisting, latest)
    && IsCut(AccrualTimes(x), s.accrual, latest)
  }

  lemma BarMovesCuts(x: Setup, s: Progress, bar: Event, latest: Option<string>)
    requires bar.Bar? && IsScheduled(x) && Consistent(x, s) && CutsAt(x, s, latest) && OnBar(x, s, bar).Success?
    ensures var t := OnBar(x, s, bar).value;
            && Consistent(x, t) && CutsAt(x, t, Later(latest, bar.time)) && t.last == Some(bar.time)
            && FillsIn(t.trace) == FillsIn(s.trace)
            && ClosesIn(t.trace) == ClosesIn(s.trace) + [(bar.instrument, bar.close)]
  {
    hide Consistent, IsCut, DueActions, DueDelistings, DueAccruals, OnClose, FillsIn, ClosesIn, AreOrdered, AtMost, Less, Later,
         ActionTimes, DelistingTimes, AccrualTimes;
    var time := bar.time;
    var a := DueActions(x, s, time).value;
    ActionsRun(x, s, time);
    var b := DueDelistings(x, a, time).value;
    DelistingsRun(x, a, time);
    var d := DueAccruals(x, b, time).value;
    AccrualsRun(x, b, time);
    CloseIsConsistent(x, d, bar);
    CursorsInRange(x, d);
    CutMoves(ActionTimes(x), s.action, d.action, latest, time);
    CutMoves(DelistingTimes(x), s.delisting, d.delisting, latest, time);
    CutMoves(AccrualTimes(x), s.accrual, d.accrual, latest, time);
  }

  // ----- Every stream -----

  /** The greatest bar time of a stream. */
  function Latest(events: seq<Event>): Option<string> {
    if events == [] then None
    else
      var last := events[|events| - 1];
      if last.Bar? then Later(Latest(events[..|events| - 1]), last.time) else Latest(events[..|events| - 1])
  }

  function FillsOf(events: seq<Event>): seq<Fill> {
    if events == [] then []
    else
      var last := events[|events| - 1];
      FillsOf(events[..|events| - 1]) + (if last.Filled? then [last.fill] else [])
  }

  function ClosesOf(events: seq<Event>): seq<(string, int)> {
    if events == [] then []
    else
      var last := events[|events| - 1];
      ClosesOf(events[..|events| - 1]) + (if last.Bar? then [(last.instrument, last.close)] else [])
  }

  /** What holds after any stream: the operations are exactly the scheduled items due by the greatest bar time so far, each
      once and in order, with the stream's fills; and the marks any operation saw are those of the steps before it. */
  ghost predicate Merged(x: Setup, s: Progress, events: seq<Event>) {
    && Consistent(x, s) && CutsAt(x, s, Latest(events))
    && FillsIn(s.trace) == FillsOf(events) && ClosesIn(s.trace) == ClosesOf(events)
    && (s.last.None? <==> Latest(events).None?)
  }

  lemma StartIsMerged(x: Setup)
    ensures Merged(x, START, [])
  {
  }

  lemma EventMerges(x: Setup, s: Progress, front: seq<Event>, event: Event)
    requires IsScheduled(x) && Merged(x, s, front) && OnEvent(x, s, event).Success?
    ensures Merged(x, OnEvent(x, s, event).value, front + [event])
  {
    hide Consistent, CutsAt, OnBar, OnFill, FillsIn, ClosesIn, IsScheduled, Less;
    var events := front + [event];
    assert events[..|front|] == front;
    match event
    case Bar(_, _, _) => BarMovesCuts(x, s, event, Latest(front));
    case Filled(_, fill) =>
      FillIsConsistent(x, s, fill);
      var t := OnFill(x, s, fill).value;
      SameCuts(x, s, t, Latest(front));
    case Unrelated(_) =>
  }

  lemma SameCuts(x: Setup, s: Progress, t: Progress, latest: Option<string>)
    requires CutsAt(x, s, latest) && t.action == s.action && t.delisting == s.delisting && t.accrual == s.accrual
    ensures CutsAt(x, t, latest)
  {
  }

  lemma {:induction false} EveryStreamMerges(x: Setup, events: seq<Event>)
    requires IsScheduled(x) && Run(x, events).Success?
    ensures Merged(x, Run(x, events).value, events)
  {
    hide Merged, OnEvent, IsScheduled;
    if events == [] {
      StartIsMerged(x);
    } else {
      var front := events[..|events| - 1];
      EveryStreamMerges(x, front);
      EventMerges(x, Run(x, front).value, front, events[|events| - 1]);
      assert front + [events[|events| - 1]] == events;
    }
  }

  /** A fill is given the marks of the steps before it, and the closes among those are the closes of the bars before it in
      the stream. */
  lemma FillsSeeEarlierCloses(x: Setup, events: seq<Event>, k: nat)
    requires IsScheduled(x) && k < |events| && events[k].Filled? && Run(x, events[..k + 1]).Success?
    ensures Run(x, events[..k]).Success?
    ensures var before := Run(x, events[..k]).value;
            && Run(x, events[..k + 1]).value.trace
               == before.trace + [Trade(events[k].fill, MarksAfter(before.trace))]
            && ClosesIn(before.trace) == ClosesOf(events[..k])
  {
    hide IsScheduled, OnFill, MarksAfter, ClosesIn;
    assert events[..k + 1][..k] == events[..k];
    EveryStreamMerges(x, events[..k]);
    FillIsConsistent(x, Run(x, events[..k]).value, events[k].fill);
  }

  // ----- The order within one event -----

  /** Where a step stands among those of one bar. */
  function Rank(step: Step): nat {
    match step
    case Act(_) => 0
    case Settle(_) => 1
    case Accrue(_, _) => 2
    case Close(_, _) => 3
    case Trade(_, _) => 4
  }

  /** Steps of one rank were added, each accepted by the account after the steps before it. */
  ghost predicate Adds(x: Setup, before: seq<Step>, after: seq<Step>, rank: nat) {
    && before <= after
    && forall i :: |before| <= i < |after| ==> Rank(after[i]) == rank && !x.refuses(after[..i], after[i])
  }

  lemma AddsNothing(x: Setup, trace: seq<Step>, rank: nat)
    ensures Adds(x, trace, trace, rank)
  {
  }

  lemma AddsOne(x: Setup, s: Progress, step: Step)
    requires Take(x, s, step).Success?
    ensures Adds(x, s.trace, Take(x, s, step).value.trace, Rank(step))
  {
    assert (s.trace + [step])[..|s.trace|] == s.trace;
  }

  lemma AddsBoth(x: Setup, a: seq<Step>, b: seq<Step>, c: seq<Step>, rank: nat)
    requires Adds(x, a, b, rank) && Adds(x, b, c, rank)
    ensures Adds(x, a, c, rank)
  {
    assert forall i :: |a| <= i < |b| ==> c[i] == b[i] && c[..i] == b[..i];
  }

  lemma {:induction false} ActionsAdd(x: Setup, s: Progress, time: string)
    requires DueActions(x, s, time).Success?
    ensures Adds(x, s.trace, DueActions(x, s, time).value.trace, 0)
    decreases |x.actions| - s.action
  {
    hide Adds, AtMost, SplitMarks, Take;
    if s.action < |x.actions| && AtMost(x.actions[s.action].at, time) {
      var t := NextAction(x, s).value;
      AddsOne(x, s, Act(x.actions[s.action]));
      ActionsAdd(x, t, time);
      AddsBoth(x, s.trace, t.trace, DueActions(x, t, time).value.trace, 0);
    } else {
      AddsNothing(x, s.trace, 0);
    }
  }

  lemma {:induction false} DelistingsAdd(x: Setup, s: Progress, time: string)
    requires DueDelistings(x, s, time).Success?
    ensures Adds(x, s.trace, DueDelistings(x, s, time).value.trace, 1)
    decreases |x.delistings| - s.delisting
  {
    hide Adds, AtMost, Take;
    if s.delisting < |x.delistings| && AtMost(x.delistings[s.delisting].at, time) {
      var t := NextDelisting(x, s).value;
      AddsOne(x, s, Settle(x.delistings[s.delisting]));
      DelistingsAdd(x, t, time);
      AddsBoth(x, s.trace, t.trace, DueDelistings(x, t, time).value.trace, 1);
    } else {
      AddsNothing(x, s.trace, 1);
    }
  }

  lemma {:induction false} AccrualsAdd(x: Setup, s: Progress, time: string)
    requires DueAccruals(x, s, time).Success?
    ensures Adds(x, s.trace, DueAccruals(x, s, time).value.trace, 2)
    decreases |x.accruals| - s.accrual
  {
    hide Adds, AtMost, Take;
    if s.accrual < |x.accruals| && AtMost(x.accruals[s.accrual].at, time) {
      var t := NextAccrual(x, s).value;
      AddsOne(x, s, Accrue(x.accruals[s.accrual], s.marks));
      AccrualsAdd(x, t, time);
      AddsBoth(x, s.trace, t.trace, DueAccruals(x, t, time).value.trace, 2);
    } else {
      AddsNothing(x, s.trace, 2);
    }
  }

  /** A bar adds corporate actions, then delistings, then accruals, each accepted by the account after the steps before it, and last
      its own close, which is positive. */
  ghost predicate BarExtends(x: Setup, before: seq<Step>, after: seq<Step>, bar: Event)
    requires bar.Bar?
  {
    && before < after && after[|after| - 1] == Close(bar.instrument, bar.close) && bar.close > 0
    && (forall i :: |before| <= i < |after| - 1 ==> after[i].Act? || after[i].Settle? || after[i].Accrue?)
    && (forall i, j :: |before| <= i < j < |after| ==> Rank(after[i]) <= Rank(after[j]))
    && (forall i :: |before| <= i < |after| - 1 ==> !x.refuses(after[..i], after[i]))
  }

  /** A fill adds its trade, at the marks of the steps before it, when it has a side, an instrument with terms and a canonical time;
      any other event adds nothing. */
  ghost predicate EventExtends(x: Setup, before: seq<Step>, after: seq<Step>, event: Event) {
    match event
    case Bar(_, _, _) => BarExtends(x, before, after, event)
    case Filled(_, fill) =>
      && after == before + [Trade(fill, MarksAfter(before))] && !x.refuses(before, Trade(fill, MarksAfter(before)))
      && fill.buys.Some? && fill.instrument in x.terms && CanonicalTime.IsCanonical(fill.at)
    case Unrelated(_) => after == before
  }

  lemma FourParts(x: Setup, s: seq<Step>, a: seq<Step>, b: seq<Step>, d: seq<Step>, bar: Event)
    requires bar.Bar? && bar.close > 0 && Adds(x, s, a, 0) && Adds(x, a, b, 1) && Adds(x, b, d, 2)
    ensures BarExtends(x, s, d + [Close(bar.instrument, bar.close)], bar)
  {
    var after := d + [Close(bar.instrument, bar.close)];
    forall i | |s| <= i < |d|
      ensures after[i] == d[i] && after[..i] == d[..i] && !x.refuses(after[..i], after[i])
      ensures Rank(after[i]) == if i < |a| then 0 else if i < |b| then 1 else 2
    {
      if i < |a| {
        assert d[i] == b[i] == a[i] && d[..i] == b[..i] == a[..i];
      } else if i < |b| {
        assert d[i] == b[i] && d[..i] == b[..i];
      }
    }
  }

  lemma BarAdds(x: Setup, s: Progress, bar: Event)
    requires bar.Bar? && OnBar(x, s, bar).Success?
    ensures BarExtends(x, s.trace, OnBar(x, s, bar).value.trace, bar)
  {
    hide DueActions, DueDelistings, DueAccruals, Adds, BarExtends;
    var time := bar.time;
    var a := DueActions(x, s, time).value;
    ActionsAdd(x, s, time);
    var b := DueDelistings(x, a, time).value;
    DelistingsAdd(x, a, time);
    var d := DueAccruals(x, b, time).value;
    AccrualsAdd(x, b, time);
    FourParts(x, s.trace, a.trace, b.trace, d.trace, bar);
  }

  /** Event by event: what each one adds to the operations, and in what order. */
  lemma EachEventExtends(x: Setup, events: seq<Event>, k: nat)
    requires IsScheduled(x) && k < |events| && Run(x, events[..k + 1]).Success?
    ensures Run(x, events[..k]).Success?
    ensures EventExtends(x, Run(x, events[..k]).value.trace, Run(x, events[..k + 1]).value.trace, events[k])
  {
    hide IsScheduled, MarksAfter, OnBar, BarExtends, CanonicalTime.IsCanonical, ClosesIn, FillsIn, ActionsIn, DelistingsIn,
         AccrualsIn, CutsAt;
    assert events[..k + 1][..k] == events[..k];
    EveryStreamMerges(x, events[..k]);
    var s := Run(x, events[..k]).value;
    match events[k]
    case Bar(_, _, _) => BarAdds(x, s, events[k]);
    case Filled(_, fill) =>
    case Unrelated(_) =>
  }

  /** The account refuses the step after some steps that begin with these. */
  ghost predicate RefusedAfter(x: Setup, before: seq<Step>, error: Error) {
    error.Refused? && exists trace :: before <= trace && x.refuses(trace, error.step)
  }

  lemma RefusedLater(x: Setup, before: seq<Step>, later: seq<Step>, error: Error)
    requires before <= later && RefusedAfter(x, later, error)
    ensures RefusedAfter(x, before, error)
  {
    var trace :| later <= trace && x.refuses(trace, error.step);
    assert before <= trace;
  }

  lemma {:induction false} ActionsFail(x: Setup, s: Progress, time: string)
    requires DueActions(x, s, time).Failure?
    ensures var e := DueActions(x, s, time).error; e == Overflow || (RefusedAfter(x, s.trace, e) && e.step.Act?)
    decreases |x.actions| - s.action
  {
    hide RefusedAfter, AtMost, SplitMarks;
    if NextAction(x, s).Success? {
      var t := NextAction(x, s).value;
      ActionsFail(x, t, time);
      var e := DueActions(x, t, time).error;
      if e != Overflow {
        RefusedLater(x, s.trace, t.trace, e);
      }
    } else {
      RefusedNow(x, s, Act(x.actions[s.action]));
    }
  }

  lemma RefusedNow(x: Setup, s: Progress, step: Step)
    ensures Take(x, s, step).Failure? ==> RefusedAfter(x, s.trace, Refused(step))
  {
    assert s.trace <= s.trace;
  }

  lemma {:induction false} DelistingsFail(x: Setup, s: Progress, time: string)
    requires DueDelistings(x, s, time).Failure?
    ensures var e := DueDelistings(x, s, time).error; RefusedAfter(x, s.trace, e) && e.step.Settle?
    decreases |x.delistings| - s.delisting
  {
    hide RefusedAfter, AtMost;
    if NextDelisting(x, s).Success? {
      var t := NextDelisting(x, s).value;
      DelistingsFail(x, t, time);
      RefusedLater(x, s.trace, t.trace, DueDelistings(x, t, time).error);
    } else {
      RefusedNow(x, s, Settle(x.delistings[s.delisting]));
    }
  }

  lemma {:induction false} AccrualsFail(x: Setup, s: Progress, time: string)
    requires DueAccruals(x, s, time).Failure?
    ensures var e := DueAccruals(x, s, time).error; RefusedAfter(x, s.trace, e) && e.step.Accrue?
    decreases |x.accruals| - s.accrual
  {
    hide RefusedAfter, AtMost;
    if NextAccrual(x, s).Success? {
      var t := NextAccrual(x, s).value;
      AccrualsFail(x, t, time);
      RefusedLater(x, s.trace, t.trace, DueAccruals(x, t, time).error);
    } else {
      RefusedNow(x, s, Accrue(x.accruals[s.accrual], s.marks));
    }
  }

  /** Why an event stops the projection. A bar: its close is not positive, a mark overflows, or the account refuses an item. A fill:
      the first of the four things that can be wrong with one. */
  ghost predicate EventFails(x: Setup, before: seq<Step>, event: Event, error: Error) {
    match event
    case Bar(_, _, close) =>
      || (error == NonPositiveClose && close <= 0) || error == Overflow
      || (RefusedAfter(x, before, error) && !error.step.Trade? && !error.step.Close?)
    case Filled(_, fill) =>
      && (error == InvalidSide <==> fill.buys.None?)
      && (error == NoTerms(fill.instrument) <==> fill.buys.Some? && fill.instrument !in x.terms)
      && (error == BadTime(fill.at) <==>
            fill.buys.Some? && fill.instrument in x.terms && !CanonicalTime.IsCanonical(fill.at))
      && (fill.buys.Some? && fill.instrument in x.terms && CanonicalTime.IsCanonical(fill.at) ==>
            error == Refused(Trade(fill, MarksAfter(before))) && x.refuses(before, Trade(fill, MarksAfter(before))))
    case Unrelated(_) => false
  }

  lemma BarFails(x: Setup, s: Progress, bar: Event)
    requires bar.Bar? && OnBar(x, s, bar).Failure?
    ensures EventFails(x, s.trace, bar, OnBar(x, s, bar).error)
  {
    hide DueActions, DueDelistings, DueAccruals, RefusedAfter, CanonicalTime.IsCanonical;
    var time := bar.time;
    if DueActions(x, s, time).Failure? {
      ActionsFail(x, s, time);
    } else {
      var a := DueActions(x, s, time).value;
      ActionsAdd(x, s, time);
      if DueDelistings(x, a, time).Failure? {
        DelistingsFail(x, a, time);
        RefusedLater(x, s.trace, a.trace, DueDelistings(x, a, time).error);
      } else {
        var b := DueDelistings(x, a, time).value;
        DelistingsAdd(x, a, time);
        if DueAccruals(x, b, time).Failure? {
          AccrualsFail(x, b, time);
          RefusedLater(x, s.trace, b.trace, DueAccruals(x, b, time).error);
        }
      }
    }
  }

  /** And which event stops a stream, and why. */
  lemma EachEventFails(x: Setup, events: seq<Event>, k: nat)
    requires IsScheduled(x) && k < |events| && Run(x, events[..k]).Success? && Run(x, events[..k + 1]).Failure?
    ensures EventFails(x, Run(x, events[..k]).value.trace, events[k], Run(x, events[..k + 1]).error)
  {
    hide IsScheduled, MarksAfter, OnBar, RefusedAfter, CanonicalTime.IsCanonical, ClosesIn, FillsIn, ActionsIn, DelistingsIn,
         AccrualsIn, CutsAt;
    assert events[..k + 1][..k] == events[..k];
    EveryStreamMerges(x, events[..k]);
    var s := Run(x, events[..k]).value;
    if events[k].Bar? {
      BarFails(x, s, events[k]);
    }
  }

  /** A projection that succeeds has settled every delisting and charged every accrual, and has applied exactly the corporate
      actions due by the greatest bar time: all of them if and only if none lies after it. */
  lemma SuccessMeansApplied(x: Setup, events: seq<Event>)
    requires IsScheduled(x) && Projected(x, events).Success?
    ensures var s := Projected(x, events).value;
            && DelistingsIn(s.trace) == x.delistings && AccrualsIn(s.trace) == x.accruals
            && FillsIn(s.trace) == FillsOf(events)
            && Latest(events).Some?
            && (ActionsIn(s.trace) == x.actions <==>
                  forall i :: 0 <= i < |x.actions| ==> AtMost(x.actions[i].at, Latest(events).value))
  {
    hide IsScheduled, Run, Less, AtMost, FillsIn, ActionsIn, DelistingsIn, AccrualsIn, MarksAfter, MarksAreSeen;
    EveryStreamMerges(x, events);
    var s := Projected(x, events).value;
    assert x.delistings[..|x.delistings|] == x.delistings && x.accruals[..|x.accruals|] == x.accruals;
    ActionsAreAll(x, s, Latest(events));
  }

  lemma ActionsAreAll(x: Setup, s: Progress, latest: Option<string>)
    requires IsCut(ActionTimes(x), s.action, latest) && latest.Some? && ActionsIn(s.trace) == x.actions[..s.action]
    ensures ActionsIn(s.trace) == x.actions <==>
              forall i :: 0 <= i < |x.actions| ==> AtMost(x.actions[i].at, latest.value)
  {
    hide Less, AtMost, ActionsIn;
    if s.action < |x.actions| {
      assert |x.actions[..s.action]| < |x.actions|;
      AtMostChains(latest.value, x.actions[s.action].at, latest.value);
      assert ActionTimes(x)[s.action] == x.actions[s.action].at;
    } else {
      assert x.actions[..s.action] == x.actions;
      assert forall i :: 0 <= i < |x.actions| ==> ActionTimes(x)[i] == x.actions[i].at;
    }
  }

  /** The time of the last bar, which need not be the greatest. */
  function LastBarTime(events: seq<Event>): Option<string> {
    if events == [] then None
    else
      var last := events[|events| - 1];
      if last.Bar? then Some(last.time) else LastBarTime(events[..|events| - 1])
  }

  lemma {:induction false} LastIsLastBar(x: Setup, events: seq<Event>)
    requires IsScheduled(x) && Run(x, events).Success?
    ensures Run(x, events).value.last == LastBarTime(events)
  {
    hide IsScheduled, OnBar, Merged, Consistent, MarksAfter, FillsIn, ClosesIn, CutsAt;
    if events != [] {
      var front := events[..|events| - 1];
      LastIsLastBar(x, front);
      EveryStreamMerges(x, front);
      EventKeepsLast(x, Run(x, front).value, front, events[|events| - 1]);
    }
  }

  lemma EventKeepsLast(x: Setup, s: Progress, front: seq<Event>, event: Event)
    requires IsScheduled(x) && Merged(x, s, front) && OnEvent(x, s, event).Success?
    ensures OnEvent(x, s, event).value.last == if event.Bar? then Some(event.time) else s.last
  {
    hide IsScheduled, OnBar, Consistent, CutsAt, FillsIn, ClosesIn, CanonicalTime.IsCanonical;
    if event.Bar? {
      BarMovesCuts(x, s, event, Latest(front));
    }
  }

  /** A stream that runs succeeds exactly when it has a bar, no delisting or accrual lies after the greatest bar time, and the time
      of its last bar is canonical. */
  lemma SucceedsExactlyWhen(x: Setup, events: seq<Event>)
    requires IsScheduled(x) && Run(x, events).Success?
    ensures Projected(x, events).Success? <==>
              && LastBarTime(events).Some? && CanonicalTime.IsCanonical(LastBarTime(events).value) && Latest(events).Some?
              && (forall i :: 0 <= i < |x.delistings| ==> AtMost(x.delistings[i].at, Latest(events).value))
              && (forall i :: 0 <= i < |x.accruals| ==> AtMost(x.accruals[i].at, Latest(events).value))
  {
    hide IsScheduled, Run, Less, AtMost, FillsIn, ClosesIn, CanonicalTime.IsCanonical, Consistent, CutsAt;
    EveryStreamMerges(x, events);
    LastIsLastBar(x, events);
    OutsideRangeExactlyWhen(x, events);
    if Latest(events).Some? {
      forall at ensures AtMost(at, Latest(events).value) <==> !Less(Latest(events).value, at) {
        AtMostChains(Latest(events).value, at, at);
      }
    }
  }

  /** A stream that runs is refused at the end for a schedule outside its range exactly when it has a bar and some delisting
      or accrual lies after the greatest bar time. */
  lemma OutsideRangeExactlyWhen(x: Setup, events: seq<Event>)
    requires IsScheduled(x) && Run(x, events).Success?
    ensures Projected(x, events) == Failure(OutsideRange) <==>
              Latest(events).Some? &&
              ((exists i :: 0 <= i < |x.delistings| && Less(Latest(events).value, x.delistings[i].at)) ||
               (exists i :: 0 <= i < |x.accruals| && Less(Latest(events).value, x.accruals[i].at)))
  {
    hide IsScheduled, Run, Less, AtMost, Consistent, FillsIn, ClosesIn;
    EveryStreamMerges(x, events);
    var s := Run(x, events).value;
    if Latest(events).Some? {
      CutLeavesSome(DelistingTimes(x), s.delisting, Latest(events).value);
      CutLeavesSome(AccrualTimes(x), s.accrual, Latest(events).value);
      TimesOfSchedules(x, Latest(events).value);
    }
  }

  lemma CutLeavesSome(times: seq<string>, n: nat, latest: string)
    requires IsCut(times, n, Some(latest))
    ensures n < |times| <==> exists i :: 0 <= i < |times| && Less(latest, times[i])
  {
    hide Less, AtMost;
    forall i | 0 <= i < n ensures !Less(latest, times[i]) {
      AtMostChains(latest, times[i], latest);
    }
    if n < |times| {
      assert Less(latest, times[n]);
    }
  }

  lemma TimesOfSchedules(x: Setup, latest: string)
    ensures (exists i :: 0 <= i < |DelistingTimes(x)| && Less(latest, DelistingTimes(x)[i]))
            <==> (exists i :: 0 <= i < |x.delistings| && Less(latest, x.delistings[i].at))
    ensures (exists i :: 0 <= i < |AccrualTimes(x)| && Less(latest, AccrualTimes(x)[i]))
            <==> (exists i :: 0 <= i < |x.accruals| && Less(latest, x.accruals[i].at))
  {
    hide Less;
    forall i | 0 <= i < |x.delistings| && Less(latest, x.delistings[i].at) ensures Less(latest, DelistingTimes(x)[i]) {
    }
    forall i | 0 <= i < |x.accruals| && Less(latest, x.accruals[i].at) ensures Less(latest, AccrualTimes(x)[i]) {
    }
  }

  /** A corporate action after the last bar is passed over without an error, where a delisting or an accrual would be one. */
  lemma TrailingActionIsIgnored(x: Setup, action: Action, bar: Event)
    requires x.actions == [action] && x.delistings == [] && x.accruals == []
    requires bar.Bar? && bar.close > 0 && CanonicalTime.IsCanonical(bar.time) && Less(bar.time, action.at)
    ensures Projected(x, [bar]).Success? && ActionsIn(Projected(x, [bar]).value.trace) == []
  {
    hide Less, CanonicalTime.IsCanonical, DueDelistings, DueAccruals;
    AtMostChains(bar.time, action.at, bar.time);
    var stream := [bar];
    assert stream[..0] == [] && stream[0] == bar;
    assert Run(x, []) == Success(START);
    assert DueActions(x, START, bar.time) == Success(START);
    NothingElseDue(x, bar.time);
    assert Run(x, stream) == OnBar(x, START, bar) == OnClose(START, bar);
    CloseIsNoAction(bar.instrument, bar.close);
  }

  lemma NothingElseDue(x: Setup, time: string)
    requires x.delistings == [] && x.accruals == []
    ensures DueDelistings(x, START, time) == Success(START) && DueAccruals(x, START, time) == Success(START)
  {
  }

  lemma CloseIsNoAction(instrument: string, price: int)
    ensures ActionsIn([] + [Close(instrument, price)]) == []
  {
    var trace := [] + [Close(instrument, price)];
    assert trace[..0] == [];
  }

  // ----- What a mark is -----

  predicate ClosesInstrument(step: Step, instrument: string) {
    step.Close? && step.instrument == instrument
  }

  /** A price after the splits of its instrument among some steps. */
  function AfterSplits(price: int, steps: seq<Step>, instrument: string): int {
    if steps == [] then price
    else
      var before, last := AfterSplits(price, steps[..|steps| - 1], instrument), steps[|steps| - 1];
      if last.Act? && last.action.Split? && last.action.instrument == instrument
         && CheckedDiv(before, last.action.ratio).Some?
      then CheckedDiv(before, last.action.ratio).value else before
  }

  /** The mark of an instrument is its last close, divided by the ratio of every split of it since. */
  lemma {:induction false} MarkIsLastClose(before: seq<Step>, price: int, since: seq<Step>, instrument: string)
    requires forall step :: step in since ==> !ClosesInstrument(step, instrument)
    ensures var marks := MarksAfter(before + [Close(instrument, price)] + since);
            instrument in marks && marks[instrument] == AfterSplits(price, since, instrument)
    decreases |since|
  {
    var start := before + [Close(instrument, price)];
    if since == [] {
      assert start + since == start && start[..|before|] == before;
    } else {
      var front, last := since[..|since| - 1], since[|since| - 1];
      assert start + since == start + front + [last];
      MarkIsLastClose(before, price, front, instrument);
      OneMoreStep(start + front, last);
      assert last in since;
    }
  }

  /** An instrument that never closed has no mark. */
  lemma {:induction false} NoMarkBeforeAClose(trace: seq<Step>, instrument: string)
    requires forall step :: step in trace ==> !ClosesInstrument(step, instrument)
    ensures instrument !in MarksAfter(trace)
  {
    if trace != [] {
      var front, last := trace[..|trace| - 1], trace[|trace| - 1];
      assert trace == front + [last];
      NoMarkBeforeAClose(front, instrument);
      assert last in trace;
    }
  }

  /** Marks are never negative: closes are positive, and so is every split ratio the account accepts. */
  lemma {:induction false} MarksStayNonNegative(trace: seq<Step>, instrument: string)
    requires forall step :: step in trace && step.Close? ==> step.price > 0
    requires forall step :: step in trace && step.Act? && step.action.Split? ==> step.action.ratio > 0
    requires instrument in MarksAfter(trace)
    ensures MarksAfter(trace)[instrument] >= 0
  {
    hide Quotient;
    if trace != [] {
      var front, last := trace[..|trace| - 1], trace[|trace| - 1];
      assert trace == front + [last] && last in trace;
      if instrument in MarksAfter(front) {
        MarksStayNonNegative(front, instrument);
        if last.Act? && last.action.Split? {
          MarkStaysNonNegative(MarksAfter(front)[instrument], last.action.ratio);
        }
      }
    }
  }

  /** A split multiplies the quantity of the position and divides its mark, each toward zero. It leaves the value of a long
      position as it was or lower, by less than a unit of the last place for every unit of the old quantity and a unit of the
      new quantity at the new mark; it does the opposite to a short one; and it leaves the value exactly as it was exactly when
      neither operation drops anything that counts. No other mark moves. */
  lemma SplitKeepsValue(marks: Marks, action: Action, quantity: int)
    requires action.Split? && action.ratio > 0 && action.instrument in marks && marks[action.instrument] >= 0
    requires SplitMarks(marks, action).Some? && CheckedMul(quantity, action.ratio).Some?
    ensures var after := SplitMarks(marks, action).value;
            && after.Keys == marks.Keys
            && forall other :: other in marks && other != action.instrument ==> after[other] == marks[other]
    ensures var mark, newMark := marks[action.instrument], SplitMarks(marks, action).value[action.instrument];
            var newQuantity := CheckedMul(quantity, action.ratio).value;
            var loss := SCALE * (quantity * mark - newQuantity * newMark);
            && (quantity >= 0 ==> 0 <= loss <= quantity * (action.ratio - 1) + (SCALE - 1) * newMark)
            && (quantity <= 0 ==> 0 <= -loss <= -quantity * (action.ratio - 1) + (SCALE - 1) * newMark)
            && (loss == 0 <==> && (quantity == 0 || Divides(action.ratio, mark * SCALE))
                               && (newMark == 0 || Divides(SCALE, quantity * action.ratio)))
  {
    hide Quotient, FitsI128;
    var mark, ratio := marks[action.instrument], action.ratio;
    assert SplitMarks(marks, action).value[action.instrument] == Quotient(mark * SCALE, ratio);
    SplitLossWithin(quantity, mark, ratio);
  }

  // ----- The schedules as they are prepared -----

  predicate ActionLess(a: Action, b: Action) {
    Less(a.at, b.at) || (a.at == b.at && Less(a.id, b.id))
  }

  predicate DelistingLess(a: Delisting, b: Delisting) {
    Less(a.at, b.at)
  }

  predicate AccrualLess(a: Accrual, b: Accrual) {
    Less(a.at, b.at)
  }

  /** The schedules sorted by time, corporate actions by time and id. */
  function Prepared(x: Setup): Setup {
    x.(actions := StableSort(ActionLess, x.actions),
       delistings := StableSort(DelistingLess, x.delistings),
       accruals := StableSort(AccrualLess, x.accruals))
  }

  lemma NotLessChains(a: string, b: string, c: string)
    ensures !Less(b, a) && !Less(c, b) ==> !Less(c, a)
    ensures !(Less(a, b) && Less(b, a))
    ensures !Less(b, a) && !Less(c, b) && a == c ==> a == b
  {
    LessIsTotal(a, b);
    LessIsTotal(b, c);
    LessIsTotal(a, c);
    if Less(a, b) && Less(b, c) {
      LessIsTransitive(a, b, c);
    }
  }

  lemma DelistingOrder()
    ensures IsWeakOrder(DelistingLess)
  {
    hide Less;
    forall a: Delisting, b: Delisting, c: Delisting
      ensures !(DelistingLess(a, b) && DelistingLess(b, a))
      ensures !DelistingLess(b, a) && !DelistingLess(c, b) ==> !DelistingLess(c, a)
    {
      NotLessChains(a.at, b.at, c.at);
    }
  }

  lemma AccrualOrder()
    ensures IsWeakOrder(AccrualLess)
  {
    hide Less;
    forall a: Accrual, b: Accrual, c: Accrual
      ensures !(AccrualLess(a, b) && AccrualLess(b, a))
      ensures !AccrualLess(b, a) && !AccrualLess(c, b) ==> !AccrualLess(c, a)
    {
      NotLessChains(a.at, b.at, c.at);
    }
  }

  lemma ActionOrder()
    ensures IsWeakOrder(ActionLess)
  {
    hide Less;
    forall a: Action, b: Action, c: Action
      ensures !(ActionLess(a, b) && ActionLess(b, a))
      ensures !ActionLess(b, a) && !ActionLess(c, b) ==> !ActionLess(c, a)
    {
      NotLessChains(a.at, b.at, c.at);
      NotLessChains(c.at, b.at, a.at);
      NotLessChains(a.id, b.id, c.id);
      LessIsTotal(a.at, b.at);
      LessIsTotal(b.at, c.at);
    }
  }

  function DelistingsAt(list: seq<Delisting>, time: string): seq<Delisting> {
    Only(list, (d: Delisting) => d.at == time)
  }

  function AccrualsAt(list: seq<Accrual>, time: string): seq<Accrual> {
    Only(list, (a: Accrual) => a.at == time)
  }

  /** Preparation permutes the schedules and puts them in time order, as the merge needs: corporate actions of one time by id,
      delistings and accruals of one time as they were given. */
  lemma PreparationSchedules(x: Setup)
    ensures IsScheduled(Prepared(x))
    ensures var actions := Prepared(x).actions;
            forall i, j :: 0 <= i < j < |actions| && actions[i].at == actions[j].at ==> AtMost(actions[i].id, actions[j].id)
    ensures forall time :: DelistingsAt(Prepared(x).delistings, time) == DelistingsAt(x.delistings, time)
    ensures forall time :: AccrualsAt(Prepared(x).accruals, time) == AccrualsAt(x.accruals, time)
    ensures multiset(Prepared(x).actions) == multiset(x.actions)
    ensures multiset(Prepared(x).delistings) == multiset(x.delistings)
    ensures multiset(Prepared(x).accruals) == multiset(x.accruals)
  {
    hide Less, StableSort, DelistingsAt, AccrualsAt;
    ActionOrder();
    DelistingOrder();
    AccrualOrder();
    StableSortSorts(ActionLess, x.actions);
    StableSortSorts(DelistingLess, x.delistings);
    StableSortSorts(AccrualLess, x.accruals);
    OrderedByTime(Prepared(x));
    TiesById(Prepared(x).actions);
    forall time ensures DelistingsAt(Prepared(x).delistings, time) == DelistingsAt(x.delistings, time) {
      TiedDelistings(x.delistings, time);
    }
    forall time ensures AccrualsAt(Prepared(x).accruals, time) == AccrualsAt(x.accruals, time) {
      TiedAccruals(x.accruals, time);
    }
  }

  lemma TiesById(actions: seq<Action>)
    requires IsOrdered(ActionLess, actions)
    ensures forall i, j :: 0 <= i < j < |actions| && actions[i].at == actions[j].at ==> AtMost(actions[i].id, actions[j].id)
  {
    hide Less;
    forall i, j | 0 <= i < j < |actions| && actions[i].at == actions[j].at ensures AtMost(actions[i].id, actions[j].id) {
      assert !ActionLess(actions[j], actions[i]);
      LessIsTotal(actions[i].id, actions[j].id);
    }
  }

  lemma TiedDelistings(list: seq<Delisting>, time: string)
    ensures DelistingsAt(StableSort(DelistingLess, list), time) == DelistingsAt(list, time)
  {
    hide Less, StableSort, Only;
    LessIsTotal(time, time);
    StableSortKeepsTies(DelistingLess, list, (d: Delisting) => d.at == time);
  }

  lemma TiedAccruals(list: seq<Accrual>, time: string)
    ensures AccrualsAt(StableSort(AccrualLess, list), time) == AccrualsAt(list, time)
  {
    hide Less, StableSort, Only;
    LessIsTotal(time, time);
    StableSortKeepsTies(AccrualLess, list, (a: Accrual) => a.at == time);
  }

  lemma OrderedByTime(x: Setup)
    requires IsOrdered(ActionLess, x.actions) && IsOrdered(DelistingLess, x.delistings) && IsOrdered(AccrualLess, x.accruals)
    ensures IsScheduled(x)
  {
    hide Less;
    forall a, b ensures !Less(b, a) ==> AtMost(a, b) {
      LessIsTotal(a, b);
    }
  }

  /** On canonical timestamps the cut is one in time: what is applied takes effect no later than the latest bar, what is not
      applied takes effect after it. */
  lemma CutIsTemporal(x: Setup, events: seq<Event>, i: nat)
    requires IsScheduled(x) && Run(x, events).Success? && i < |x.actions| && Latest(events).Some?
    requires CanonicalTime.IsCanonical(x.actions[i].at) && CanonicalTime.IsCanonical(Latest(events).value)
    ensures i < Run(x, events).value.action
            <==> CanonicalTime.Instant(x.actions[i].at) <= CanonicalTime.Instant(Latest(events).value)
  {
    hide IsScheduled, Run, Less, Consistent, FillsIn, ClosesIn, CanonicalTime.IsCanonical, CanonicalTime.Instant;
    EveryStreamMerges(x, events);
    var at, latest := x.actions[i].at, Latest(events).value;
    assert ActionTimes(x)[i] == at;
    AtMostChains(latest, at, at);
    CanonicalTime.LexicalOrderIsTemporalOrder(at, latest);
  }
}
