/** Following an extension's output: replayed records, live records, lifecycle
    changes and the user's interrupts, with every lost record accounted for. */
module Follow {
  import opened Common

  const U64_MAX: nat := 0xffff_ffff_ffff_ffff
  const PHASE_RUNNING := 4
  const PHASE_STOPPED := 6
  const PHASE_BLOCKED := 7

  datatype Mode = Owned | Detached(baseline: nat) | Attach

  datatype Status = Status(ok: bool, phase: nat, lastRunningAttempt: nat, replayFrom: nat, outputSequence: nat)

  datatype ExitRecord = ExitRecord(outputSequence: nat, reason: nat, code: int)

  /** What the loop can wake up for.  `ours` tells whether a reply is about the
      followed extension; packets about others are `Foreign`. */
  datatype Event =
    | Tick(nonce: nat)
    | Interrupt
    | DeadlineCheck(passed: bool)
    | StatusReply(nonce: nat, ours: bool, status: Status)
    | InfoStatus(status: Status)
    | Output(outputSequence: nat)
    | Exit(record: ExitRecord)
    | ReplayDone(throughSequence: nat)
    | Foreign

  datatype Cause = Started | Blocked | Stopped | Interrupted | Refused

  /** How the command ends: its exit code, and why. */
  datatype Outcome = Outcome(code: int, cause: Cause)

  datatype State = State(
    lifecycle: Status, lastExit: Option<ExitRecord>, replayDone: bool, expected: nat, pendingPoll: Option<nat>,
    interrupted: bool, deadlinePassed: bool, seen: nat, lost: nat)

  // ------------------------------------------------------------ specification

  function Succ(n: nat): nat { if n >= U64_MAX then U64_MAX else n + 1 }

  function Snapshot(mode: Mode, first: Status): Option<nat> {
    if mode.Attach? then Some(first.outputSequence) else None
  }

  function FirstExpected(first: Status): nat {
    if first.replayFrom != 0 then first.replayFrom else Succ(first.outputSequence)
  }

  function Init(mode: Mode, first: Status): State {
    State(first, None, Snapshot(mode, first).None?, FirstExpected(first), None, false, false, 0, 0)
  }

  /** A numbered record arrives: everything skipped is reported lost. */
  function Recorded(st: State, received: nat): State {
    if received == 0 then st
    else st.(expected := Succ(received), seen := st.seen + 1,
             lost := st.lost + if received > st.expected then received - st.expected else 0)
  }

  function ExitCode(exit: Option<ExitRecord>): int {
    match exit case None => 0 case Some(e) => if e.reason == 0 then e.code else 1
  }

  /** The checks at the top of the loop. */
  function Top(mode: Mode, st: State): Option<Outcome> {
    if st.replayDone && mode.Detached?
      && (st.lifecycle.phase == PHASE_RUNNING || st.lifecycle.lastRunningAttempt > mode.baseline)
      then Some(Outcome(0, Started))
    else if st.replayDone && st.lifecycle.phase == PHASE_BLOCKED then Some(Outcome(1, Blocked))
    else if st.replayDone && st.lifecycle.phase == PHASE_STOPPED then
      Some(if mode.Detached? then Outcome(1, Stopped)
           else if st.interrupted then Outcome(130, Interrupted)
           else Outcome(ExitCode(st.lastExit), Stopped))
    else if st.deadlinePassed then Some(Outcome(130, Interrupted))
    else None
  }

  function Live(snapshot: Option<nat>, sequence: nat): bool { snapshot.None? || sequence > snapshot.value }

  function Handle(mode: Mode, snapshot: Option<nat>, st: State, event: Event): (State, Option<Outcome>) {
    match event
    case Tick(nonce) => (if st.pendingPoll.None? && !st.interrupted then st.(pendingPoll := Some(nonce)) else st, None)
    case Interrupt =>
      if st.interrupted then (st, None)
      else if mode.Owned? then (st.(interrupted := true), None)
      else (st, Some(Outcome(130, Interrupted)))
    case DeadlineCheck(passed) => (st.(deadlinePassed := st.interrupted && passed), None)
    case StatusReply(nonce, ours, status) =>
      var polled := st.pendingPoll == Some(nonce);
      var next := if polled then st.(pendingPoll := None) else st;
      if (polled || ours) && !status.ok then (next, Some(Outcome(1, Refused)))
      else if ours then (next.(lifecycle := status), None) else (next, None)
    case InfoStatus(status) =>
      var next := Recorded(st, status.outputSequence);
      (if Live(snapshot, status.outputSequence) then next.(lifecycle := status) else next, None)
    case Output(sequence) => (Recorded(st, sequence), None)
    case Exit(record) =>
      var next := Recorded(st, record.outputSequence);
      (if Live(snapshot, record.outputSequence) then next.(lastExit := Some(record)) else next, None)
    case ReplayDone(through) =>
      var next := if st.expected <= through then
        st.(lost := st.lost + through - st.expected + 1, expected := Succ(through)) else st;
      (if snapshot.Some? && through >= snapshot.value then next.(replayDone := true) else next, None)
    case Foreign => (st, None)
  }

  /** The whole loop: how it ends, if it does, and the state it ends in. */
  function Run(mode: Mode, snapshot: Option<nat>, st: State, events: seq<Event>): (Option<Outcome>, State)
    decreases |events|
  {
    if Top(mode, st).Some? then (Top(mode, st), st)
    else if events == [] then (None, st)
    else
      var (next, end) := Handle(mode, snapshot, st, events[0]);
      if end.Some? then (end, next) else Run(mode, snapshot, next, events[1..])
  }

  // ------------------------------------------------------------ the loop

  method ReportGap(expected: nat, received: nat) returns (next: nat, lost: nat)
    ensures received == 0 ==> next == expected && lost == 0
    ensures received > 0 ==> next == Succ(received) && lost == if received > expected then received - expected else 0
  {
    next, lost := expected, 0;
    if received == 0 { return; }
    if received > expected { lost := received - expected; }
    next := Succ(received);
  }

  method CheckEnd(mode: Mode, st: State) returns (end: Option<Outcome>)
    ensures end == Top(mode, st)
  {
    if st.replayDone {
      if mode.Detached? && (st.lifecycle.phase == PHASE_RUNNING || st.lifecycle.lastRunningAttempt > mode.baseline) {
        return Some(Outcome(0, Started));
      }
      if st.lifecycle.phase == PHASE_BLOCKED { return Some(Outcome(1, Blocked)); }
      if st.lifecycle.phase == PHASE_STOPPED {
        if mode.Detached? { return Some(Outcome(1, Stopped)); }
        if st.interrupted { return Some(Outcome(130, Interrupted)); }
        return Some(Outcome(ExitCode(st.lastExit), Stopped));
      }
    }
    if st.deadlinePassed { return Some(Outcome(130, Interrupted)); }
    return None;
  }

  /** A record with a sequence number, or with none (0). */
  method TakeRecord(st: State, received: nat) returns (next: State)
    ensures next == Recorded(st, received)
  {
    var expected, lost := ReportGap(st.expected, received);
    next := st.(expected := expected, lost := st.lost + lost, seen := if received > 0 then st.seen + 1 else st.seen);
  }

  /** One wake-up of the loop. */
  method HandleEvent(mode: Mode, snapshot: Option<nat>, st: State, event: Event)
    returns (next: State, end: Option<Outcome>)
    ensures (next, end) == Handle(mode, snapshot, st, event)
  {
    next, end := st, None;
    match event {
      case Tick(nonce) =>
        if st.pendingPoll.None? && !st.interrupted { next := st.(pendingPoll := Some(nonce)); }
      case Interrupt =>
        if !st.interrupted {
          if mode.Owned? { next := st.(interrupted := true); } else { end := Some(Outcome(130, Interrupted)); }
        }
      case DeadlineCheck(passed) =>
        next := st.(deadlinePassed := st.interrupted && passed);
      case StatusReply(nonce, ours, status) =>
        var polled := st.pendingPoll == Some(nonce);
        if polled { next := next.(pendingPoll := None); }
        if (polled || ours) && !status.ok { return next, Some(Outcome(1, Refused)); }
        if ours { next := next.(lifecycle := status); }
      case InfoStatus(status) =>
        next := TakeRecord(st, status.outputSequence);
        if Live(snapshot, status.outputSequence) { next := next.(lifecycle := status); }
      case Output(sequence) =>
        next := TakeRecord(st, sequence);
      case Exit(record) =>
        next := TakeRecord(st, record.outputSequence);
        if Live(snapshot, record.outputSequence) { next := next.(lastExit := Some(record)); }
      case ReplayDone(through) =>
        if st.expected <= through {
          next := next.(lost := st.lost + through - st.expected + 1, expected := Succ(through));
        }
        if snapshot.Some? && through >= snapshot.value { next := next.(replayDone := true); }
      case Foreign =>
    }
  }

  method FollowLoop(mode: Mode, first: Status, events: seq<Event>) returns (outcome: Option<Outcome>, st: State)
    ensures (outcome, st) == Run(mode, Snapshot(mode, first), Init(mode, first), events)
  {
    hide Run, Top, Handle;
    var snapshot := if mode.Attach? then Some(first.outputSequence) else None;
    var expected := if first.replayFrom != 0 then first.replayFrom else Succ(first.outputSequence);
    st := State(first, None, snapshot.None?, expected, None, false, false, 0, 0);
    assert events[0..] == events;
    var n := 0;
    while true
      invariant n <= |events|
      invariant Run(mode, snapshot, Init(mode, first), events) == Run(mode, snapshot, st, events[n..])
      decreases |events| - n
    {
      RunUnfolds(mode, snapshot, st, events, n);
      var end := CheckEnd(mode, st);
      if end.Some? { return end, st; }
      if n == |events| { return None, st; }
      st, end := HandleEvent(mode, snapshot, st, events[n]);
      if end.Some? { return end, st; }
      n := n + 1;
    }
  }

  lemma RunUnfolds(mode: Mode, snapshot: Option<nat>, st: State, events: seq<Event>, n: nat)
    requires n <= |events|
    ensures Run(mode, snapshot, st, events[n..]) ==
            if Top(mode, st).Some? then (Top(mode, st), st)
            else if n == |events| then (None, st)
            else var (next, end) := Handle(mode, snapshot, st, events[n]);
              if end.Some? then (end, next) else Run(mode, snapshot, next, events[n + 1..])
  {
    if n < |events| { assert events[n..][1..] == events[n + 1..]; }
  }

  // ------------------------------------------------------------ lost records

  /** The output sequence number an event carries, or 0 if it is not a record. */
  function SequenceOf(event: Event): nat {
    match event
    case InfoStatus(status) => status.outputSequence
    case Output(sequence) => sequence
    case Exit(record) => record.outputSequence
    case _ => 0
  }

  /** Sequence numbers stay below the saturation point of the counter. */
  predicate Unsaturated(events: seq<Event>) {
    forall e | e in events :: SequenceOf(e) < U64_MAX && (e.ReplayDone? ==> e.throughSequence < U64_MAX)
  }

  /** Records arrive in increasing order: each is at least `high`, one past the
      largest sequence number announced before it. */
  predicate InOrder(high: nat, events: seq<Event>)
    decreases |events|
  {
    events == []
    || (var s := SequenceOf(events[0]);
        if s > 0 then s >= high && InOrder(s + 1, events[1..])
        else if events[0].ReplayDone? && events[0].throughSequence >= high then
          InOrder(events[0].throughSequence + 1, events[1..])
        else InOrder(high, events[1..]))
  }

  /** The events the loop consumes before it ends. */
  function Consumed(mode: Mode, snapshot: Option<nat>, st: State, events: seq<Event>): (r: seq<Event>)
    ensures r <= events
    decreases |events|
  {
    if Top(mode, st).Some? || events == [] then []
    else
      var (next, end) := Handle(mode, snapshot, st, events[0]);
      if end.Some? then [events[0]] else [events[0]] + Consumed(mode, snapshot, next, events[1..])
  }

  /** Records seen plus records reported lost, less the distance covered. */
  function Surplus(st: State): int { st.seen + st.lost - st.expected }

  lemma HandleSurplus(mode: Mode, snapshot: Option<nat>, st: State, event: Event)
    requires SequenceOf(event) < U64_MAX && (event.ReplayDone? ==> event.throughSequence < U64_MAX)
    ensures var next, s := Handle(mode, snapshot, st, event).0, SequenceOf(event);
            && Surplus(next) == Surplus(st) + (if 0 < s < st.expected then st.expected - s else 0)
            && next.expected ==
               if s > 0 then s + 1
               else if event.ReplayDone? && event.throughSequence >= st.expected then event.throughSequence + 1
               else st.expected
  {
    hide Recorded;
    RecordedSurplus(st, SequenceOf(event));
  }

  lemma RecordedSurplus(st: State, s: nat)
    requires s < U64_MAX
    ensures Surplus(Recorded(st, s)) == Surplus(st) + if 0 < s < st.expected then st.expected - s else 0
    ensures Recorded(st, s).expected == if s > 0 then s + 1 else st.expected
  {
  }

  /** Over every run, next expected = first expected + records seen + records
      reported lost, if and only if the records arrived in increasing order. */
  lemma {:induction false} LostRecordsAreExact(mode: Mode, snapshot: Option<nat>, st: State, events: seq<Event>)
    requires Unsaturated(events)
    ensures var end := Run(mode, snapshot, st, events).1;
            && Surplus(end) >= Surplus(st)
            && (Surplus(end) == Surplus(st) <==> InOrder(st.expected, Consumed(mode, snapshot, st, events)))
    decreases |events|
  {
    if Top(mode, st).None? && events != [] {
      HandleSurplus(mode, snapshot, st, events[0]);
      var (next, end) := Handle(mode, snapshot, st, events[0]);
      if end.None? {
        LostRecordsAreExact(mode, snapshot, next, events[1..]);
        assert Consumed(mode, snapshot, st, events)[1..] == Consumed(mode, snapshot, next, events[1..]);
      } else {
        assert [events[0]][1..] == [];
      }
    }
  }

  /** The same, for the command as a whole. */
  lemma FollowAccounts(mode: Mode, first: Status, events: seq<Event>)
    requires Unsaturated(events)
    ensures var end := Run(mode, Snapshot(mode, first), Init(mode, first), events).1;
            var consumed := Consumed(mode, Snapshot(mode, first), Init(mode, first), events);
            end.expected == FirstExpected(first) + end.seen + end.lost <==> InOrder(FirstExpected(first), consumed)
  {
    LostRecordsAreExact(mode, Snapshot(mode, first), Init(mode, first), events);
  }

  /** The first record expected is the first one replayed, or the one after the status the
      follow starts from: if it comes first nothing is lost, and if a later one does, all
      in between. */
  lemma FirstRecordExpected(mode: Mode, first: Status, received: nat)
    requires first.outputSequence < U64_MAX
    ensures var least := if first.replayFrom > 0 then first.replayFrom else first.outputSequence + 1;
            received >= least ==> Recorded(Init(mode, first), received).lost == received - least
  {
  }

  // ------------------------------------------------------------ how it ends

  /** The replay has been announced complete up to the snapshot. */
  predicate ReplayReached(snapshot: nat, events: seq<Event>) {
    exists e | e in events :: e.ReplayDone? && e.throughSequence >= snapshot
  }

  /** The last exit; when attached, the last one above the snapshot. */
  function LastExit(snapshot: Option<nat>, events: seq<Event>): Option<ExitRecord> {
    if events == [] then None
    else
      var last := events[|events| - 1];
      if last.Exit? && (snapshot.None? || last.record.outputSequence > snapshot.value) then Some(last.record)
      else LastExit(snapshot, events[..|events| - 1])
  }

  /** The last status: a good reply about the extension, or a record that is not replayed. */
  function LastStatus(first: Status, snapshot: Option<nat>, events: seq<Event>): Status {
    if events == [] then first
    else
      var last := events[|events| - 1];
      if last.StatusReply? && last.ours && last.status.ok then last.status
      else if last.InfoStatus? && (snapshot.None? || last.status.outputSequence > snapshot.value) then last.status
      else LastStatus(first, snapshot, events[..|events| - 1])
  }

  /** The last look at the clock found the grace period of an earlier interrupt over. */
  predicate GraceOver(events: seq<Event>) {
    && events != []
    && var front, last := events[..|events| - 1], events[|events| - 1];
       if last.DeadlineCheck? then last.passed && Interrupt in front else GraceOver(front)
  }

  /** The poll that is out: one at a time, and none once an interrupt is under way. */
  function Polling(mode: Mode, events: seq<Event>): Option<nat> {
    if events == [] then None
    else
      var front, last := events[..|events| - 1], events[|events| - 1];
      var before := Polling(mode, front);
      if last.Tick? && before.None? && !(mode.Owned? && Interrupt in front) then Some(last.nonce)
      else if last.StatusReply? && before == Some(last.nonce) then None
      else before
  }

  /** A poll that is out was sent, and no reply to it has come since. */
  lemma {:induction false} PollIsOut(mode: Mode, events: seq<Event>)
    requires Polling(mode, events).Some?
    ensures exists k | 0 <= k < |events| :: OutSince(events, k, Polling(mode, events).value)
  {
    var front, last := events[..|events| - 1], events[|events| - 1];
    if Polling(mode, front).Some? {
      PollIsOut(mode, front);
      var k :| 0 <= k < |front| && OutSince(front, k, Polling(mode, front).value);
      assert OutSince(events, k, Polling(mode, events).value);
    } else {
      assert OutSince(events, |front|, last.nonce);
    }
  }

  predicate OutSince(events: seq<Event>, k: nat, nonce: nat)
    requires k < |events|
  {
    events[k] == Tick(nonce) && forall j | k < j < |events| :: !(events[j].StatusReply? && events[j].nonce == nonce)
  }

  /** What the state remembers of the events `past` that led to it. */
  predicate Remembers(mode: Mode, first: Status, st: State, past: seq<Event>) {
    var snapshot := Snapshot(mode, first);
    && st.lifecycle == LastStatus(first, snapshot, past) && st.lastExit == LastExit(snapshot, past)
    && (st.replayDone <==> snapshot.None? || ReplayReached(snapshot.value, past))
    && (st.interrupted <==> mode.Owned? && Interrupt in past)
    && (st.deadlinePassed <==> mode.Owned? && GraceOver(past))
    && st.pendingPoll == Polling(mode, past)
  }

  lemma ReachedAfter(snapshot: nat, past: seq<Event>, event: Event)
    ensures ReplayReached(snapshot, past + [event]) <==>
            ReplayReached(snapshot, past) || (event.ReplayDone? && event.throughSequence >= snapshot)
  {
    assert event in past + [event] && forall e | e in past :: e in past + [event];
  }

  lemma LastAfter(first: Status, snapshot: Option<nat>, past: seq<Event>, event: Event)
    ensures LastExit(snapshot, past + [event]) ==
            if event.Exit? && Live(snapshot, event.record.outputSequence) then Some(event.record)
            else LastExit(snapshot, past)
    ensures LastStatus(first, snapshot, past + [event]) ==
            if event.StatusReply? && event.ours && event.status.ok then event.status
            else if event.InfoStatus? && Live(snapshot, event.status.outputSequence) then event.status
            else LastStatus(first, snapshot, past)
    ensures GraceOver(past + [event]) <==>
            if event.DeadlineCheck? then event.passed && Interrupt in past else GraceOver(past)
    ensures forall mode :: Polling(mode, past + [event]) ==
              var before := Polling(mode, past);
              if event.Tick? && before.None? && !(mode.Owned? && Interrupt in past) then Some(event.nonce)
              else if event.StatusReply? && before == Some(event.nonce) then None
              else before
  {
    assert (past + [event])[..|past|] == past;
  }

  lemma RecordedRemembers(st: State, received: nat)
    ensures var next := Recorded(st, received);
            next == st.(expected := next.expected, seen := next.seen, lost := next.lost)
  {
  }

  lemma HandleRemembers(mode: Mode, first: Status, st: State, past: seq<Event>, event: Event)
    requires Remembers(mode, first, st, past)
    ensures Remembers(mode, first, Handle(mode, Snapshot(mode, first), st, event).0, past + [event])
  {
    hide ReplayReached, LastExit, LastStatus, GraceOver, Recorded, Polling;
    if mode.Attach? { ReachedAfter(first.outputSequence, past, event); }
    LastAfter(first, Snapshot(mode, first), past, event);
    if event.InfoStatus? { RecordedRemembers(st, event.status.outputSequence); }
    if event.Output? { RecordedRemembers(st, event.outputSequence); }
    if event.Exit? { RecordedRemembers(st, event.record.outputSequence); }
  }

  lemma StartRemembers(mode: Mode, first: Status)
    ensures Remembers(mode, first, Init(mode, first), [])
  {
  }

  /** The replay, if there is one, is over. */
  predicate CaughtUp(mode: Mode, first: Status, past: seq<Event>) {
    mode.Attach? ==> ReplayReached(first.outputSequence, past)
  }

  /** The extension runs, or has run since the baseline. */
  predicate HasRun(mode: Mode, status: Status) {
    mode.Detached? && (status.phase == PHASE_RUNNING || status.lastRunningAttempt > mode.baseline)
  }

  /** There is nothing left to wait for after `past`. */
  predicate Over(mode: Mode, first: Status, past: seq<Event>) {
    var status := LastStatus(first, Snapshot(mode, first), past);
    || (CaughtUp(mode, first, past)
        && (HasRun(mode, status) || status.phase == PHASE_BLOCKED || status.phase == PHASE_STOPPED))
    || (mode.Owned? && GraceOver(past))
  }

  /** After `past`, the follow stops at once at `event`: an interrupt when it does not own
      the extension, or a refusal of what it asked about it. */
  predicate Breaks(mode: Mode, past: seq<Event>, event: Event) {
    || (event.Interrupt? && !mode.Owned?)
    || (event.StatusReply? && !event.status.ok && (event.ours || Polling(mode, past) == Some(event.nonce)))
  }

  /** The code of a stop: 0 without an exit, that of a normal exit, 1 for any other. */
  predicate ReturnsExit(code: int, exit: Option<ExitRecord>) {
    && (exit.None? ==> code == 0)
    && (exit.Some? && exit.value.reason == 0 ==> code == exit.value.code)
    && (exit.Some? && exit.value.reason != 0 ==> code == 1)
  }

  /** The end of a follow, by what was consumed. */
  predicate EndsAs(mode: Mode, first: Status, past: seq<Event>, o: Outcome) {
    var snapshot := Snapshot(mode, first);
    var status := LastStatus(first, snapshot, past);
    match o.cause
    case Started => o.code == 0 && HasRun(mode, status)
    case Blocked => o.code == 1 && CaughtUp(mode, first, past) && status.phase == PHASE_BLOCKED && !HasRun(mode, status)
    case Stopped =>
      && CaughtUp(mode, first, past) && status.phase == PHASE_STOPPED && !HasRun(mode, status)
      && !(mode.Owned? && Interrupt in past)
      && if mode.Detached? then o.code == 1
         else ReturnsExit(o.code, LastExit(snapshot, past))
    case Interrupted =>
      && o.code == 130 && Interrupt in past
      && if mode.Owned? then status.phase == PHASE_STOPPED || GraceOver(past)
         else past[|past| - 1] == Interrupt && !Over(mode, first, past[..|past| - 1])
    case Refused =>
      && o.code == 1 && past != [] && past[|past| - 1].StatusReply?
      && !Over(mode, first, past[..|past| - 1]) && Breaks(mode, past[..|past| - 1], past[|past| - 1])
  }

  lemma TopEnds(mode: Mode, first: Status, st: State, past: seq<Event>)
    requires Remembers(mode, first, st, past)
    ensures Top(mode, st).Some? <==> Over(mode, first, past)
    ensures Top(mode, st).Some? ==> EndsAs(mode, first, past, Top(mode, st).value)
  {
    hide ReplayReached, LastExit, LastStatus;
    GraceNeedsInterrupt(past);
  }

  lemma {:induction false} GraceNeedsInterrupt(past: seq<Event>)
    ensures GraceOver(past) ==> Interrupt in past
  {
    if past != [] { GraceNeedsInterrupt(past[..|past| - 1]); }
  }

  lemma HandleEnds(mode: Mode, first: Status, st: State, past: seq<Event>, event: Event)
    requires Remembers(mode, first, st, past) && !Over(mode, first, past)
    ensures var end := Handle(mode, Snapshot(mode, first), st, event).1;
            && (end.Some? <==> Breaks(mode, past, event))
            && (end.Some? ==> EndsAs(mode, first, past + [event], end.value))
  {
    hide Remembers, Over, ReplayReached, LastExit, LastStatus, GraceOver, Recorded, Polling;
    assert (past + [event])[..|past|] == past && event in past + [event];
    Remembered(mode, first, st, past);
  }

  lemma Remembered(mode: Mode, first: Status, st: State, past: seq<Event>)
    requires Remembers(mode, first, st, past)
    ensures (st.interrupted ==> mode.Owned?) && st.pendingPoll == Polling(mode, past)
  {
  }

  /** After `past`, a follow goes on with `events`. */
  lemma {:induction false} RunEnds(mode: Mode, first: Status, st: State, past: seq<Event>, events: seq<Event>)
    requires Remembers(mode, first, st, past)
    ensures var snapshot := Snapshot(mode, first);
            var (outcome, end) := Run(mode, snapshot, st, events);
            var all := past + Consumed(mode, snapshot, st, events);
            && Remembers(mode, first, end, all)
            && GoesOn(mode, first, all, |past|, outcome.None?)
            && (outcome.Some? ==> EndsAs(mode, first, all, outcome.value))
            && (outcome.None? ==> all == past + events && !Over(mode, first, all))
    decreases |events|
  {
    hide Handle, Top, Remembers, Over, EndsAs, Breaks, GoesOn, Run, Consumed;
    NothingPast(mode, first, past);
    FollowStep(mode, Snapshot(mode, first), st, events);
    var snapshot := Snapshot(mode, first);
    assert past + [] == past;
    TopEnds(mode, first, st, past);
    if Top(mode, st).None? && events != [] {
      var (next, end) := Handle(mode, snapshot, st, events[0]);
      HandleRemembers(mode, first, st, past, events[0]);
      HandleEnds(mode, first, st, past, events[0]);
      if end.None? {
        RunEnds(mode, first, next, past + [events[0]], events[1..]);
        var rest := Consumed(mode, snapshot, next, events[1..]);
        assert past + [events[0]] + rest == past + ([events[0]] + rest);
        assert past + [events[0]] + events[1..] == past + events;
        GoesOnFrom(mode, first, past, events[0], past + ([events[0]] + rest),
                   Run(mode, snapshot, next, events[1..]).0.None?);
      } else {
        NothingPast(mode, first, past + [events[0]]);
        GoesOnFrom(mode, first, past, events[0], past + [events[0]], false);
      }
    }
  }

  /** One turn of the loop. */
  lemma FollowStep(mode: Mode, snapshot: Option<nat>, st: State, events: seq<Event>)
    ensures Top(mode, st).Some? || events == [] ==>
              Run(mode, snapshot, st, events) == (Top(mode, st), st) && Consumed(mode, snapshot, st, events) == []
    ensures Top(mode, st).None? && events != [] ==>
              var (next, end) := Handle(mode, snapshot, st, events[0]);
              if end.Some? then
                Run(mode, snapshot, st, events) == (end, next) && Consumed(mode, snapshot, st, events) == [events[0]]
              else
                && Run(mode, snapshot, st, events) == Run(mode, snapshot, next, events[1..])
                && Consumed(mode, snapshot, st, events) == [events[0]] + Consumed(mode, snapshot, next, events[1..])
  {
    hide Handle, Top;
  }

  lemma NothingPast(mode: Mode, first: Status, past: seq<Event>)
    ensures forall open :: GoesOn(mode, first, past, |past|, open)
  {
  }

  /** Nothing in `all` from `n` on ends the follow before its last event. */
  predicate GoesOn(mode: Mode, first: Status, all: seq<Event>, n: nat, open: bool) {
    && (forall k | n <= k < |all| :: !Over(mode, first, all[..k]))
    && (forall k | n <= k < |all| && (open || k < |all| - 1) :: !Breaks(mode, all[..k], all[k]))
  }

  lemma GoesOnFrom(mode: Mode, first: Status, past: seq<Event>, event: Event, all: seq<Event>, open: bool)
    requires past + [event] <= all && GoesOn(mode, first, all, |past| + 1, open) && !Over(mode, first, past)
    requires open || |past| + 1 < |all| ==> !Breaks(mode, past, event)
    ensures GoesOn(mode, first, all, |past|, open)
  {
    hide Over, Breaks;
    assert all[..|past| + 1] == past + [event];
    assert all[..|past|] == past && all[|past|] == event;
  }

  /** A follow in any mode ends at the first event after which it is over, or at one that
      breaks it off, with the code and the cause that what it consumed demands; and until
      then it goes on. */
  lemma FollowEnds(mode: Mode, first: Status, events: seq<Event>)
    ensures var snapshot, st := Snapshot(mode, first), Init(mode, first);
            var outcome, past := Run(mode, snapshot, st, events).0, Consumed(mode, snapshot, st, events);
            && past <= events
            && GoesOn(mode, first, past, 0, outcome.None?)
            && (outcome.Some? ==> EndsAs(mode, first, past, outcome.value))
            && (outcome.None? ==> past == events && !Over(mode, first, past))
  {
    hide Over, EndsAs, Breaks, GoesOn;
    StartRemembers(mode, first);
    RunEnds(mode, first, Init(mode, first), [], events);
    var past := Consumed(mode, Snapshot(mode, first), Init(mode, first), events);
    assert [] + past == past && [] + events == events;
  }

  /** The last event consumed is a refused request. */
  predicate EndsRefused(past: seq<Event>) {
    past != [] && past[|past| - 1].StatusReply? && !past[|past| - 1].status.ok
  }

  /** A stopped extension that nobody interrupted is reported with the code of its last
      exit, 1 if that exit was not a normal one, and 0 if there was none; after an
      interrupt the code is 130. */
  lemma OwnedCode(first: Status, events: seq<Event>)
    ensures var st, past := Init(Owned, first), Consumed(Owned, None, Init(Owned, first), events);
            var outcome := Run(Owned, None, st, events).0;
            var phase := LastStatus(first, None, past).phase;
            outcome.Some? && !EndsRefused(past) ==>
              && (phase == PHASE_STOPPED || phase == PHASE_BLOCKED || GraceOver(past))
              && (phase == PHASE_BLOCKED ==> outcome.value.code == 1 || (GraceOver(past) && outcome.value.code == 130))
              && (phase != PHASE_BLOCKED && Interrupt in past ==> outcome.value.code == 130)
              && (phase == PHASE_STOPPED && Interrupt !in past ==>
                  ReturnsExit(outcome.value.code, LastExit(None, past)))
  {
    hide LastStatus, LastExit, Run, Consumed;
    FollowEnds(Owned, first, events);
    GraceNeedsInterrupt(Consumed(Owned, None, Init(Owned, first), events));
  }

  /** The extension was seen running, or having run since the baseline. */
  predicate Saw(baseline: nat, first: Status, past: seq<Event>) {
    exists k | 0 <= k <= |past| :: HasRun(Detached(baseline), LastStatus(first, None, past[..k]))
  }

  /** A detached follow returns 0 exactly when it saw the extension run, 130 when it was
      interrupted before that, and 1 when the extension stopped or was blocked before that
      or a request was refused. */
  lemma DetachedCode(baseline: nat, first: Status, events: seq<Event>)
    ensures var mode := Detached(baseline);
            var outcome, past := Run(mode, None, Init(mode, first), events).0,
              Consumed(mode, None, Init(mode, first), events);
            var phase := LastStatus(first, None, past).phase;
            && (outcome.None? ==> !Saw(baseline, first, past))
            && (outcome.Some? ==>
                  && outcome.value.code in {0, 1, 130}
                  && (outcome.value.code == 0 <==> Saw(baseline, first, past))
                  && (outcome.value.code == 130 ==> past[|past| - 1] == Interrupt)
                  && (outcome.value.code == 1 ==>
                      phase == PHASE_STOPPED || phase == PHASE_BLOCKED || EndsRefused(past)))
  {
    hide LastStatus, LastExit, Run, Consumed;
    var mode := Detached(baseline);
    FollowEnds(mode, first, events);
    var past := Consumed(mode, None, Init(mode, first), events);
    assert past[..|past|] == past;
    if past != [] {
      var front, last := past[..|past| - 1], past[|past| - 1];
      assert front + [last] == past;
      LastAfter(first, None, front, last);
    }
    NotSeenBefore(baseline, first, past);
  }

  lemma NotSeenBefore(baseline: nat, first: Status, past: seq<Event>)
    requires forall k | 0 <= k < |past| :: !Over(Detached(baseline), first, past[..k])
    ensures Saw(baseline, first, past) <==> HasRun(Detached(baseline), LastStatus(first, None, past))
  {
    hide LastStatus;
    assert past[..|past|] == past;
    forall k | 0 <= k < |past| ensures !HasRun(Detached(baseline), LastStatus(first, None, past[..k])) {
      assert !Over(Detached(baseline), first, past[..k]);
    }
  }

  /** Attached, a STOPPED or BLOCKED extension never ends the command before the
      replay reaches the snapshot, and the code reported for a stop comes from the
      last exit above the snapshot. */
  lemma AttachWaitsForReplay(first: Status, events: seq<Event>)
    ensures var snapshot, st := first.outputSequence, Init(Attach, first);
            var outcome, past := Run(Attach, Some(snapshot), st, events).0,
              Consumed(Attach, Some(snapshot), st, events);
            outcome.Some? && !EndsRefused(past) && (past == [] || past[|past| - 1] != Interrupt) ==>
              && ReplayReached(snapshot, past)
              && var phase := LastStatus(first, Some(snapshot), past).phase;
                 && (phase == PHASE_STOPPED || phase == PHASE_BLOCKED)
                 && (phase == PHASE_BLOCKED ==> outcome.value.code == 1)
                 && (phase == PHASE_STOPPED ==> ReturnsExit(outcome.value.code, LastExit(Some(snapshot), past)))
  {
    hide LastStatus, LastExit, Run, Consumed, ReplayReached;
    FollowEnds(Attach, first, events);
  }
}
