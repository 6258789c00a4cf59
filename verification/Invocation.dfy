/** The client's invocation loop: it forwards redirected stdin under credit, delivers
    the provider's output, and acknowledges what it has delivered. */
module Invocation {
  import opened Common
  import opened Wire
  import opened Response
  import Credit = SendCredit
  import Utf8

  const C2S_INVOKE: Byte := 1
  const C2S_STDIN: Byte := 2
  const C2S_STDIN_EOF: Byte := 3
  const C2S_CANCEL: Byte := 4
  const STDIN_CHUNK: nat := 64 * 1024

  /** What the loop can wake up for; `Read` is how much of stdin happens to be ready. */
  datatype Event =
    | AckPacket(bytes: nat)
    | DataPacket(payload: seq<Byte>)
    | ClosedPacket
    | BadPacket
    | OtherPacket
    | Cancellation(ok: bool)
    | ReadStdin(ready: nat)
    | ReadFailed

  datatype Outcome = Open | Exited(code: int) | Failed

  // ------------------------------------------------------------ stdin

  predicate HasKind(payload: seq<Byte>, kind: Byte) { payload != [] && payload[0] == kind }

  /** The stdin bytes a payload carries. */
  function StdinOf(payload: seq<Byte>): seq<Byte> {
    if HasKind(payload, C2S_STDIN) then payload[1..] else []
  }

  /** The stdin bytes of a run of payloads, in order. */
  function StdinData(payloads: seq<seq<Byte>>): seq<Byte> {
    if payloads == [] then [] else StdinData(payloads[..|payloads| - 1]) + StdinOf(payloads[|payloads| - 1])
  }

  function AsSeq(pending: Option<seq<Byte>>): seq<seq<Byte>> {
    if pending.Some? then [pending.value] else []
  }

  /** At most one EOF, and no stdin after it. */
  predicate EofIsLast(payloads: seq<seq<Byte>>) {
    forall i, j | 0 <= i < j < |payloads| && HasKind(payloads[i], C2S_STDIN_EOF) ::
      !HasKind(payloads[j], C2S_STDIN) && !HasKind(payloads[j], C2S_STDIN_EOF)
  }

  predicate HasEof(payloads: seq<seq<Byte>>) {
    exists p | p in payloads :: HasKind(p, C2S_STDIN_EOF)
  }

  /** Stdin as the loop has dealt with it: `queue` is everything sent, followed by the
      payload still waiting for credit. */
  predicate StdinConserved(queue: seq<seq<Byte>>, unread: seq<Byte>, finished: bool, input: seq<Byte>) {
    && StdinData(queue) + unread == input
    && EofIsLast(queue)
    && (HasEof(queue) ==> finished && unread == [])
  }

  lemma StdinDataSnoc(queue: seq<seq<Byte>>, payload: seq<Byte>)
    ensures StdinData(queue + [payload]) == StdinData(queue) + StdinOf(payload)
  {
    assert (queue + [payload])[..|queue|] == queue;
  }

  lemma HasEofSnoc(queue: seq<seq<Byte>>, payload: seq<Byte>)
    ensures HasEof(queue + [payload]) <==> HasEof(queue) || HasKind(payload, C2S_STDIN_EOF)
  {
    assert payload in queue + [payload];
    assert forall p | p in queue :: p in queue + [payload];
  }

  lemma EofIsLastSnoc(queue: seq<seq<Byte>>, payload: seq<Byte>)
    requires EofIsLast(queue)
    requires !HasEof(queue) || (!HasKind(payload, C2S_STDIN) && !HasKind(payload, C2S_STDIN_EOF))
    ensures EofIsLast(queue + [payload])
  {
    forall i | 0 <= i < |queue| && HasKind(queue[i], C2S_STDIN_EOF) ensures HasEof(queue) {
      assert queue[i] in queue;
    }
  }

  /** Reading a chunk keeps every byte in its place. */
  lemma ReadConserves(queue: seq<seq<Byte>>, unread: seq<Byte>, input: seq<Byte>, n: nat)
    requires StdinConserved(queue, unread, false, input) && n <= |unread|
    ensures StdinConserved(queue + [[C2S_STDIN] + unread[..n]], unread[n..], false, input)
  {
    hide HasEof, EofIsLast, StdinData;
    var payload := [C2S_STDIN] + unread[..n];
    StdinDataSnoc(queue, payload);
    HasEofSnoc(queue, payload);
    EofIsLastSnoc(queue, payload);
    assert StdinOf(payload) == unread[..n];
    assert StdinData(queue) + unread[..n] + unread[n..] == StdinData(queue) + unread by {
      assert unread == unread[..n] + unread[n..];
    }
  }

  lemma EndConserves(queue: seq<seq<Byte>>, input: seq<Byte>)
    requires StdinConserved(queue, [], false, input)
    ensures StdinConserved(queue + [[C2S_STDIN_EOF]], [], true, input)
  {
    hide HasEof, EofIsLast, StdinData;
    StdinDataSnoc(queue, [C2S_STDIN_EOF]);
    HasEofSnoc(queue, [C2S_STDIN_EOF]);
    EofIsLastSnoc(queue, [C2S_STDIN_EOF]);
    assert StdinData(queue) + [] == StdinData(queue);
  }

  /** A payload that carries no stdin changes nothing. */
  lemma OtherConserves(queue: seq<seq<Byte>>, unread: seq<Byte>, finished: bool, input: seq<Byte>, payload: seq<Byte>)
    requires StdinConserved(queue, unread, finished, input)
    requires !HasKind(payload, C2S_STDIN) && !HasKind(payload, C2S_STDIN_EOF)
    ensures StdinConserved(queue + [payload], unread, finished, input)
  {
    StdinDataSnoc(queue, payload);
    HasEofSnoc(queue, payload);
    EofIsLastSnoc(queue, payload);
    assert StdinData(queue) + [] == StdinData(queue);
  }

  /** ... not even in front of the payload that waits for credit. */
  lemma OtherInserted(payloads: seq<seq<Byte>>, pending: Option<seq<Byte>>, unread: seq<Byte>, finished: bool,
                      input: seq<Byte>, payload: seq<Byte>)
    requires StdinConserved(payloads + AsSeq(pending), unread, finished, input)
    requires !HasKind(payload, C2S_STDIN) && !HasKind(payload, C2S_STDIN_EOF)
    ensures StdinConserved(payloads + [payload] + AsSeq(pending), unread, finished, input)
  {
    if pending.None? {
      assert payloads + [] == payloads && payloads + [payload] + [] == payloads + [payload];
      OtherConserves(payloads, unread, finished, input, payload);
    } else {
      var last := pending.value;
      var before, after := payloads + [last], payloads + [payload] + [last];
      StdinDataSnoc(payloads, last);
      StdinDataSnoc(payloads, payload);
      StdinDataSnoc(payloads + [payload], last);
      HasEofSnoc(payloads, last);
      HasEofSnoc(payloads, payload);
      HasEofSnoc(payloads + [payload], last);
      assert StdinData(payloads) + [] == StdinData(payloads);
      assert EofIsLast(payloads) by {
        forall i, j | 0 <= i < j < |payloads| && HasKind(payloads[i], C2S_STDIN_EOF)
          ensures !HasKind(payloads[j], C2S_STDIN) && !HasKind(payloads[j], C2S_STDIN_EOF)
        {
          assert before[i] == payloads[i] && before[j] == payloads[j];
        }
      }
      EofIsLastSnoc(payloads, payload);
      if HasEof(payloads) {
        var p :| p in payloads && HasKind(p, C2S_STDIN_EOF);
        var i :| 0 <= i < |payloads| && payloads[i] == p;
        assert before[i] == p && before[|payloads|] == last;
      }
      EofIsLastSnoc(payloads + [payload], last);
    }
  }

  // ------------------------------------------------------------ output

  /** The outputs of the payloads delivered so far, with a running RESULT flag. */
  predicate Decodes(received: seq<seq<Byte>>, outputs: seq<Output>, resultSeen: bool)
    requires |received| == |outputs|
  {
    if received == [] then !resultSeen
    else
      var n := |received| - 1;
      exists before: bool :: Decodes(received[..n], outputs[..n], before)
                             && DecodeOutput(received[n], before) == Some((outputs[n], resultSeen))
  }

  /** Every delivered payload is acknowledged with the running total, in order. */
  predicate AcksMatch(acks: seq<nat>, received: seq<seq<Byte>>) {
    |acks| == |received| && forall i | 0 <= i < |acks| :: acks[i] == Sum(received[..i + 1])
  }

  lemma DecodesSnoc(received: seq<seq<Byte>>, outputs: seq<Output>, seen: bool, payload: seq<Byte>)
    requires |received| == |outputs| && Decodes(received, outputs, seen) && DecodeOutput(payload, seen).Some?
    ensures var (output, after) := DecodeOutput(payload, seen).value;
            Decodes(received + [payload], outputs + [output], after)
  {
    hide DecodeOutput;
    var (output, after) := DecodeOutput(payload, seen).value;
    var all, outs, n := received + [payload], outputs + [output], |received|;
    assert all[..n] == received && outs[..n] == outputs && all[n] == payload && outs[n] == output;
  }

  lemma AcksSnoc(acks: seq<nat>, received: seq<seq<Byte>>, payload: seq<Byte>)
    requires AcksMatch(acks, received)
    ensures AcksMatch(acks + [Sum(received) + |payload|], received + [payload])
  {
    hide Sum;
    var all, more := received + [payload], acks + [Sum(received) + |payload|];
    forall i | 0 <= i < |more| ensures more[i] == Sum(all[..i + 1]) {
      if i < |acks| {
        assert all[..i + 1] == received[..i + 1];
      } else {
        assert all[..i + 1] == all;
        SumSnoc(received, payload);
      }
    }
  }

  // ------------------------------------------------------------ the loop

  /** What the loop keeps, and what it has put on the channel: payloads sent,
      acknowledgements, closes; and the payloads delivered with what they decoded to. */
  datatype Loop = Loop(
    payloads: seq<seq<Byte>>, pending: Option<seq<Byte>>, unread: seq<Byte>, finished: bool,
    received: seq<seq<Byte>>, outputs: seq<Output>, resultSeen: bool, acks: seq<nat>, closes: seq<nat>)

  /** Everything sent, and then the payload waiting for credit. */
  function Queue(l: Loop): seq<seq<Byte>> { l.payloads + AsSeq(l.pending) }

  predicate StdinOk(l: Loop, input: seq<Byte>) {
    && StdinConserved(Queue(l), l.unread, l.finished, input)
    && (l.pending.Some? ==> 0 < |l.pending.value| <= 1 + STDIN_CHUNK)
  }

  predicate OutputOk(l: Loop) {
    |l.received| == |l.outputs| && Decodes(l.received, l.outputs, l.resultSeen) && AcksMatch(l.acks, l.received)
  }

  /** The credit has recorded exactly what was sent. */
  predicate CreditOk(l: Loop, c: Credit.Credit) {
    Credit.Sound(c) && c.sent == Sum(l.payloads)
  }

  predicate LoopOk(l: Loop, c: Credit.Credit, invoke: seq<Byte>, input: seq<Byte>) {
    StdinOk(l, input) && OutputOk(l) && CreditOk(l, c) && [invoke] <= l.payloads
  }

  function DataIn(event: Event): seq<seq<Byte>> { if event.DataPacket? then [event.payload] else [] }

  /** The DATA payloads among the events, in order. */
  function DataOf(events: seq<Event>): seq<seq<Byte>> {
    if events == [] then [] else DataOf(events[..|events| - 1]) + DataIn(events[|events| - 1])
  }

  /** `send_data`: a payload goes out only with credit, and is then recorded. */
  method SendData(credit: Credit.SendCredit, payloads: seq<seq<Byte>>, payload: seq<Byte>)
    returns (ok: bool, sent: seq<seq<Byte>>)
    requires Credit.Sound(credit.View()) && credit.sent == Sum(payloads)
    modifies credit
    ensures ok <==>
              && Credit.CanSendSpec(old(credit.View()), |payload|) == Credit.Ok(true)
              && 0 < |payload| <= CHANNEL_MAX_PAYLOAD
    ensures Credit.Sound(credit.View()) && credit.sent == Sum(sent)
    ensures if ok then sent == payloads + [payload] else sent == payloads && credit.View() == old(credit.View())
  {
    hide Credit.Sound, Sum;
    var can := credit.CanSend(|payload|);
    if can != Credit.Ok(true) { return false, payloads; }
    if payload == [] || |payload| > CHANNEL_MAX_PAYLOAD { return false, payloads; }
    Credit.SendKeepsSound(credit.View(), |payload|);
    SumSnoc(payloads, payload);
    var recorded := credit.RecordSend(|payload|);
    return true, payloads + [payload];
  }

  /** The top of the loop: the pending payload goes out as soon as it has credit. */
  method FlushPending(credit: Credit.SendCredit, l: Loop, ghost invoke: seq<Byte>, ghost input: seq<Byte>)
    returns (ok: bool, next: Loop)
    requires LoopOk(l, credit.View(), invoke, input)
    modifies credit
    ensures LoopOk(next, credit.View(), invoke, input) && next.closes == l.closes && next.received == l.received
    ensures next.outputs == l.outputs && (l.pending.None? ==> ok && next == l)
    ensures !ok ==> next == l && credit.View() == old(credit.View())
    ensures l.payloads <= next.payloads && (Tidy(l) ==> Tidy(next))
    ensures Queue(next) == Queue(l) && next.unread == l.unread && next.finished == l.finished
    ensures ok <==> l.pending.None? || Credit.CanSendSpec(old(credit.View()), |l.pending.value|).Ok?
    ensures ok && next.pending.Some? ==> Credit.CanSendSpec(credit.View(), |next.pending.value|) == Credit.Ok(false)
  {
    hide StdinConserved, OutputOk, Credit.Sound, Sum, Credit.CanSendSpec;
    if l.pending.None? { return true, l; }
    var payload := l.pending.value;
    var can := credit.CanSend(|payload|);
    if can.Err? { return false, l; }
    if !can.value { return true, l; }
    var sent;
    ok, sent := SendData(credit, l.payloads, payload);
    assert ok;
    next := l.(payloads := sent, pending := None);
    assert Queue(next) == Queue(l);
    OutputUntouched(l, next);
  }

  lemma OutputUntouched(l: Loop, m: Loop)
    requires OutputOk(l) && m.received == l.received && m.outputs == l.outputs && m.resultSeen == l.resultSeen
             && m.acks == l.acks
    ensures OutputOk(m)
  {
  }

  /** One read of stdin: a chunk, or the end of it. */
  method ReadChunk(l: Loop, ready: nat, ghost input: seq<Byte>) returns (next: Loop)
    requires StdinOk(l, input) && !l.finished && l.pending.None?
    ensures StdinOk(next, input)
    ensures next == l.(pending := next.pending, unread := next.unread, finished := next.finished)
    ensures if l.unread == [] then next.finished && next.pending == Some([C2S_STDIN_EOF])
            else !next.finished && |next.unread| < |l.unread| && next.pending.Some?
                 && HasKind(next.pending.value, C2S_STDIN) && |next.pending.value| > 1
  {
    hide StdinConserved;
    var count := if ready > STDIN_CHUNK then STDIN_CHUNK else ready;
    if count > |l.unread| { count := |l.unread|; }
    if count == 0 && l.unread != [] { count := 1; }
    assert Queue(l) == l.payloads;
    if count == 0 {
      EndConserves(l.payloads, input);
      next := l.(finished := true, pending := Some([C2S_STDIN_EOF]));
    } else {
      ReadConserves(l.payloads, l.unread, input, count);
      next := l.(pending := Some([C2S_STDIN] + l.unread[..count]), unread := l.unread[count..]);
    }
  }

  /** The loop ends with `outcome`: 130 after a cancellation, or the code of the EXIT
      that was delivered last, and the channel closed accordingly. */
  predicate EndsWell(l: Loop, outcome: Outcome) {
    match outcome
    case Open => l.closes == []
    case Failed => true
    case Exited(code) =>
      || (code == 130 && l.closes == [CLOSE_CANCELLED])
      || (l.outputs != [] && l.outputs[|l.outputs| - 1].Exit? && l.outputs[|l.outputs| - 1].code == code
          && l.closes == [CLOSE_NORMAL])
  }

  /** Behind the invocation nothing but stdin, in non-empty pieces, and its end. */
  predicate OnlyStdin(payloads: seq<seq<Byte>>) {
    forall i | 1 <= i < |payloads| ::
      HasKind(payloads[i], C2S_STDIN_EOF) || (HasKind(payloads[i], C2S_STDIN) && |payloads[i]| > 1)
  }

  /** Redirected stdin is finished exactly when its end is on the way; any other is never
      read at all. */
  predicate StdinDone(l: Loop, streamsStdin: bool, input: seq<Byte>) {
    if streamsStdin then l.finished <==> HasEof(Queue(l))
    else l.finished && l.unread == input && !HasEof(Queue(l))
  }

  predicate Tidy(l: Loop) { l.payloads != [] && OnlyStdin(Queue(l)) }

  /** What is sent in the end: that, and after a cancellation at most one announcement of it. */
  predicate SentWell(l: Loop, cancelled: bool) {
    && l.payloads != []
    && (Tidy(l) || (cancelled && Tidy(l.(payloads := l.payloads[..|l.payloads| - 1]))
                    && l.payloads[|l.payloads| - 1] == [C2S_CANCEL]))
  }

  /** The loop failed on `event` and is left as `l`: the channel is closed as cancelled,
      unless the peer had closed it or a counter overflowed. */
  predicate FailedOn(event: Event, l: Loop) {
    match event
    case ClosedPacket => l.closes == []
    case DataPacket(payload) =>
      if Sum(l.received) + |payload| > Credit.U64_MAX then l.closes == []
      else DecodeOutput(payload, l.resultSeen).None? && l.closes == [CLOSE_CANCELLED]
    case AckPacket(_) => l.closes == [CLOSE_CANCELLED]
    case BadPacket => l.closes == [CLOSE_CANCELLED]
    case ReadFailed => l.closes == [CLOSE_CANCELLED]
    case Cancellation(ok) => !ok && l.closes == [CLOSE_CANCELLED]
    case OtherPacket => false
    case ReadStdin(_) => false
  }

  predicate FailedAt(events: seq<Event>, n: nat, l: Loop)
    requires n < |events|
  {
    l.received == DataOf(events[..n]) && FailedOn(events[n], l)
  }

  predicate NoExit(outputs: seq<Output>) { forall o | o in outputs :: !o.Exit? }

  /** The loop ended at event `n`, having delivered every DATA payload up to it. */
  predicate EndedBy(events: seq<Event>, n: nat, l: Loop)
    requires n < |events|
  {
    && l.received == DataOf(events[..n + 1])
    && if l.closes == [CLOSE_CANCELLED] then events[n].Cancellation? else events[n].DataPacket?
  }

  /** One DATA payload: decoded, delivered, acknowledged; an EXIT ends the loop. */
  method Deliver(l: Loop, payload: seq<Byte>) returns (next: Loop, outcome: Outcome)
    requires OutputOk(l) && l.closes == []
    ensures OutputOk(next) && EndsWell(next, outcome)
    ensures next == l.(received := next.received, outputs := next.outputs, resultSeen := next.resultSeen,
                       acks := next.acks, closes := next.closes)
    ensures !outcome.Failed? ==> next.received == l.received + [payload]
    ensures outcome.Failed? <==>
            Sum(l.received) + |payload| > Credit.U64_MAX || DecodeOutput(payload, l.resultSeen).None?
    ensures outcome.Exited? <==> !outcome.Failed? && DecodeOutput(payload, l.resultSeen).value.0.Exit?
    ensures outcome.Exited? ==> next.closes == [CLOSE_NORMAL]
    ensures outcome.Failed? ==>
              next == l.(closes := if Sum(l.received) + |payload| > Credit.U64_MAX then [] else [CLOSE_CANCELLED])
    ensures NoExit(l.outputs) && outcome.Open? ==> NoExit(next.outputs)
  {
    hide DecodeOutput, Decodes, AcksMatch, Sum;
    var total := Sum(l.received) + |payload|;
    if total > Credit.U64_MAX { return l, Failed; }
    var decoded := DecodeOutput(payload, l.resultSeen);
    if decoded.None? { return l.(closes := [CLOSE_CANCELLED]), Failed; }
    var (output, seen) := decoded.value;
    DecodesSnoc(l.received, l.outputs, l.resultSeen, payload);
    AcksSnoc(l.acks, l.received, payload);
    next := l.(received := l.received + [payload], outputs := l.outputs + [output], resultSeen := seen,
               acks := l.acks + [total]);
    if output.Exit? { return next.(closes := [CLOSE_NORMAL]), Exited(output.code); }
    return next, Open;
  }

  /** A cancellation is announced if credit allows, and closes the channel either way. */
  method Cancel(credit: Credit.SendCredit, l: Loop, ghost invoke: seq<Byte>, ghost input: seq<Byte>)
    returns (next: Loop)
    requires LoopOk(l, credit.View(), invoke, input) && l.closes == []
    modifies credit
    ensures LoopOk(next, credit.View(), invoke, input)
    ensures next == l.(closes := [CLOSE_CANCELLED],
                       payloads := if Credit.CanSendSpec(old(credit.View()), 1) == Credit.Ok(true)
                                   then l.payloads + [[C2S_CANCEL]] else l.payloads)
  {
    hide StdinConserved, OutputOk, Credit.Sound, Sum, Credit.CanSendSpec;
    next := l.(closes := [CLOSE_CANCELLED]);
    OutputUntouched(l, next);
    var can := credit.CanSend(1);
    if can == Credit.Ok(true) {
      OtherInserted(l.payloads, l.pending, l.unread, l.finished, input, [C2S_CANCEL]);
      var ok, sent := SendData(credit, l.payloads, [C2S_CANCEL]);
      next := next.(payloads := sent);
      OutputUntouched(l, next);
    }
  }

  lemma CancelTidy(l: Loop, next: Loop)
    requires Tidy(l) && next.pending == l.pending
    requires next.payloads == l.payloads || next.payloads == l.payloads + [[C2S_CANCEL]]
    ensures SentWell(next, true)
  {
    if next.payloads == l.payloads {
      assert Queue(next) == Queue(l);
    } else {
      var before := next.(payloads := next.payloads[..|next.payloads| - 1]);
      assert before.payloads == l.payloads && Queue(before) == Queue(l);
    }
  }

  lemma ReadTidy(l: Loop, next: Loop)
    requires Tidy(l) && l.pending.None? && next.payloads == l.payloads && next.pending.Some?
    requires var p := next.pending.value; HasKind(p, C2S_STDIN_EOF) || (HasKind(p, C2S_STDIN) && |p| > 1)
    ensures Tidy(next)
  {
    assert Queue(l) == l.payloads;
  }

  lemma CancelDone(l: Loop, next: Loop, input: seq<Byte>)
    requires next == l.(closes := next.closes, payloads := next.payloads)
    requires next.payloads == l.payloads || next.payloads == l.payloads + [[C2S_CANCEL]]
    ensures forall streams :: StdinDone(l, streams, input) ==> StdinDone(next, streams, input)
  {
    hide HasEof;
    HasEofSnoc(l.payloads, [C2S_CANCEL]);
    if l.pending.Some? {
      HasEofSnoc(l.payloads, l.pending.value);
      HasEofSnoc(next.payloads, l.pending.value);
    } else {
      assert Queue(l) == l.payloads && Queue(next) == next.payloads;
    }
  }

  lemma ReadDone(l: Loop, next: Loop, input: seq<Byte>)
    requires !l.finished && l.pending.None? && next.payloads == l.payloads && next.pending.Some?
    requires next.finished <==> HasKind(next.pending.value, C2S_STDIN_EOF)
    ensures forall streams :: StdinDone(l, streams, input) ==> StdinDone(next, streams, input)
  {
    hide HasEof;
    HasEofSnoc(l.payloads, next.pending.value);
    assert Queue(l) == l.payloads && Queue(next) == l.payloads + [next.pending.value];
  }

  /** One wake-up of the loop. */
  method Handle(credit: Credit.SendCredit, l: Loop, event: Event, ghost invoke: seq<Byte>, ghost input: seq<Byte>)
    returns (next: Loop, outcome: Outcome)
    requires LoopOk(l, credit.View(), invoke, input) && l.closes == []
    modifies credit
    ensures LoopOk(next, credit.View(), invoke, input) && EndsWell(next, outcome)
    ensures !outcome.Failed? ==> next.received == l.received + DataIn(event)
    ensures outcome.Failed? ==> next.received == l.received && FailedOn(event, next)
    ensures event.AckPacket? ==>
              match Credit.AckSpec(old(credit.View()), event.bytes)
              case Ok(after) => outcome == Open && next == l && credit.View() == after
              case Err(_) =>
                outcome == Failed && next == l.(closes := [CLOSE_CANCELLED]) && credit.View() == old(credit.View())
    ensures event.ReadStdin? && !l.finished && l.pending.None? ==>
            next.pending.Some? && (l.unread == [] <==> next.finished)
    ensures outcome.Exited? ==> if next.closes == [CLOSE_CANCELLED] then event.Cancellation? else event.DataPacket?
    ensures event.DataPacket? && outcome.Failed? ==>
              && next == l.(closes := if Sum(l.received) + |event.payload| > Credit.U64_MAX then []
                            else [CLOSE_CANCELLED])
              && (Sum(l.received) + |event.payload| > Credit.U64_MAX || DecodeOutput(event.payload, l.resultSeen).None?)
    ensures !event.Cancellation? ==> next.payloads == l.payloads
    ensures event.Cancellation? ==>
              && next == l.(closes := [CLOSE_CANCELLED], payloads := next.payloads)
              && next.payloads == if Credit.CanSendSpec(old(credit.View()), 1) == Credit.Ok(true)
                 then l.payloads + [[C2S_CANCEL]] else l.payloads
    ensures event.ReadFailed? && (l.finished || l.pending.Some?) ==> outcome == Open && next == l
    ensures Tidy(l) ==> SentWell(next, event.Cancellation?)
    ensures Tidy(l) && outcome.Open? ==> Tidy(next)
    ensures forall streams :: StdinDone(l, streams, input) ==> StdinDone(next, streams, input)
    ensures NoExit(l.outputs) && outcome.Open? ==> NoExit(next.outputs)
    ensures event.DataPacket? || event.OtherPacket? ==> next.pending == l.pending
    ensures event.ReadStdin? && (l.finished || l.pending.Some?) ==> next == l
    ensures event.ReadStdin? || event.OtherPacket? ==> outcome == Open && credit.View() == old(credit.View())
    ensures event.OtherPacket? ==> next == l
    ensures event.ClosedPacket? ==> outcome == Failed && next == l
    ensures event.BadPacket? || (event.ReadFailed? && !l.finished && l.pending.None?) ==>
              outcome == Failed && next == l.(closes := [CLOSE_CANCELLED])
    ensures event.Cancellation? ==>
            outcome == (if event.ok then Exited(130) else Failed) && next.closes == [CLOSE_CANCELLED]
  {
    hide StdinConserved, Credit.Sound, Sum, Decodes, AcksMatch, Credit.AckSpec, DecodeOutput, OnlyStdin,
         HasEof;
    next, outcome := l, Open;
    assert l.received + [] == l.received;
    match event {
      case AckPacket(bytes) =>
        var before := credit.View();
        var r := credit.ApplyAck(bytes);
        if r.Err? { return l.(closes := [CLOSE_CANCELLED]), Failed; }
        Credit.AckKeepsSound(before, bytes);
        Credit.AckKeepsSent(before, bytes);
      case DataPacket(payload) =>
        next, outcome := Deliver(l, payload);
      case ClosedPacket => return l, Failed;
      case BadPacket => return l.(closes := [CLOSE_CANCELLED]), Failed;
      case OtherPacket =>
      case Cancellation(ok) =>
        next := Cancel(credit, l, invoke, input);
        if Tidy(l) { CancelTidy(l, next); }
        CancelDone(l, next, input);
        outcome := if ok then Exited(130) else Failed;
      case ReadStdin(ready) =>
        // Guarded by `streams_stdin && !stdin_finished && pending_input.is_none()`;
        // without redirected stdin the loop starts out finished.
        if !l.finished && l.pending.None? {
          next := ReadChunk(l, ready, input);
          if Tidy(l) { ReadTidy(l, next); }
          ReadDone(l, next, input);
        }
      case ReadFailed =>
        if !l.finished && l.pending.None? { return l.(closes := [CLOSE_CANCELLED]), Failed; }
    }
  }

  /** The whole invocation after the channel has opened.  Whatever the peer does and
      in whatever order the loop wakes up:
      - the invocation is sent first, and every byte of stdin is in a STDIN message,
        in the one pending payload, or still unread, in the original order;
      - EOF is sent at most once, after all of stdin;
      - the unacknowledged bytes never exceed the window;
      - every DATA payload up to the end is delivered in order, decodes, and is acknowledged with the running total;
      - an exit code is 130 after a cancellation, or the one of the final EXIT;
      - and while the loop is open, credit can only hold the pending payload back if
        something is still unacknowledged or the payload is longer than the window. */
  method RunInvocation(window: nat, invoke: seq<Byte>, streamsStdin: bool, input: seq<Byte>, events: seq<Event>)
    returns (outcome: Outcome, l: Loop, credit: Credit.SendCredit)
    requires HasKind(invoke, C2S_INVOKE) && |invoke| <= CHANNEL_MAX_PAYLOAD
    ensures fresh(credit) && credit.window == window
    ensures l.payloads == [] <==> Credit.CanSendSpec(Credit.Credit(window, 0, 0, []), |invoke|) != Credit.Ok(true)
    ensures l.payloads == [] ==>
              && outcome == Failed
              && l.closes == if Credit.CanSendSpec(Credit.Credit(window, 0, 0, []), |invoke|).Ok? then [CLOSE_CANCELLED]
                 else []
    ensures l.payloads != [] ==> LoopOk(l, credit.View(), invoke, input) && EndsWell(l, outcome)
    ensures l.payloads != [] && outcome.Open? ==> l.received == DataOf(events)
    ensures outcome.Exited? ==> exists n | 0 <= n < |events| :: EndedBy(events, n, l)
    ensures l.payloads != [] && outcome.Open? ==> NoExit(l.outputs)
    ensures l.payloads != [] && outcome.Failed? ==>
              || (exists n | 0 <= n < |events| :: FailedAt(events, n, l))
              || (l.closes == [] && l.pending.Some? && Credit.CanSendSpec(credit.View(), |l.pending.value|).Err?)
    ensures l.payloads != [] ==> SentWell(l, l.closes == [CLOSE_CANCELLED])
    ensures l.payloads != [] ==> StdinDone(l, streamsStdin, input)
    ensures l.payloads != [] && Quiet(events) && DecodeAll(DataOf(events), false).Some?
            && Sum(DataOf(events)) <= Credit.U64_MAX ==>
              outcome != Failed
    ensures outcome.Open? && l.pending.Some? && credit.acknowledged == credit.sent
            && credit.sent + 1 + STDIN_CHUNK <= Credit.U64_MAX && credit.acknowledged + window <= Credit.U64_MAX ==>
              |l.pending.value| > window
  {
    hide StdinConserved, OutputOk, Credit.Sound, Sum, Credit.CanSendSpec, DecodeAll, Tidy, SentWell,
         FailedOn, DecodeOutput, HasEof;
    credit := new Credit.SendCredit(window);
    l := Loop([], None, input, !streamsStdin, [], [], false, [], []);
    StartsOk(credit.View(), l, invoke, input);
    var can := credit.CanSend(|invoke|);
    if can.Err? { return Failed, l, credit; }
    if !can.value { return Failed, l.(closes := [CLOSE_CANCELLED]), credit; }
    var ok, sent := SendData(credit, [], invoke);
    assert ok;
    l := l.(payloads := sent);
    assert Queue(l) == [invoke] && l.payloads == [invoke];
    OneIsTidy(l);
    NoEofYet(l, invoke);
    var n := 0;
    while true
      invariant n <= |events|
      invariant fresh(credit) && credit.window == window
      invariant LoopOk(l, credit.View(), invoke, input) && l.closes == []
      invariant l.received == DataOf(events[..n]) && NoExit(l.outputs)
      invariant Quiet(events) ==> l.pending.None?
      invariant Tidy(l) && StdinDone(l, streamsStdin, input)
      decreases |events| - n
    {
      ok, l := FlushPending(credit, l, invoke, input);
      TidySent(l);
      if !ok { return Failed, l, credit; }
      if n == |events| {
        if l.pending.Some? && credit.acknowledged == credit.sent
           && credit.sent + |l.pending.value| <= Credit.U64_MAX && credit.acknowledged + window <= Credit.U64_MAX {
          Credit.SettledCanSend(credit.View(), |l.pending.value|);
        }
        assert events[..n] == events;
        return Open, l, credit;
      }
      assert events[..n + 1][..n] == events[..n];
      if Quiet(events) && DecodeAll(DataOf(events), false).Some? { NextDecodes(events, n, l); }
      l, outcome := Handle(credit, l, events[n], invoke, input);
      if !outcome.Open? {
        assert outcome.Exited? ==> EndedBy(events, n, l);
        assert outcome.Failed? ==> FailedAt(events, n, l);
        SentWellIf(l, events[n].Cancellation?);
        return outcome, l, credit;
      }
      n := n + 1;
    }
  }

  lemma NoEofYet(l: Loop, invoke: seq<Byte>)
    requires Queue(l) == [invoke] && HasKind(invoke, C2S_INVOKE)
    ensures !HasEof(Queue(l))
  {
  }

  lemma OneIsTidy(l: Loop)
    requires |Queue(l)| == 1 && l.payloads != []
    ensures Tidy(l)
  {
  }

  lemma TidySent(l: Loop)
    requires Tidy(l)
    ensures forall cancelled :: SentWell(l, cancelled)
  {
  }

  lemma SentWellIf(l: Loop, cancelled: bool)
    requires SentWell(l, cancelled)
    ensures SentWell(l, true)
    ensures !cancelled ==> SentWell(l, false)
  {
  }

  lemma StartsOk(c: Credit.Credit, l: Loop, invoke: seq<Byte>, input: seq<Byte>)
    requires c.sent == 0 && c.acknowledged == 0 && c.boundaries == []
    requires l.unread == input && l.received == [] && l.outputs == [] && l.acks == [] && !l.resultSeen
    requires HasKind(invoke, C2S_INVOKE)
    ensures Credit.Sound(c) && Sum([]) == 0
    ensures StdinConserved([invoke], input, l.finished, input)
    ensures OutputOk(l) && OutputOk(l.(payloads := [invoke]))
  {
    hide StdinConserved;
    NothingSent(input, l.finished);
    OtherConserves([], input, l.finished, input, invoke);
    assert [] + [invoke] == [invoke];
  }

  lemma NothingSent(input: seq<Byte>, finished: bool)
    ensures StdinConserved([], input, finished, input)
  {
    assert [] + input == input;
  }

  // ------------------------------------------------------------ a response as the client sees it

  /** Nothing but what the peer sends as data, and packets of other channels. */
  predicate Quiet(events: seq<Event>) { forall e | e in events :: e.DataPacket? || e.OtherPacket? }

  /** Decoding one by one is decoding from the front. */
  lemma {:induction false} DecodesAll(received: seq<seq<Byte>>, outputs: seq<Output>, seen: bool, rest: seq<seq<Byte>>)
    requires |received| == |outputs| && Decodes(received, outputs, seen)
    ensures DecodeAll(received + rest, false) ==
            match DecodeAll(rest, seen)
            case None => None
            case Some(more) => Some(outputs + more)
    decreases |received|
  {
    hide DecodeOutput;
    if received == [] {
      assert received + rest == rest;
      assert DecodeAll(rest, seen).Some? ==> outputs + DecodeAll(rest, seen).value == DecodeAll(rest, seen).value;
    } else {
      var n := |received| - 1;
      var before: bool :| Decodes(received[..n], outputs[..n], before)
        && DecodeOutput(received[n], before) == Some((outputs[n], seen));
      DecodesAll(received[..n], outputs[..n], before, [received[n]] + rest);
      assert received[..n] + ([received[n]] + rest) == received + rest;
      assert ([received[n]] + rest)[1..] == rest;
      assert DecodeAll(rest, seen).Some? ==>
               outputs[..n] + ([outputs[n]] + DecodeAll(rest, seen).value) == outputs + DecodeAll(rest, seen).value;
    }
  }

  lemma {:induction false} DecodeAllLength(payloads: seq<seq<Byte>>, seen: bool)
    requires DecodeAll(payloads, seen).Some?
    ensures |DecodeAll(payloads, seen).value| == |payloads|
    decreases |payloads|
  {
    hide DecodeOutput;
    if payloads != [] { DecodeAllLength(payloads[1..], DecodeOutput(payloads[0], seen).value.1); }
  }

  lemma {:induction false} DataSplits(events: seq<Event>, n: nat)
    requires n <= |events|
    ensures DataOf(events[..n]) <= DataOf(events) && Sum(DataOf(events[..n])) <= Sum(DataOf(events))
    decreases |events| - n
  {
    hide Sum;
    if n < |events| {
      assert events[..n + 1][..n] == events[..n];
      DataSplits(events, n + 1);
      MoreData(DataOf(events[..n]), events[n]);
    } else {
      assert events[..n] == events;
    }
  }

  lemma MoreData(data: seq<seq<Byte>>, event: Event)
    ensures Sum(data + DataIn(event)) == Sum(data) + (if event.DataPacket? then |event.payload| else 0)
  {
    if event.DataPacket? { SumSnoc(data, event.payload); } else { assert data + [] == data; }
  }

  lemma PrefixSplit(a: seq<seq<Byte>>, x: seq<Byte>, all: seq<seq<Byte>>)
    requires a + [x] <= all
    ensures a + ([x] + all[|a| + 1..]) == all
  {
  }

  lemma OneMore(events: seq<Event>, n: nat)
    requires n < |events|
    ensures DataOf(events[..n + 1]) == DataOf(events[..n]) + DataIn(events[n])
  {
    assert events[..n + 1][..n] == events[..n];
  }

  lemma DecodesFirst(payload: seq<Byte>, rest: seq<seq<Byte>>, seen: bool)
    requires DecodeAll([payload] + rest, seen).Some?
    ensures DecodeOutput(payload, seen).Some?
  {
    hide DecodeOutput;
  }

  /** The next payload decodes if all of them do, and its total fits if theirs does. */
  lemma NextDecodes(events: seq<Event>, n: nat, l: Loop)
    requires n < |events| && OutputOk(l) && l.received == DataOf(events[..n]) && DecodeAll(DataOf(events), false).Some?
    ensures events[n].DataPacket? ==>
              && DecodeOutput(events[n].payload, l.resultSeen).Some?
              && Sum(l.received) + |events[n].payload| <= Sum(DataOf(events))
  {
    hide DecodeOutput, Sum, Decodes, AcksMatch, DecodeAll;
    if events[n].DataPacket? {
      OneMore(events, n);
      DataSplits(events, n + 1);
      MoreData(l.received, events[n]);
      hide DataOf;
      var rest := DataOf(events)[|l.received| + 1..];
      PrefixSplit(l.received, events[n].payload, DataOf(events));
      DecodesAll(l.received, l.outputs, l.resultSeen, [events[n].payload] + rest);
      DecodesFirst(events[n].payload, rest, l.resultSeen);
    }
  }

  /** Of a response's outputs only the last is an exit. */
  lemma DeliveredEndsInExit(response: CommandResponse)
    requires CodeOf(response).Integer?
    ensures var out := Delivered(response);
            out != [] && (forall i | 0 <= i < |out| - 1 :: !out[i].Exit?)
              && out[|out| - 1] == Exit(CodeOf(response).n, Utf8.Encode(DetailOf(response)))
  {
    hide Utf8.Encode;
  }

  /** The client and a provider's response: whatever else happens in between, as long as
      nobody cancels, an invocation that does not fail ends with the exit code of the
      response and has delivered all of it; and with nothing else in between it does not
      fail. */
  method ReceiveResponse(window: nat, invoke: seq<Byte>, streamsStdin: bool, input: seq<Byte>, events: seq<Event>,
                         ghost response: CommandResponse, ghost providerWindow: nat)
    returns (outcome: Outcome, l: Loop, credit: Credit.SendCredit)
    requires HasKind(invoke, C2S_INVOKE) && |invoke| <= CHANNEL_MAX_PAYLOAD
    requires Sendable(response, providerWindow) && providerWindow <= Credit.U64_MAX
    requires DataOf(events) == Payloads(response) && forall e | e in events :: !e.Cancellation?
    ensures fresh(credit)
    ensures l.payloads != [] && outcome != Failed ==>
              outcome == Exited(CodeOf(response).n) && l.outputs == Delivered(response) && l.closes == [CLOSE_NORMAL]
    ensures l.payloads != [] && Quiet(events) ==> outcome != Failed
  {
    hide Payloads, Delivered, DecodeAll, DecodeOutput, Decodes, AcksMatch, Sum, Utf8.Encode, StdinConserved,
         Credit.Sound, Credit.CanSendSpec;
    ClientRecoversResponse(response, providerWindow);
    SendableFits(response, providerWindow);
    outcome, l, credit := RunInvocation(window, invoke, streamsStdin, input, events);
    if l.payloads != [] && outcome != Failed { Received(events, response, l, outcome); }
  }

  /** The client and all that a served invocation sends: when something went wrong at the
      provider, an invocation that does not fail ends with exit code 1 and the message on
      stderr, otherwise with the handler's own response. */
  method ReceiveServed(window: nat, invoke: seq<Byte>, streamsStdin: bool, input: seq<Byte>, events: seq<Event>,
                       ghost session: Session, ghost handler: Request -> HandlerResult, ghost prefix: Utf8.Text,
                       ghost describe: Error -> Utf8.Text)
    returns (outcome: Outcome, l: Loop, credit: Credit.SendCredit)
    requires HasKind(invoke, C2S_INVOKE) && |invoke| <= CHANNEL_MAX_PAYLOAD && session.window <= Credit.U64_MAX
    requires DataOf(events) == DataSent(Served(session, handler, prefix, describe)) && DataOf(events) != []
    requires forall e | e in events :: !e.Cancellation?
    ensures fresh(credit)
    ensures l.payloads != [] && outcome != Failed ==>
              && (forall message | Fails(session, handler, describe, message) ::
                    outcome == Exited(1) &&
                    l.outputs == [Stderr(Utf8.Encode(prefix + message + [0xa])), Exit(1, [])])
              && (forall response | Returns(session, handler, response) ::
                    outcome == Exited(CodeOf(response).n) && l.outputs == Delivered(response))
    ensures l.payloads != [] && Quiet(events) ==> outcome != Failed
  {
    hide Payloads, Delivered, DecodeAll, Sendable, Served, Utf8.Encode, CodeOf, AnswerTo, ParseInvocation;
    ghost var answer := AnswerTo(session.window, session.payload, handler, prefix, describe);
    ServedData(session, handler, prefix, describe);
    assert Sendable(answer, session.window);
    outcome, l, credit := ReceiveResponse(window, invoke, streamsStdin, input, events, answer, session.window);
    forall message | Fails(session, handler, describe, message)
      ensures CodeOf(answer) == Integer(1)
      ensures Delivered(answer) == [Stderr(Utf8.Encode(prefix + message + [0xa])), Exit(1, [])]
    {
      FailureAnswer(session, handler, prefix, describe, message);
    }
    forall response | Returns(session, handler, response) ensures answer == response {
      ReturnedAnswer(session, handler, prefix, describe, response);
    }
  }

  /** What a provider acknowledges of an invocation it could read gives the client its
      whole window back; of one it could not read, nothing is acknowledged. */
  lemma InvocationIsSettled(session: Session, handler: Request -> HandlerResult, prefix: Utf8.Text,
                            describe: Error -> Utf8.Text, window: nat)
    ensures var acks, length := AcksSent(Served(session, handler, prefix, describe)), |session.payload|;
            && |acks| == (if ParseInvocation(session.payload).Some? then 1 else 0)
            && (acks != [] ==>
                  Credit.AckSpec(Credit.Sent(Credit.Credit(window, 0, 0, []), length), acks[0]) ==
                  Credit.Ok(Credit.Credit(window, length, length, [])))
  {
    hide Served, ParseInvocation;
    ServedAcks(session, handler, prefix, describe);
    if ParseInvocation(session.payload).Some? {
      assert [] + [|session.payload|] == [|session.payload|];
      Credit.AboveIs([|session.payload|], |session.payload|, 1);
    }
  }

  lemma SendableFits(response: CommandResponse, window: nat)
    requires Sendable(response, window)
    ensures CodeOf(response).Integer? && Sum(Payloads(response)) <= window
  {
  }

  /** Outputs that end in the response's exit are all of them. */
  lemma ExitCompletes(response: CommandResponse, outputs: seq<Output>, more: seq<Output>)
    requires CodeOf(response).Integer? && Delivered(response) == outputs + more
    requires outputs != [] && outputs[|outputs| - 1].Exit?
    ensures more == [] && outputs == Delivered(response) && outputs[|outputs| - 1].code == CodeOf(response).n
  {
    hide Delivered, Utf8.Encode, CodeOf, DetailOf;
    DeliveredEndsInExit(response);
    var out, last := Delivered(response), |outputs| - 1;
    assert out[last] == outputs[last] && last == |out| - 1;
    assert outputs + [] == outputs;
  }

  lemma NoExitIsPartial(response: CommandResponse, outputs: seq<Output>)
    requires CodeOf(response).Integer? && NoExit(outputs)
    ensures Delivered(response) != outputs
  {
    hide Delivered, Utf8.Encode, CodeOf, DetailOf;
    DeliveredEndsInExit(response);
    var out := Delivered(response);
    assert out[|out| - 1] in out && out[|out| - 1].Exit?;
  }

  /** What has been received decodes to the front of the response. */
  lemma OutputsSoFar(l: Loop, response: CommandResponse, data: seq<seq<Byte>>) returns (more: seq<Output>)
    requires CodeOf(response).Integer? && DecodeAll(data, false) == Some(Delivered(response))
    requires OutputOk(l) && l.received <= data
    ensures Delivered(response) == l.outputs + more && (l.received == data ==> Delivered(response) == l.outputs)
  {
    hide Delivered, DecodeAll, DecodeOutput, Decodes, AcksMatch, CodeOf, DetailOf;
    var rest := data[|l.received|..];
    assert l.received + rest == data;
    DecodesAll(l.received, l.outputs, l.resultSeen, rest);
    DecodeAllLength(rest, l.resultSeen);
    more := DecodeAll(rest, l.resultSeen).value;
    assert l.outputs + [] == l.outputs;
  }

  lemma Received(events: seq<Event>, response: CommandResponse, l: Loop, outcome: Outcome)
    requires CodeOf(response).Integer? && DecodeAll(DataOf(events), false) == Some(Delivered(response))
    requires OutputOk(l) && EndsWell(l, outcome) && outcome != Failed && forall e | e in events :: !e.Cancellation?
    requires outcome.Open? ==> l.received == DataOf(events) && NoExit(l.outputs)
    requires outcome.Exited? ==> exists n | 0 <= n < |events| :: EndedBy(events, n, l)
    ensures outcome == Exited(CodeOf(response).n) && l.outputs == Delivered(response) && l.closes == [CLOSE_NORMAL]
  {
    hide Delivered, DecodeAll, Decodes, AcksMatch, CodeOf, NoExit, OutputOk, EndedBy;
    ReceivedPrefix(events, l, outcome);
    var more := OutputsSoFar(l, response, DataOf(events));
    if outcome.Open? {
      NoExitIsPartial(response, l.outputs);
    } else {
      ExitCompletes(response, l.outputs, more);
    }
  }

  /** Without a cancellation the loop ends normally, having received its data in order. */
  lemma ReceivedPrefix(events: seq<Event>, l: Loop, outcome: Outcome)
    requires EndsWell(l, outcome) && outcome != Failed && forall e | e in events :: !e.Cancellation?
    requires outcome.Open? ==> l.received == DataOf(events)
    requires outcome.Exited? ==> exists n | 0 <= n < |events| :: EndedBy(events, n, l)
    ensures l.received <= DataOf(events) && (outcome.Exited? ==> l.closes == [CLOSE_NORMAL])
  {
    if outcome.Exited? {
      var n :| 0 <= n < |events| && EndedBy(events, n, l);
      DataSplits(events, n + 1);
      assert events[n] in events;
    }
  }
}
