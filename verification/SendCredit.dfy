/** The client's send credit on a channel: a byte window, a bound on outstanding
    messages, and cumulative acknowledgements that must land on message boundaries. */
module SendCredit {
  const U64_MAX: nat := 0xffff_ffff_ffff_ffff
  const CHANNEL_MAX_PAYLOAD: nat := 1024 * 1024
  const CHANNEL_MAX_UNCONSUMED_MESSAGES: nat := 1024

  datatype Error = CounterOverflow | CreditExhausted | InvalidPayload | AckOutOfRange | AckOffBoundary

  datatype Result<+T> = Ok(value: T) | Err(error: Error)

  /** The value of the credit object. */
  datatype Credit = Credit(window: nat, sent: nat, acknowledged: nat, boundaries: seq<nat>)

  // ------------------------------------------------------------ specification

  function CanSendSpec(c: Credit, length: nat): Result<bool> {
    if |c.boundaries| >= CHANNEL_MAX_UNCONSUMED_MESSAGES then Ok(false)
    else if c.sent + length > U64_MAX || c.acknowledged + c.window > U64_MAX then Err(CounterOverflow)
    else Ok(c.sent + length <= c.acknowledged + c.window)
  }

  function Sent(c: Credit, length: nat): Credit {
    c.(sent := c.sent + length, boundaries := c.boundaries + [c.sent + length])
  }

  /** The boundaries above `bytes`, front first. */
  function Above(boundaries: seq<nat>, bytes: nat): seq<nat> {
    if boundaries != [] && boundaries[0] <= bytes then Above(boundaries[1..], bytes) else boundaries
  }

  lemma AboveUnfolds(boundaries: seq<nat>, bytes: nat)
    ensures Above(boundaries, bytes) ==
            if boundaries != [] && boundaries[0] <= bytes then Above(boundaries[1..], bytes) else boundaries
  {
  }

  lemma {:induction false} AboveIsSuffix(boundaries: seq<nat>, bytes: nat) returns (m: nat)
    ensures m <= |boundaries| && Above(boundaries, bytes) == boundaries[m..]
    ensures m < |boundaries| ==> boundaries[m] > bytes
  {
    if boundaries != [] && boundaries[0] <= bytes {
      m := AboveIsSuffix(boundaries[1..], bytes);
      assert boundaries[1..][m..] == boundaries[m + 1..];
      m := m + 1;
    } else {
      m := 0;
    }
  }

  function AckSpec(c: Credit, bytes: nat): Result<Credit> {
    if bytes < c.acknowledged || bytes > c.sent then Err(AckOutOfRange)
    else if bytes != c.acknowledged && bytes !in c.boundaries then Err(AckOffBoundary)
    else Ok(c.(acknowledged := bytes, boundaries := Above(c.boundaries, bytes)))
  }

  /** What the object keeps whatever the peer sends. */
  predicate Sound(c: Credit) {
    && c.acknowledged <= c.sent <= c.acknowledged + c.window
    && |c.boundaries| <= CHANNEL_MAX_UNCONSUMED_MESSAGES
    && (forall i, j | 0 <= i < j < |c.boundaries| :: c.boundaries[i] < c.boundaries[j])
    && (forall i | 0 <= i < |c.boundaries| :: c.acknowledged < c.boundaries[i] <= c.sent)
  }

  lemma SendKeepsSound(c: Credit, length: nat)
    requires Sound(c) && length > 0 && CanSendSpec(c, length) == Ok(true)
    ensures Sound(Sent(c, length))
  {
  }

  /** As long as the counters fit, a payload may go exactly when recording it keeps what
      the object promises: the window, and the number of messages outstanding. */
  lemma CanSendExactly(c: Credit, length: nat)
    requires Sound(c) && length > 0 && c.sent + length <= U64_MAX && c.acknowledged + c.window <= U64_MAX
    ensures CanSendSpec(c, length) == Ok(Sound(Sent(c, length)))
    ensures Sound(Sent(c, length)) <==>
            |c.boundaries| < CHANNEL_MAX_UNCONSUMED_MESSAGES && c.sent - c.acknowledged + length <= c.window
  {
    if |c.boundaries| < CHANNEL_MAX_UNCONSUMED_MESSAGES && c.sent - c.acknowledged + length <= c.window {
      SendKeepsSound(c, length);
    }
  }

  /** Otherwise the check fails, unless too many messages are outstanding anyway. */
  lemma OverflowIsAnError(c: Credit, length: nat)
    requires c.sent + length > U64_MAX || c.acknowledged + c.window > U64_MAX
    ensures CanSendSpec(c, length).Err? <==> |c.boundaries| < CHANNEL_MAX_UNCONSUMED_MESSAGES
    ensures CanSendSpec(c, length) != Ok(true)
  {
  }

  lemma AckKeepsSound(c: Credit, bytes: nat)
    requires Sound(c) && AckSpec(c, bytes).Ok?
    ensures Sound(AckSpec(c, bytes).value)
  {
    hide Above;
    var bs, rest := c.boundaries, Above(c.boundaries, bytes);
    var dropped := AboveIsSuffix(bs, bytes);
    forall i | 0 <= i < |rest| ensures bytes < rest[i] <= c.sent {
      assert rest[i] == bs[dropped + i] && rest[0] == bs[dropped];
      assert i > 0 ==> bs[dropped] < bs[dropped + i];
    }
  }

  lemma AckKeepsSent(c: Credit, bytes: nat)
    requires AckSpec(c, bytes).Ok?
    ensures AckSpec(c, bytes).value.sent == c.sent && AckSpec(c, bytes).value.window == c.window
  {
  }

  /** With everything acknowledged, nothing but the window limits the next payload. */
  lemma SettledCanSend(c: Credit, length: nat)
    requires Sound(c) && c.acknowledged == c.sent && c.sent + length <= U64_MAX && c.acknowledged + c.window <= U64_MAX
    ensures CanSendSpec(c, length) == Ok(length <= c.window)
  {
    OutstandingIsUnacknowledged(c);
  }

  lemma OutstandingIsUnacknowledged(c: Credit)
    requires Sound(c)
    ensures c.boundaries != [] ==> c.acknowledged < c.sent
  {
    if c.boundaries != [] { assert c.acknowledged < c.boundaries[0] <= c.sent; }
  }

  // ------------------------------------------------------------ the object

  class SendCredit {
    const window: nat
    var sent: nat
    var acknowledged: nat
    var boundaries: seq<nat>

    ghost function View(): Credit reads this { Credit(window, sent, acknowledged, boundaries) }

    constructor (window: nat)
      ensures View() == Credit(window, 0, 0, [])
    {
      this.window := window;
      sent, acknowledged, boundaries := 0, 0, [];
    }

    method CanSend(length: nat) returns (r: Result<bool>)
      ensures r == CanSendSpec(View(), length)
    {
      if |boundaries| >= CHANNEL_MAX_UNCONSUMED_MESSAGES { return Ok(false); }
      var end := sent + length;
      if end > U64_MAX { return Err(CounterOverflow); }
      var limit := acknowledged + window;
      if limit > U64_MAX { return Err(CounterOverflow); }
      return Ok(end <= limit);
    }

    method RecordSend(length: nat) returns (r: Result<()>)
      modifies this
      ensures if old(sent) + length > U64_MAX then r == Err(CounterOverflow) && View() == old(View())
              else r == Ok(()) && View() == Sent(old(View()), length)
    {
      if sent + length > U64_MAX { return Err(CounterOverflow); }
      sent := sent + length;
      boundaries := boundaries + [sent];
      return Ok(());
    }

    method ApplyAck(bytes: nat) returns (r: Result<()>)
      modifies this
      ensures match AckSpec(old(View()), bytes)
              case Ok(after) => r == Ok(()) && View() == after
              case Err(error) => r == Err(error) && View() == old(View())
    {
      if bytes < acknowledged || bytes > sent { return Err(AckOutOfRange); }
      if bytes != acknowledged && bytes !in boundaries { return Err(AckOffBoundary); }
      hide Above;
      acknowledged := bytes;
      while boundaries != [] && boundaries[0] <= bytes
        invariant sent == old(sent) && acknowledged == bytes
        invariant Above(boundaries, bytes) == Above(old(boundaries), bytes)
        decreases |boundaries|
      {
        AboveUnfolds(boundaries, bytes);
        boundaries := boundaries[1..];
      }
      AboveUnfolds(boundaries, bytes);
      return Ok(());
    }
  }

  // ------------------------------------------------------------ whole runs

  /** Total length of the first `n` messages. */
  function Total(log: seq<nat>, n: nat): nat
    requires n <= |log|
  {
    if n == 0 then 0 else Total(log, n - 1) + log[n - 1]
  }

  /** Client and peer over two FIFO queues.  `log` is every payload length sent so
      far; the peer has consumed the first `consumed` of them, so `log[consumed..]`
      is in flight; `acks` are the byte counts on their way back. */
  datatype System = System(credit: Credit, log: seq<nat>, consumed: nat, acks: seq<nat>, refused: bool)

  datatype Step = Send(length: nat) | Consume | Acknowledge | DeliverAck

  function Init(window: nat): System { System(Credit(window, 0, 0, []), [], 0, [], false) }

  /** A payload the transport takes, sent only with credit; the peer consumes whole
      messages and acknowledges everything consumed so far, as often as it likes. */
  predicate Enabled(s: System, step: Step) {
    match step
    case Send(length) => 0 < length <= CHANNEL_MAX_PAYLOAD && CanSendSpec(s.credit, length) == Ok(true)
    case Consume => s.consumed < |s.log|
    case Acknowledge => s.consumed <= |s.log|
    case DeliverAck => s.acks != []
  }

  function Next(s: System, step: Step): System
    requires Enabled(s, step)
  {
    match step
    case Send(length) => s.(credit := Sent(s.credit, length), log := s.log + [length])
    case Consume => s.(consumed := s.consumed + 1)
    case Acknowledge => s.(acks := s.acks + [Total(s.log, s.consumed)])
    case DeliverAck =>
      var r := AckSpec(s.credit, s.acks[0]);
      if r.Ok? then s.(credit := r.value, acks := s.acks[1..]) else s.(refused := true, acks := s.acks[1..])
  }

  /** How many of the messages sent have been acknowledged. */
  function Settled(s: System): int { |s.log| - |s.credit.boundaries| }

  /** The boundaries are exactly the running totals of the unacknowledged messages. */
  predicate BoundariesExact(s: System) {
    && 0 <= Settled(s)
    && s.credit.acknowledged == Total(s.log, Settled(s))
    && s.credit.sent == Total(s.log, |s.log|)
    && forall i | 0 <= i < |s.credit.boundaries| :: s.credit.boundaries[i] == Total(s.log, Settled(s) + i + 1)
  }

  /** An acknowledgement in flight is the total of a prefix between the one the client
      knows of and the one the peer has consumed. */
  predicate Honest(s: System, ack: nat) {
    exists n: nat :: Settled(s) <= n <= s.consumed <= |s.log| && ack == Total(s.log, n)
  }

  predicate Ordered(acks: seq<nat>) { forall i, j | 0 <= i < j < |acks| :: acks[i] <= acks[j] }

  predicate Inv(s: System) {
    && !s.refused
    && (forall i | 0 <= i < |s.log| :: s.log[i] > 0)
    && BoundariesExact(s)
    && Settled(s) <= s.consumed <= |s.log|
    && (forall i | 0 <= i < |s.acks| :: Honest(s, s.acks[i]))
    && Ordered(s.acks)
    && s.credit.sent - s.credit.acknowledged <= s.credit.window
    && |s.credit.boundaries| <= CHANNEL_MAX_UNCONSUMED_MESSAGES
  }

  lemma {:induction false} TotalMonotone(log: seq<nat>, m: nat, n: nat)
    requires m <= n <= |log| && forall i | 0 <= i < |log| :: log[i] > 0
    ensures Total(log, m) <= Total(log, n) && (m < n ==> Total(log, m) < Total(log, n))
  {
    if m < n { TotalMonotone(log, m, n - 1); }
  }

  lemma {:induction false} TotalPrefix(log: seq<nat>, more: seq<nat>, n: nat)
    requires n <= |log|
    ensures Total(log + more, n) == Total(log, n)
  {
    if n > 0 { TotalPrefix(log, more, n - 1); }
  }

  /** Every boundary is new: the totals of non-empty messages strictly increase. */
  lemma BoundariesIncrease(s: System)
    requires Inv(s)
    ensures forall i, j | 0 <= i < j < |s.credit.boundaries| :: s.credit.boundaries[i] < s.credit.boundaries[j]
    ensures forall i | 0 <= i < |s.credit.boundaries| :: s.credit.acknowledged < s.credit.boundaries[i] <= s.credit.sent
  {
    var k := Settled(s);
    forall i, j | 0 <= i < j < |s.credit.boundaries| ensures s.credit.boundaries[i] < s.credit.boundaries[j] {
      TotalMonotone(s.log, k + i + 1, k + j + 1);
    }
    forall i | 0 <= i < |s.credit.boundaries| ensures s.credit.acknowledged < s.credit.boundaries[i] <= s.credit.sent {
      TotalMonotone(s.log, k, k + i + 1);
      TotalMonotone(s.log, k + i + 1, |s.log|);
    }
  }

  lemma {:induction false} AboveIs(bs: seq<nat>, bytes: nat, m: nat)
    requires m <= |bs| && (forall i | 0 <= i < m :: bs[i] <= bytes) && (m < |bs| ==> bs[m] > bytes)
    ensures Above(bs, bytes) == bs[m..]
    decreases |bs|
  {
    if m > 0 {
      AboveIs(bs[1..], bytes, m - 1);
      assert bs[1..][m - 1..] == bs[m..];
    }
  }

  /** An honest acknowledgement is accepted, and settles exactly its messages. */
  lemma HonestAckAccepted(s: System, ack: nat, n: nat)
    requires Inv(s) && Settled(s) <= n <= s.consumed && ack == Total(s.log, n)
    ensures AckSpec(s.credit, ack) ==
            Ok(s.credit.(acknowledged := ack, boundaries := s.credit.boundaries[n - Settled(s)..]))
  {
    hide Above, Total, Honest;
    var k, bs := Settled(s), s.credit.boundaries;
    TotalMonotone(s.log, k, n);
    TotalMonotone(s.log, n, |s.log|);
    if n > k { assert bs[n - k - 1] == ack; }
    forall i | 0 <= i < n - k ensures bs[i] <= ack { TotalMonotone(s.log, k + i + 1, n); }
    if n - k < |bs| { TotalMonotone(s.log, n, n + 1); }
    AboveIs(bs, ack, n - k);
  }

  /** An acknowledgement is accepted exactly when it is the total of whole messages sent,
      and of no fewer than were acknowledged before. */
  lemma AckAcceptedExactly(s: System, bytes: nat)
    requires Inv(s)
    ensures AckSpec(s.credit, bytes).Ok? <==> exists n | Settled(s) <= n <= |s.log| :: bytes == Total(s.log, n)
    ensures AckSpec(s.credit, bytes) == Err(AckOutOfRange) <==> bytes < s.credit.acknowledged || s.credit.sent < bytes
  {
    hide Above, Total, Honest;
    var k, bs := Settled(s), s.credit.boundaries;
    if AckSpec(s.credit, bytes).Ok? && bytes != s.credit.acknowledged {
      var i :| 0 <= i < |bs| && bs[i] == bytes;
      assert bytes == Total(s.log, k + i + 1);
    }
    if n :| k <= n <= |s.log| && bytes == Total(s.log, n) {
      TotalMonotone(s.log, k, n);
      TotalMonotone(s.log, n, |s.log|);
      assert n > k ==> bs[n - k - 1] == bytes;
    }
  }

  lemma HonestWitness(s: System, ack: nat) returns (n: nat)
    requires Honest(s, ack)
    ensures Settled(s) <= n <= s.consumed <= |s.log| && ack == Total(s.log, n)
  {
    n :| Settled(s) <= n <= s.consumed <= |s.log| && ack == Total(s.log, n);
  }

  lemma SendKeepsInv(s: System, length: nat)
    requires Inv(s) && Enabled(s, Send(length))
    ensures Inv(Next(s, Send(length)))
  {
    var t := Next(s, Send(length));
    var k := Settled(s);
    forall n | 0 <= n <= |s.log| ensures Total(t.log, n) == Total(s.log, n) { TotalPrefix(s.log, [length], n); }
    forall i | 0 <= i < |t.acks| ensures Honest(t, t.acks[i]) {
      var n: nat :| Settled(s) <= n <= s.consumed <= |s.log| && s.acks[i] == Total(s.log, n);
      assert t.acks[i] == Total(t.log, n);
    }
    forall i | 0 <= i < |t.credit.boundaries| ensures t.credit.boundaries[i] == Total(t.log, k + i + 1) {
      if i < |s.credit.boundaries| { assert t.credit.boundaries[i] == s.credit.boundaries[i]; }
    }
  }

  lemma AcknowledgeKeepsInv(s: System)
    requires Inv(s)
    ensures Enabled(s, Acknowledge) && Inv(Next(s, Acknowledge))
  {
    var t := Next(s, Acknowledge);
    forall i | 0 <= i < |t.acks| ensures Honest(t, t.acks[i]) && t.acks[i] <= Total(s.log, s.consumed) {
      if i < |s.acks| {
        assert Honest(s, s.acks[i]);
        var n: nat :| Settled(s) <= n <= s.consumed <= |s.log| && s.acks[i] == Total(s.log, n);
        TotalMonotone(s.log, n, s.consumed);
        assert t.acks[i] == Total(t.log, n);
      } else {
        assert t.acks[i] == Total(t.log, t.consumed);
      }
    }
  }

  /** A later acknowledgement is still honest after an earlier one has settled `n` messages. */
  lemma StaysHonest(s: System, t: System, ack: nat, n: nat)
    requires Inv(s) && Honest(s, ack) && n <= s.consumed && Total(s.log, n) <= ack
    requires t.log == s.log && t.consumed == s.consumed && Settled(t) == n
    ensures Honest(t, ack)
  {
    var m := HonestWitness(s, ack);
    if m < n { TotalMonotone(s.log, m, n); }
    assert ack == Total(t.log, m);
  }

  lemma DeliverKeepsInv(s: System)
    requires Inv(s) && Enabled(s, DeliverAck)
    ensures Inv(Next(s, DeliverAck))
  {
    hide AckSpec, Honest, Total;
    var n := HonestWitness(s, s.acks[0]);
    HonestAckAccepted(s, s.acks[0], n);
    var t := Next(s, DeliverAck);
    forall i | 0 <= i < |t.acks| ensures Honest(t, t.acks[i]) {
      assert t.acks[i] == s.acks[i + 1];
      StaysHonest(s, t, s.acks[i + 1], n);
    }
    forall i | 0 <= i < |t.credit.boundaries| ensures t.credit.boundaries[i] == Total(t.log, n + i + 1) {
      assert t.credit.boundaries[i] == s.credit.boundaries[n - Settled(s) + i];
    }
    TotalMonotone(s.log, Settled(s), n);
  }

  lemma StepKeepsInv(s: System, step: Step)
    requires Inv(s) && Enabled(s, step)
    ensures Inv(Next(s, step)) && Next(s, step).credit.window == s.credit.window
  {
    match step
    case Send(length) => SendKeepsInv(s, length);
    case Consume =>
      var t := Next(s, Consume);
      forall i | 0 <= i < |t.acks| ensures Honest(t, t.acks[i]) {
        assert Honest(s, s.acks[i]);
        var n: nat :| Settled(s) <= n <= s.consumed <= |s.log| && s.acks[i] == Total(s.log, n);
        assert t.acks[i] == Total(t.log, n);
      }
    case Acknowledge => AcknowledgeKeepsInv(s);
    case DeliverAck => DeliverKeepsInv(s);
  }

  predicate RunOk(s: System, steps: seq<Step>)
    decreases |steps|
  {
    steps == [] || (Enabled(s, steps[0]) && RunOk(Next(s, steps[0]), steps[1..]))
  }

  function Run(s: System, steps: seq<Step>): System
    requires RunOk(s, steps)
    decreases |steps|
  {
    if steps == [] then s else Run(Next(s, steps[0]), steps[1..])
  }

  lemma {:induction false} RunKeepsInv(s: System, steps: seq<Step>)
    requires Inv(s) && RunOk(s, steps)
    ensures Inv(Run(s, steps)) && Run(s, steps).credit.window == s.credit.window
    decreases |steps|
  {
    if steps != [] {
      StepKeepsInv(s, steps[0]);
      RunKeepsInv(Next(s, steps[0]), steps[1..]);
    }
  }

  /** Over every run with an honest peer, however long its acknowledgements take:
      none is refused, the unacknowledged bytes stay within the window and the
      outstanding messages within their limit, and the boundaries are exactly the
      strictly increasing running totals of the unacknowledged messages. */
  lemma CreditIsSafe(window: nat, steps: seq<Step>)
    requires RunOk(Init(window), steps)
    ensures var s := Run(Init(window), steps);
            && !s.refused
            && s.credit.sent - s.credit.acknowledged <= window
            && |s.credit.boundaries| <= CHANNEL_MAX_UNCONSUMED_MESSAGES
            && BoundariesExact(s)
            && forall i, j | 0 <= i < j < |s.credit.boundaries| :: s.credit.boundaries[i] < s.credit.boundaries[j]
  {
    RunKeepsInv(Init(window), steps);
    BoundariesIncrease(Run(Init(window), steps));
  }

  /** Once everything is acknowledged, a payload can be sent exactly when it is no
      longer than the window; and no payload longer than the window ever can. */
  lemma SendableWhenSettled(window: nat, steps: seq<Step>, length: nat)
    requires RunOk(Init(window), steps)
    ensures var c := Run(Init(window), steps).credit;
            && (c.acknowledged == c.sent && c.acknowledged + window <= U64_MAX && c.sent + length <= U64_MAX ==>
                  CanSendSpec(c, length) == Ok(length <= window))
            && (CanSendSpec(c, length) == Ok(true) ==> length <= window)
  {
    var s := Run(Init(window), steps);
    RunKeepsInv(Init(window), steps);
    if s.credit.boundaries != [] { BoundariesIncrease(s); }
    TotalMonotone(s.log, Settled(s), |s.log|);
  }
}
