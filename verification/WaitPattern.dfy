/** `blit wait --pattern`: a client that probes a cursor, keeps one read in flight, and
    drains the output before it reports an exit; and the server it talks to over two
    FIFO queues. */
module WaitPattern {
  import opened Common
  import opened LineMatcher

  const READ: nat := 0xF1
  const PENDING_MAX: nat := 64 * 1024
  const STATUS_OK: nat := 0

  /** A place in the terminal's output, as the server numbers it.  The client only hands
      it back; `issue` tells apart two cursors that were given out for the same cell. */
  datatype Cursor = Cursor(seqNo: nat, col: nat, issue: nat)

  datatype Reply = Reply(nonce: nat, status: nat, text: string, next: Cursor, truncated: bool)

  datatype Message = Update(pty: nat) | Output(reply: Reply) | Exited(pty: nat, status: int, reason: nat) | Unreadable

  datatype Request = Subscribe | Since(cursor: Cursor) | Ack

  datatype Incoming = Got(message: Message) | Timeout | Lost

  datatype Outcome = Waiting | Found(line: string) | ExitReported(status: int, reason: nat) | Failed | TimedOut

  /** What the wait keeps between two messages. */
  datatype Client = Client(cursor: Cursor, inFlight: bool, pending: string, exited: Option<(int, nat)>)

  // ------------------------------------------------------------ the client

  /** Reads on when no read is in flight. */
  function ReadOn(c: Client): (Client, seq<Request>) {
    if c.inFlight then (c, []) else (c.(inFlight := true), [Since(c.cursor)])
  }

  /** What one message makes the client do. */
  function ClientStep(pty: nat, re: Regex, c: Client, m: Message): (Client, seq<Request>, Outcome) {
    match m
    case Update(p) =>
      if p != pty then (c, [], Waiting) else (ReadOn(c).0, [Ack] + ReadOn(c).1, Waiting)
    case Exited(p, status, reason) =>
      if p != pty then (c, [], Waiting)
      else (ReadOn(c.(exited := Some((status, reason)))).0, ReadOn(c).1, Waiting)
    case Output(r) =>
      var idle := c.(inFlight := false);
      if r.nonce != READ then (c, [], Waiting)
      else if r.status != STATUS_OK then (idle, [], Failed)
      else
        var (found, rest) := Scan(c.pending + r.text, re, PENDING_MAX);
        var read := idle.(cursor := r.next, pending := rest);
        if found.Some? then (read, [], Found(found.value))
        else if r.truncated then (ReadOn(read).0, ReadOn(read).1, Waiting)
        else if c.exited.Some? then (read, [], ExitReported(c.exited.value.0, c.exited.value.1))
        else (read, [], Waiting)
    case Unreadable => (c, [], Waiting)
  }

  /** A whole session: how it ends, what it sends, and what it is left with. */
  function Session(pty: nat, re: Regex, c: Client, incoming: seq<Incoming>): (Outcome, seq<Request>, Client)
    decreases |incoming|
  {
    if incoming == [] then (Waiting, [], c)
    else match incoming[0]
      case Timeout => (TimedOut, [], c)
      case Lost => (Failed, [], c)
      case Got(m) =>
        var (next, sent, outcome) := ClientStep(pty, re, c, m);
        if outcome != Waiting then (outcome, sent, next)
        else
          var (end, more, last) := Session(pty, re, next, incoming[1..]);
          (end, sent + more, last)
  }

  function Started(start: Cursor): Client { Client(start, true, "", None) }

  /** The body of the receive loop. */
  method OnMessage(pty: nat, re: Regex, c: Client, m: Message)
    returns (next: Client, sent: seq<Request>, outcome: Outcome)
    ensures (next, sent, outcome) == ClientStep(pty, re, c, m)
  {
    hide Scan;
    var cursor, inFlight, pending, exited := c.cursor, c.inFlight, c.pending, c.exited;
    sent, outcome := [], Waiting;
    match m {
      case Update(p) =>
        if p != pty { return c, [], Waiting; }
        sent := [Ack];
        if !inFlight {
          sent := sent + [Since(cursor)];
          inFlight := true;
        } else {
          assert sent + [] == sent;
        }
      case Output(reply) =>
        if reply.nonce != READ { return c, [], Waiting; }
        inFlight := false;
        if reply.status != STATUS_OK { return c.(inFlight := inFlight), [], Failed; }
        cursor := reply.next;
        pending := pending + reply.text;
        var found;
        found, pending := FirstMatch(pending, re, PENDING_MAX);
        if found.Some? {
          outcome := Found(found.value);
        } else if reply.truncated {
          sent := [Since(cursor)];
          inFlight := true;
        } else if exited.Some? {
          outcome := ExitReported(exited.value.0, exited.value.1);
        }
      case Exited(p, status, reason) =>
        if p != pty { return c, [], Waiting; }
        exited := Some((status, reason));
        if !inFlight {
          sent := [Since(cursor)];
          inFlight := true;
        }
      case Unreadable =>
    }
    next := Client(cursor, inFlight, pending, exited);
  }

  method WaitForPattern(pty: nat, re: Regex, start: Cursor, incoming: seq<Incoming>)
    returns (outcome: Outcome, sent: seq<Request>, last: Client)
    ensures var (end, more, final) := Session(pty, re, Started(start), incoming);
            outcome == end && sent == [Subscribe, Since(start)] + more && last == final
  {
    hide ClientStep;
    sent := [Subscribe, Since(start)];
    last := Client(start, true, "", None);
    ghost var whole := Session(pty, re, last, incoming);
    for i := 0 to |incoming|
      invariant var rest := Session(pty, re, last, incoming[i..]);
                whole.0 == rest.0 && sent + rest.1 == [Subscribe, Since(start)] + whole.1 && whole.2 == rest.2
    {
      assert incoming[i..][0] == incoming[i] && incoming[i..][1..] == incoming[i + 1..];
      match incoming[i] {
        case Timeout => return TimedOut, sent, last;
        case Lost => return Failed, sent, last;
        case Got(m) =>
          var more;
          last, more, outcome := OnMessage(pty, re, last, m);
          sent := sent + more;
          if outcome != Waiting { return; }
      }
    }
    outcome := Waiting;
  }

  // ------------------------------------------------------------ the server and the wire

  /** The server's side: everything the terminal has put out, the place in it of every
      cursor handed out, and how it paces its updates. */
  datatype Server = Server(
    out: string, at: map<Cursor, nat>, subscribed: bool, dirty: bool, unacked: nat, exited: Option<(int, nat)>)

  /** `requests` and `replies` are the two FIFO queues.  `chunks` are the texts the client
      has been given.  `missed` says that the process had exited before the probe was
      answered, and the announcement went to a client that was not listening. */
  datatype System = System(
    client: Client, outcome: Outcome, requests: seq<Request>, replies: seq<Message>, server: Server,
    chunks: seq<string>, missed: bool)

  /** The wait: its terminal, its pattern, the place probed, and how many updates the
      server leaves unacknowledged. */
  datatype Wait = Wait(pty: nat, re: Regex, base: nat, limit: nat)

  datatype Step =
    | Produce(text: string)
    | Exit(status: int, reason: nat)
    | Notify
    | Accept
    | Answer(upTo: nat, next: Cursor, truncated: bool)
    | Refuse(error: nat)
    | Noise(message: Message)
    | Receive
    | Expire
    | Disconnect

  predicate Initial(w: Wait, s: System) {
    && w.limit > 0
    && s.client == Started(s.client.cursor)
    && s.client.cursor in s.server.at && s.server.at[s.client.cursor] == w.base <= |s.server.out|
    && s.outcome == Waiting && s.requests == [Subscribe, Since(s.client.cursor)] && s.replies == [] && s.chunks == []
    && !s.server.subscribed && !s.server.dirty && s.server.unacked == 0
    && s.missed == s.server.exited.Some?
  }

  predicate Ignored(w: Wait, m: Message) {
    match m
    case Update(p) => p != w.pty
    case Exited(p, _, _) => p != w.pty
    case Output(r) => r.nonce != READ
    case Unreadable => true
  }

  /** The cursor contract: a read returns exactly the text between two places, all of it
      unless truncated. */
  predicate AnswerOk(s: Server, cursor: Cursor, upTo: nat, next: Cursor, truncated: bool) {
    && cursor in s.at && s.at[cursor] <= upTo <= |s.out|
    && (truncated || upTo == |s.out|)
    && (next in s.at ==> s.at[next] == upTo)
  }

  predicate Enabled(w: Wait, s: System, step: Step) {
    && s.outcome == Waiting
    && match step
       case Produce(_) => s.server.exited.None?
       case Exit(_, _) => s.server.exited.None?
       case Notify => s.server.subscribed && s.server.dirty && s.server.unacked < w.limit
       case Accept => s.requests != [] && !s.requests[0].Since?
       case Answer(upTo, next, truncated) =>
         s.requests != [] && s.requests[0].Since? && AnswerOk(s.server, s.requests[0].cursor, upTo, next, truncated)
       case Refuse(error) => s.requests != [] && s.requests[0].Since? && error != STATUS_OK
       case Noise(m) => Ignored(w, m)
       case Receive => s.replies != []
       case Expire => true
       case Disconnect => true
  }

  function Next(w: Wait, s: System, step: Step): System
    requires Enabled(w, s, step)
  {
    var v := s.server;
    match step
    case Produce(text) => s.(server := v.(out := v.out + text, dirty := v.dirty || v.subscribed))
    case Exit(status, reason) =>
      s.(server := v.(exited := Some((status, reason))), replies := s.replies + [Exited(w.pty, status, reason)])
    case Notify => s.(server := v.(dirty := false, unacked := v.unacked + 1), replies := s.replies + [Update(w.pty)])
    case Accept =>
      s.(requests := s.requests[1..],
         server := if s.requests[0].Subscribe? then v.(subscribed := true)
                   else v.(unacked := if v.unacked > 0 then v.unacked - 1 else 0))
    case Answer(upTo, next, truncated) =>
      var text := v.out[v.at[s.requests[0].cursor]..upTo];
      s.(requests := s.requests[1..], server := v.(at := v.at[next := upTo]),
         replies := s.replies + [Output(Reply(READ, STATUS_OK, text, next, truncated))])
    case Refuse(error) =>
      s.(requests := s.requests[1..],
         replies := s.replies + [Output(Reply(READ, error, "", s.requests[0].cursor, false))])
    case Noise(m) => s.(replies := s.replies + [m])
    case Receive =>
      var m := s.replies[0];
      var (next, sent, outcome) := ClientStep(w.pty, w.re, s.client, m);
      s.(client := next, outcome := outcome, requests := s.requests + sent, replies := s.replies[1..],
         chunks := if GivesText(m) then s.chunks + [m.reply.text] else s.chunks)
    case Expire => s.(outcome := TimedOut)
    case Disconnect => s.(outcome := Failed)
  }

  predicate IsRead(m: Message) { m.Output? && m.reply.nonce == READ }

  predicate GivesText(m: Message) { IsRead(m) && m.reply.status == STATUS_OK }

  // ------------------------------------------------------------ what is on its way

  /** The client as a message on its way will find it: the read it was told to make is
      with the server (`Asked`), or will be sent on an earlier message (`WillAsk`). */
  datatype Mode = Idle | Asked | WillAsk

  datatype Head = Head(cursor: Cursor, mode: Mode, seen: bool)

  function Woken(mode: Mode): Mode { if mode == Idle then WillAsk else mode }

  function Meet(w: Wait, h: Head, m: Message): Head {
    match m
    case Update(p) => if p == w.pty then h.(mode := Woken(h.mode)) else h
    case Exited(p, _, _) => if p == w.pty then h.(mode := Woken(h.mode), seen := true) else h
    case Output(r) =>
      if r.nonce != READ then h
      else if r.status != STATUS_OK then h.(mode := WillAsk)
      else h.(cursor := r.next, mode := if r.truncated then WillAsk else Idle)
    case Unreadable => h
  }

  /** A reply answers the read that is out; after the exit it leaves nothing unread. */
  predicate Fits(w: Wait, h: Head, m: Message, v: Server) {
    match m
    case Exited(p, status, reason) => p == w.pty ==> !h.seen && v.exited == Some((status, reason))
    case Output(r) =>
      r.nonce == READ ==>
        && h.mode == Asked
        && (r.status == STATUS_OK ==>
              && h.cursor in v.at && r.next in v.at && v.at[h.cursor] <= v.at[r.next] <= |v.out|
              && r.text == v.out[v.at[h.cursor]..v.at[r.next]]
              && (h.seen && !r.truncated ==> v.at[r.next] == |v.out|))
    case _ => true
  }

  function After(w: Wait, h: Head, q: seq<Message>): Head {
    if q == [] then h else Meet(w, After(w, h, q[..|q| - 1]), q[|q| - 1])
  }

  predicate Pass(w: Wait, h: Head, q: seq<Message>, v: Server) {
    q == [] || (Pass(w, h, q[..|q| - 1], v) && Fits(w, After(w, h, q[..|q| - 1]), q[|q| - 1], v))
  }

  /** The reads among the requests. */
  function Sinces(requests: seq<Request>): seq<Cursor> {
    if requests == [] then []
    else Sinces(requests[..|requests| - 1]) + (var r := requests[|requests| - 1]; if r.Since? then [r.cursor] else [])
  }

  /** Once everything on its way has arrived: the read that is out is the client's only
      one, and an idle client has everything or is about to be notified. */
  predicate Rests(h: Head, requests: seq<Request>, v: Server, missed: bool) {
    && Sinces(requests) == (if h.mode == Asked then [h.cursor] else [])
    && h.cursor in v.at
    && (h.mode == Idle ==> v.dirty || v.at[h.cursor] == |v.out|)
    && (h.seen <==> v.exited.Some? && !missed)
    && (missed ==> v.exited.Some?)
    && (!v.subscribed ==> h.mode == Asked && requests != [] && requests[0].Subscribe?)
  }

  function HeadOf(c: Client): Head { Head(c.cursor, if c.inFlight then Asked else Idle, c.exited.Some?) }

  function Updates(w: Wait, q: seq<Message>): nat {
    if q == [] then 0 else Updates(w, q[..|q| - 1]) + (if q[|q| - 1] == Update(w.pty) then 1 else 0)
  }

  function Acks(requests: seq<Request>): nat {
    if requests == [] then 0 else Acks(requests[..|requests| - 1]) + (if requests[|requests| - 1].Ack? then 1 else 0)
  }

  function Reads(q: seq<Message>): nat {
    if q == [] then 0 else Reads(q[..|q| - 1]) + (if IsRead(q[|q| - 1]) then 1 else 0)
  }

  /** The text read so far is exactly what was put out since the probe, and none of it matched. */
  predicate ReadExactly(w: Wait, s: System) {
    && s.client.cursor in s.server.at && w.base <= s.server.at[s.client.cursor] <= |s.server.out|
    && Concat(s.chunks) == s.server.out[w.base..s.server.at[s.client.cursor]]
    && Feed(s.chunks, w.re, PENDING_MAX) == (None, s.client.pending)
  }

  predicate Live(w: Wait, s: System) {
    && w.limit > 0
    && Pass(w, HeadOf(s.client), s.replies, s.server)
    && Rests(After(w, HeadOf(s.client), s.replies), s.requests, s.server, s.missed)
    && s.server.unacked == Updates(w, s.replies) + Acks(s.requests)
    && (s.client.exited.Some? ==> s.client.inFlight && s.client.exited == s.server.exited)
    && ReadExactly(w, s)
  }

  /** How a wait may have ended. */
  predicate Ended(w: Wait, s: System) {
    match s.outcome
    case Waiting => false
    case Found(line) =>
      && w.base <= |s.server.out| && Concat(s.chunks) <= s.server.out[w.base..]
      && Feed(s.chunks, w.re, PENDING_MAX).0 == Some(line)
    case ExitReported(status, reason) =>
      && !s.missed && s.server.exited == Some((status, reason))
      && w.base <= |s.server.out| && Concat(s.chunks) == s.server.out[w.base..]
      && Feed(s.chunks, w.re, PENDING_MAX).0 == None
    case Failed => true
    case TimedOut => true
  }

  predicate Inv(w: Wait, s: System) { if s.outcome == Waiting then Live(w, s) else Ended(w, s) }

  // ------------------------------------------------------------ queues

  lemma {:induction false} TakeReply(w: Wait, h: Head, q: seq<Message>, v: Server)
    requires q != []
    ensures After(w, h, q) == After(w, Meet(w, h, q[0]), q[1..])
    ensures Pass(w, h, q, v) <==> Fits(w, h, q[0], v) && Pass(w, Meet(w, h, q[0]), q[1..], v)
    ensures Updates(w, q) == Updates(w, q[1..]) + (if q[0] == Update(w.pty) then 1 else 0)
  {
    hide Meet, Fits;
    var front := q[..|q| - 1];
    if front == [] {
      assert q[1..] == [];
    } else {
      TakeReply(w, h, front, v);
      assert q[1..][..|q[1..]| - 1] == front[1..];
    }
  }

  lemma {:induction false} TakeRequest(requests: seq<Request>)
    requires requests != []
    ensures Sinces(requests) == (if requests[0].Since? then [requests[0].cursor] else []) + Sinces(requests[1..])
    ensures Acks(requests) == Acks(requests[1..]) + (if requests[0].Ack? then 1 else 0)
  {
    var front := requests[..|requests| - 1];
    if front == [] {
      assert requests[1..] == [];
    } else {
      TakeRequest(front);
      assert requests[1..][..|requests[1..]| - 1] == front[1..];
    }
  }

  lemma {:induction false} AddRequests(a: seq<Request>, b: seq<Request>)
    ensures Sinces(a + b) == Sinces(a) + Sinces(b) && Acks(a + b) == Acks(a) + Acks(b)
  {
    if b == [] {
      assert a + b == a;
    } else {
      assert (a + b)[..|a + b| - 1] == a + b[..|b| - 1];
      AddRequests(a, b[..|b| - 1]);
    }
  }

  lemma AddReply(w: Wait, h: Head, q: seq<Message>, m: Message, v: Server)
    ensures After(w, h, q + [m]) == Meet(w, After(w, h, q), m)
    ensures Pass(w, h, q + [m], v) <==> Pass(w, h, q, v) && Fits(w, After(w, h, q), m, v)
    ensures Updates(w, q + [m]) == Updates(w, q) + (if m == Update(w.pty) then 1 else 0)
  {
    assert (q + [m])[..|q + [m]| - 1] == q;
  }

  predicate Grows(v: Server, u: Server) {
    && v.out <= u.out && (forall c | c in v.at :: c in u.at && u.at[c] == v.at[c])
    && (v.exited.Some? ==> u.exited == v.exited)
  }

  /** Messages on their way stay valid while the output grows, unless the exit is among them. */
  lemma {:induction false} PassGrows(w: Wait, h: Head, q: seq<Message>, v: Server, u: Server)
    requires Pass(w, h, q, v) && Grows(v, u) && (u.out == v.out || !After(w, h, q).seen)
    ensures Pass(w, h, q, u)
  {
    if q != [] { PassGrows(w, h, q[..|q| - 1], v, u); }
  }

  /** A read announced by an earlier message is as good as sent. */
  lemma {:induction false} AskNow(w: Wait, h: Head, q: seq<Message>, v: Server)
    requires h.mode == WillAsk && Pass(w, h, q, v)
    ensures After(w, h, q).mode == WillAsk && After(w, h, q).cursor == h.cursor
    ensures After(w, h.(mode := Asked), q) == After(w, h, q).(mode := Asked)
    ensures Pass(w, h.(mode := Asked), q, v)
  {
    if q != [] { AskNow(w, h, q[..|q| - 1], v); }
  }

  lemma {:induction false} ReadsOnTheWay(w: Wait, h: Head, q: seq<Message>, v: Server)
    requires Pass(w, h, q, v)
    ensures Reads(q) + (if After(w, h, q).mode == Asked then 1 else 0) == if h.mode == Asked then 1 else 0
  {
    if q != [] { ReadsOnTheWay(w, h, q[..|q| - 1], v); }
  }

  // ------------------------------------------------------------ every step

  lemma ProduceKeeps(w: Wait, s: System, text: string)
    requires s.outcome == Waiting && Live(w, s) && Enabled(w, s, Produce(text))
    ensures Live(w, Next(w, s, Produce(text)))
  {
    hide Pass, After, Sinces, Feed, Updates, Acks;
    var t := Next(w, s, Produce(text));
    PassGrows(w, HeadOf(s.client), s.replies, s.server, t.server);
  }

  lemma ExitKeeps(w: Wait, s: System, status: int, reason: nat)
    requires s.outcome == Waiting && Live(w, s) && Enabled(w, s, Exit(status, reason))
    ensures Live(w, Next(w, s, Exit(status, reason)))
  {
    hide Pass, After, Sinces, Feed, Updates, Acks;
    var t := Next(w, s, Exit(status, reason));
    PassGrows(w, HeadOf(s.client), s.replies, s.server, t.server);
    AddReply(w, HeadOf(s.client), s.replies, Exited(w.pty, status, reason), t.server);
  }

  lemma NotifyKeeps(w: Wait, s: System)
    requires s.outcome == Waiting && Live(w, s) && Enabled(w, s, Notify)
    ensures Live(w, Next(w, s, Notify))
  {
    hide Pass, After, Sinces, Feed, Updates, Acks;
    var t := Next(w, s, Notify);
    PassGrows(w, HeadOf(s.client), s.replies, s.server, t.server);
    AddReply(w, HeadOf(s.client), s.replies, Update(w.pty), t.server);
  }

  lemma AcceptKeeps(w: Wait, s: System)
    requires s.outcome == Waiting && Live(w, s) && Enabled(w, s, Accept)
    ensures Live(w, Next(w, s, Accept))
  {
    hide Pass, After, Sinces, Feed, Updates, Acks;
    var t := Next(w, s, Accept);
    PassGrows(w, HeadOf(s.client), s.replies, s.server, t.server);
    TakeRequest(s.requests);
  }

  lemma AnswerKeeps(w: Wait, s: System, upTo: nat, next: Cursor, truncated: bool)
    requires s.outcome == Waiting && Live(w, s) && Enabled(w, s, Answer(upTo, next, truncated))
    ensures Live(w, Next(w, s, Answer(upTo, next, truncated)))
  {
    hide Pass, After, Sinces, Feed, Updates, Acks;
    var t := Next(w, s, Answer(upTo, next, truncated));
    PassGrows(w, HeadOf(s.client), s.replies, s.server, t.server);
    TakeRequest(s.requests);
    var h, m := After(w, HeadOf(s.client), s.replies), t.replies[|s.replies|];
    AddReply(w, HeadOf(s.client), s.replies, m, t.server);
    assert Sinces(s.requests)[0] == s.requests[0].cursor && Sinces(s.requests)[1..] == Sinces(t.requests);
    assert h.mode == Asked && h.cursor == s.requests[0].cursor && Sinces(t.requests) == [];
    assert Rests(Meet(w, h, m), t.requests, t.server, t.missed);
    assert ReadExactly(w, t);
  }

  lemma RefuseKeeps(w: Wait, s: System, error: nat)
    requires s.outcome == Waiting && Live(w, s) && Enabled(w, s, Refuse(error))
    ensures Live(w, Next(w, s, Refuse(error)))
  {
    hide Pass, After, Sinces, Feed, Updates, Acks;
    var t := Next(w, s, Refuse(error));
    TakeRequest(s.requests);
    AddReply(w, HeadOf(s.client), s.replies, t.replies[|s.replies|], t.server);
  }

  lemma NoiseKeeps(w: Wait, s: System, m: Message)
    requires s.outcome == Waiting && Live(w, s) && Enabled(w, s, Noise(m))
    ensures Live(w, Next(w, s, Noise(m)))
  {
    hide Pass, After, Sinces, Feed, Updates, Acks;
    AddReply(w, HeadOf(s.client), s.replies, m, s.server);
  }

  /** What the client becomes is what the messages behind this one expect. */
  lemma ClientMeets(w: Wait, c: Client, m: Message)
    requires IsRead(m) ==> c.inFlight
    ensures var (next, sent, outcome) := ClientStep(w.pty, w.re, c, m);
            outcome == Waiting ==>
              var h := Meet(w, HeadOf(c), m);
              if h.mode == WillAsk then HeadOf(next) == h.(mode := Asked) && Sinces(sent) == [h.cursor]
              else HeadOf(next) == h && Sinces(sent) == []
    ensures Acks(ClientStep(w.pty, w.re, c, m).1) == if m == Update(w.pty) then 1 else 0
  {
    hide Scan;
    AddRequests([Ack], ReadOn(c).1);
  }

  lemma ChunksRead(w: Wait, s: System, m: Message)
    requires ReadExactly(w, s) && Fits(w, HeadOf(s.client), m, s.server) && GivesText(m)
    ensures w.base <= s.server.at[m.reply.next] <= |s.server.out|
    ensures Concat(s.chunks + [m.reply.text]) == s.server.out[w.base..s.server.at[m.reply.next]]
    ensures Feed(s.chunks + [m.reply.text], w.re, PENDING_MAX) ==
            Scan(s.client.pending + m.reply.text, w.re, PENDING_MAX)
  {
    hide Scan;
    assert (s.chunks + [m.reply.text])[..|s.chunks|] == s.chunks;
  }

  lemma ReceiveKeeps(w: Wait, s: System)
    requires s.outcome == Waiting && Live(w, s) && Enabled(w, s, Receive)
    ensures Inv(w, Next(w, s, Receive))
  {
    hide Pass, After, Sinces, Feed, Updates, Acks, Scan, Concat;
    var m, t, h := s.replies[0], Next(w, s, Receive), HeadOf(s.client);
    TakeReply(w, h, s.replies, s.server);
    ClientMeets(w, s.client, m);
    AddRequests(s.requests, ClientStep(w.pty, w.re, s.client, m).1);
    if Meet(w, h, m).mode == WillAsk { AskNow(w, Meet(w, h, m), t.replies, s.server); }
    if GivesText(m) { ChunksRead(w, s, m); }
    SeenStays(w, h, s.replies);
    assert t.outcome == Waiting ==> Rests(After(w, HeadOf(t.client), t.replies), t.requests, t.server, t.missed);
    assert t.outcome == Waiting ==> ReadExactly(w, t);
  }

  lemma {:induction false} SeenStays(w: Wait, h: Head, q: seq<Message>)
    ensures h.seen ==> After(w, h, q).seen
  {
    if q != [] { SeenStays(w, h, q[..|q| - 1]); }
  }

  lemma StepKeepsInv(w: Wait, s: System, step: Step)
    requires Inv(w, s) && Enabled(w, s, step)
    ensures Inv(w, Next(w, s, step))
  {
    hide Live;
    match step
    case Produce(text) => ProduceKeeps(w, s, text);
    case Exit(status, reason) => ExitKeeps(w, s, status, reason);
    case Notify => NotifyKeeps(w, s);
    case Accept => AcceptKeeps(w, s);
    case Answer(upTo, next, truncated) => AnswerKeeps(w, s, upTo, next, truncated);
    case Refuse(error) => RefuseKeeps(w, s, error);
    case Noise(m) => NoiseKeeps(w, s, m);
    case Receive => ReceiveKeeps(w, s);
    case Expire =>
    case Disconnect =>
  }

  lemma InitialOk(w: Wait, s: System)
    requires Initial(w, s)
    ensures Inv(w, s)
  {
    assert s.requests[..1] == [Subscribe] && s.requests[..1][..0] == [];
    assert Sinces([Subscribe]) == Sinces([]) + [] == [];
    assert Sinces(s.requests) == Sinces([Subscribe]) + [s.client.cursor];
    assert s.server.out[w.base..w.base] == "";
  }

  // ------------------------------------------------------------ whole runs

  predicate RunOk(w: Wait, s: System, steps: seq<Step>)
    decreases |steps|
  {
    steps == [] || (Enabled(w, s, steps[0]) && RunOk(w, Next(w, s, steps[0]), steps[1..]))
  }

  function Run(w: Wait, s: System, steps: seq<Step>): System
    requires RunOk(w, s, steps)
    decreases |steps|
  {
    if steps == [] then s else Run(w, Next(w, s, steps[0]), steps[1..])
  }

  lemma {:induction false} RunKeepsInv(w: Wait, s: System, steps: seq<Step>)
    requires Inv(w, s) && RunOk(w, s, steps)
    ensures Inv(w, Run(w, s, steps)) && Run(w, s, steps).missed == s.missed
    decreases |steps|
  {
    hide Inv, Enabled;
    if steps != [] {
      StepKeepsInv(w, s, steps[0]);
      RunKeepsInv(w, Next(w, s, steps[0]), steps[1..]);
    }
  }

  /** At any moment at most one read is out, with the server or on its way back. */
  lemma AtMostOneRead(w: Wait, s: System, steps: seq<Step>)
    requires Initial(w, s) && RunOk(w, s, steps)
    ensures var t := Run(w, s, steps);
            t.outcome == Waiting ==> |Sinces(t.requests)| + Reads(t.replies) == if t.client.inFlight then 1 else 0
  {
    hide Run, RunOk, Pass, After, Sinces, Reads, Feed, Updates, Acks;
    InitialOk(w, s);
    RunKeepsInv(w, s, steps);
    var t := Run(w, s, steps);
    if t.outcome == Waiting { ReadsOnTheWay(w, HeadOf(t.client), t.replies, t.server); }
  }

  /** A wait that succeeds reports the end of a line, complete or not, that was put out
      after the probe; a wait that reports the exit has looked at everything put out
      between the probe and the exit, and no line up to the pending limit matches. */
  lemma WaitIsSound(w: Wait, s: System, steps: seq<Step>)
    requires Initial(w, s) && RunOk(w, s, steps)
    ensures var t := Run(w, s, steps);
            w.base <= |t.server.out| &&
            var since := t.server.out[w.base..];
            match t.outcome
            case Found(line) =>
              && w.re(line) && Concat(t.chunks) <= since
              && (exists k | 0 < k <= |t.chunks| :: EndsLineOf(line, Concat(t.chunks[..k])))
              && (Short(Concat(t.chunks), PENDING_MAX) ==> RescanEach(t.chunks, w.re) == Some(line))
            case ExitReported(status, reason) =>
              && t.server.exited == Some((status, reason)) && Concat(t.chunks) == since
              && NoShortMatch(Lines(since), w.re, PENDING_MAX) && NoTailMatch(since, w.re, PENDING_MAX)
            case _ => true
  {
    hide Run, RunOk, Pass, After, Sinces, Feed, Updates, Acks, EndsLineOf, RescanEach, Short, NoShortMatch, NoTailMatch,
         Lines, Concat;
    InitialOk(w, s);
    RunKeepsInv(w, s, steps);
    OutputStays(w, s, steps);
    var t := Run(w, s, steps);
    if t.outcome.Found? {
      OnlyOutputIsFound(t.chunks, w.re, PENDING_MAX);
      if Short(Concat(t.chunks), PENDING_MAX) { MatchesWholeLines(t.chunks, w.re, PENDING_MAX); }
    } else if t.outcome.ExitReported? {
      NothingMissed(t.chunks, w.re, PENDING_MAX);
      assert t.chunks[..|t.chunks|] == t.chunks;
    }
  }

  lemma {:induction false} OutputStays(w: Wait, s: System, steps: seq<Step>)
    requires RunOk(w, s, steps)
    ensures s.server.out <= Run(w, s, steps).server.out
    decreases |steps|
  {
    hide ClientStep;
    if steps != [] { OutputStays(w, Next(w, s, steps[0]), steps[1..]); }
  }

  /** Nothing is on its way and the server has nothing to announce. */
  predicate Quiet(w: Wait, s: System) {
    s.requests == [] && s.replies == [] && !(s.server.dirty && s.server.unacked < w.limit)
  }

  /** No wake-up is lost: a wait that is still waiting when all is quiet has read, and
      ruled out, everything; and the process has not exited, unless it did so while the
      probe was being answered.  An exit in that window is never reported. */
  lemma NoLostWakeup(w: Wait, s: System, steps: seq<Step>)
    requires Initial(w, s) && RunOk(w, s, steps)
    ensures var t := Run(w, s, steps);
            t.outcome == Waiting && Quiet(w, t) ==>
              && !t.client.inFlight && w.base <= |t.server.out|
              && Concat(t.chunks) == t.server.out[w.base..]
              && Feed(t.chunks, w.re, PENDING_MAX).0.None?
              && (t.server.exited.Some? <==> s.server.exited.Some?)
    ensures s.server.exited.Some? ==> !Run(w, s, steps).outcome.ExitReported?
  {
    hide Run, RunOk, Feed, Concat;
    InitialOk(w, s);
    RunKeepsInv(w, s, steps);
  }

  /** The run of a process that exits while the probe is being answered and has nothing
      more to say: the client subscribes, reads nothing, and goes on waiting. */
  lemma ExitDuringProbeIsMissed(w: Wait, s: System)
    requires Initial(w, s) && s.server.exited.Some? && |s.server.out| == w.base
    ensures var steps := [Accept, Answer(w.base, s.client.cursor, false), Receive];
            && RunOk(w, s, steps)
            && var t := Run(w, s, steps); t.outcome == Waiting && Quiet(w, t) && t.server.exited.Some?
  {
    var steps := [Accept, Answer(w.base, s.client.cursor, false), Receive];
    var s1 := Next(w, s, steps[0]);
    assert s1.requests == [Since(s.client.cursor)];
    var s2 := Next(w, s1, steps[1]);
    assert s2.requests == [] && |s2.replies| == 1;
    NothingToScan(w.re, PENDING_MAX);
    var s3 := Next(w, s2, steps[2]);
    assert s3.requests == [] && s3.replies == [] && s3.outcome == Waiting;
    assert steps[1..][1..][1..] == [];
    assert steps[1..] == [steps[1], steps[2]] && steps[1..][1..] == [steps[2]];
    assert RunOk(w, s3, []) && Run(w, s3, []) == s3;
    assert RunOk(w, s2, [steps[2]]) && Run(w, s2, [steps[2]]) == s3;
    assert RunOk(w, s1, [steps[1], steps[2]]) && Run(w, s1, [steps[1], steps[2]]) == s3;
  }

  lemma NothingToScan(re: Regex, max: nat)
    ensures "" + "" == "" && Scan("", re, max) == (None, "")
  {
  }

  // ------------------------------------------------------------ the method and the runs

  /** What the client is given in a run: the messages it takes, the deadline, the end of
      the connection. */
  function Given(w: Wait, s: System, steps: seq<Step>): seq<Incoming>
    requires RunOk(w, s, steps)
    decreases |steps|
  {
    if steps == [] then []
    else
      (match steps[0]
       case Receive => [Got(s.replies[0])]
       case Expire => [Timeout]
       case Disconnect => [Lost]
       case _ => [])
      + Given(w, Next(w, s, steps[0]), steps[1..])
  }

  /** The requests it adds to the queue. */
  function Sent(w: Wait, s: System, steps: seq<Step>): seq<Request>
    requires RunOk(w, s, steps)
    decreases |steps|
  {
    if steps == [] then []
    else
      var t := Next(w, s, steps[0]);
      (if steps[0].Receive? then t.requests[|s.requests|..] else []) + Sent(w, t, steps[1..])
  }

  lemma GivenNext(w: Wait, s: System, steps: seq<Step>)
    requires RunOk(w, s, steps) && steps != []
    ensures var t := Next(w, s, steps[0]);
            && Given(w, s, steps) ==
               (match steps[0]
                case Receive => [Got(s.replies[0])]
                case Expire => [Timeout]
                case Disconnect => [Lost]
                case _ => [])
               + Given(w, t, steps[1..])
            && Sent(w, s, steps) ==
               (if steps[0].Receive? then ClientStep(w.pty, w.re, s.client, s.replies[0]).1 else [])
               + Sent(w, t, steps[1..])
  {
    hide ClientStep;
    if steps[0].Receive? {
      var sent := ClientStep(w.pty, w.re, s.client, s.replies[0]).1;
      assert (s.requests + sent)[|s.requests|..] == sent;
    }
  }

  /** The loop, given what the client of a run is given, does what that client does. */
  lemma {:induction false} SessionIsRun(w: Wait, s: System, steps: seq<Step>)
    requires RunOk(w, s, steps) && s.outcome == Waiting
    ensures var t := Run(w, s, steps);
            Session(w.pty, w.re, s.client, Given(w, s, steps)) == (t.outcome, Sent(w, s, steps), t.client)
    decreases |steps|
  {
    hide ClientStep, Given, Sent;
    if steps == [] {
      NothingGiven(w, s);
    } else {
      var t, rest := Next(w, s, steps[0]), steps[1..];
      GivenNext(w, s, steps);
      if t.outcome == Waiting {
        SessionIsRun(w, t, rest);
      } else {
        assert rest == [];
        NothingGiven(w, t);
      }
      SessionNext(w.pty, w.re, s.client, Given(w, s, steps));
      if steps[0].Receive? {
        assert Given(w, s, steps)[1..] == Given(w, t, rest);
        var sent := ClientStep(w.pty, w.re, s.client, s.replies[0]).1;
        assert sent + [] == sent;
      } else {
        assert [] + Given(w, t, rest) == Given(w, t, rest) && [] + Sent(w, t, rest) == Sent(w, t, rest);
      }
    }
  }

  lemma NothingGiven(w: Wait, s: System)
    ensures RunOk(w, s, []) && Run(w, s, []) == s && Given(w, s, []) == [] && Sent(w, s, []) == []
  {
  }

  lemma SessionNext(pty: nat, re: Regex, c: Client, incoming: seq<Incoming>)
    ensures Session(pty, re, c, incoming) ==
            if incoming == [] then (Waiting, [], c)
            else match incoming[0]
              case Timeout => (TimedOut, [], c)
              case Lost => (Failed, [], c)
              case Got(m) =>
                var (next, sent, outcome) := ClientStep(pty, re, c, m);
                if outcome != Waiting then (outcome, sent, next)
                else
                  var (end, more, last) := Session(pty, re, next, incoming[1..]);
                  (end, sent + more, last)
  {
    hide ClientStep;
  }

  /** Whatever comes first of a message that ends the wait, a refused read, the deadline
      and the end of the connection decides, and nothing behind it is looked at. */
  lemma {:induction false} FirstEndDecides(pty: nat, re: Regex, c: Client, a: seq<Incoming>, refused: Reply,
                                           b: seq<Incoming>)
    requires refused.nonce == READ && refused.status != STATUS_OK
    ensures var (outcome, sent, last) := Session(pty, re, c, a);
            && (outcome != Waiting ==> Session(pty, re, c, a + b) == (outcome, sent, last))
            && (outcome == Waiting ==>
                  && Session(pty, re, c, a + [Timeout] + b) == (TimedOut, sent, last)
                  && Session(pty, re, c, a + [Lost] + b) == (Failed, sent, last)
                  && Session(pty, re, c, a + [Got(Output(refused))] + b) == (Failed, sent, last.(inFlight := false)))
    decreases |a|
  {
    hide ClientStep;
    if a == [] {
      assert a + [Timeout] + b == [Timeout] + b && a + [Lost] + b == [Lost] + b;
      RefusedFails(pty, re, c, refused, b);
      assert a + [Got(Output(refused))] + b == [Got(Output(refused))] + b;
    } else {
      assert (a + b)[1..] == a[1..] + b;
      assert (a + [Timeout] + b)[1..] == a[1..] + [Timeout] + b && (a + [Lost] + b)[1..] == a[1..] + [Lost] + b;
      assert (a + [Got(Output(refused))] + b)[1..] == a[1..] + [Got(Output(refused))] + b;
      if a[0].Got? {
        FirstEndDecides(pty, re, ClientStep(pty, re, c, a[0].message).0, a[1..], refused, b);
      }
    }
  }

  lemma RefusedFails(pty: nat, re: Regex, c: Client, refused: Reply, b: seq<Incoming>)
    requires refused.nonce == READ && refused.status != STATUS_OK
    ensures Session(pty, re, c, [Got(Output(refused))] + b) == (Failed, [], c.(inFlight := false))
  {
  }

  /** The wait times out or fails for no other reason. */
  lemma {:induction false} EndHasACause(pty: nat, re: Regex, c: Client, incoming: seq<Incoming>)
    ensures Session(pty, re, c, incoming).0 == TimedOut ==> Timeout in incoming
    ensures Session(pty, re, c, incoming).0 == Failed ==>
              exists x | x in incoming :: x.Lost? || IsRefusal(x)
    decreases |incoming|
  {
    hide Scan;
    if incoming != [] && incoming[0].Got? {
      EndHasACause(pty, re, ClientStep(pty, re, c, incoming[0].message).0, incoming[1..]);
      assert forall x | x in incoming[1..] :: x in incoming;
      assert incoming[0] in incoming;
    }
  }

  predicate IsRefusal(x: Incoming) {
    x.Got? && x.message.Output? && x.message.reply.nonce == READ && x.message.reply.status != STATUS_OK
  }

  /** Over every run, the wait given what its client was given ends as the run does, has
      sent what that client sent, and is left as it is. */
  method WaitInRun(w: Wait, ghost s: System, ghost steps: seq<Step>, start: Cursor, incoming: seq<Incoming>)
    returns (outcome: Outcome, sent: seq<Request>, last: Client)
    requires Initial(w, s) && RunOk(w, s, steps) && start == s.client.cursor && incoming == Given(w, s, steps)
    ensures var t := Run(w, s, steps);
            outcome == t.outcome && sent == s.requests + Sent(w, s, steps) && last == t.client
  {
    hide Session, Run, Given, Sent;
    SessionIsRun(w, s, steps);
    outcome, sent, last := WaitForPattern(w.pty, w.re, start, incoming);
  }
}
