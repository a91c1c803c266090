/** Client threads, two queues and the worker loop as a step system over the bytes on the wire, for any protocol. */
module System {
  import opened Bytes
  import opened Messages
  import opened Service

  /** A client thread: between operations, holding a fresh id, or blocked in recv. The ids here are unbounded;
      the command carries the 8-bit one. */
  datatype Thread = Idle | Ready(id: nat, cmd: Command) | Waiting(id: nat, cmd: Command)

  /** Where the worker loop stands. `popped` is false when the pop saw the stop and returned an empty buffer. */
  datatype Server = AtGuard | InRecv | Rechecking(buf: seq<byte>, popped: bool) | Working(buf: seq<byte>) | Exited | Crashed

  datatype Sent = Sent(id: nat, cmd: Command)
  datatype Outcome = Outcome(thread: nat, cmd: Command, result: Result<seq<nat>>)

  datatype State<!S> = State(
    next: nat,                 // ids handed out; the atomic counter holds next % 256
    threads: map<nat, Thread>,
    cmdQ: seq<seq<byte>>,
    respQ: seq<seq<byte>>,
    server: Server,
    target: S,
    stop: bool,
    // history
    sent: seq<Sent>,           // in send order
    applied: nat,              // commands run on the target and answered
    consumed: nat,             // responses taken by the client
    dropped: nat,              // commands popped and never answered
    timeouts: nat,
    log: seq<Outcome>)

  datatype Event =
    | Call(t: nat, c: Command)   // an operation takes the next id and builds its command
    | Send(t: nat)               // encodeCommand, then push
    | Receive(t: nat)            // pop, decodeResponse, visit
    | Timeout(t: nat)
    | Guard | Pop | Recheck | Work
    | Stop

  function Init<S>(t0: S): State<S> {
    State(0, map[], [], [], AtGuard, t0, false, [], 0, 0, 0, 0, [])
  }

  function ThreadOf<S>(s: State<S>, t: nat): Thread {
    if t in s.threads then s.threads[t] else Idle
  }

  function WithTxn(c: Command, txn: byte): Command {
    c.(txn := txn)
  }

  /** The id is all that a call adds: what the command asks of the target, what it puts on the wire, and whether it is
      posted are the caller's. */
  lemma WithTxnKeeps(c: Command, txn: byte)
    ensures var c' := WithTxn(c, txn);
      && c'.txn == txn && OpOf(c') == OpOf(c)
      && CommandFields(c') == CommandFields(c) && CommandType(c') == CommandType(c)
  {
  }

  // ---------------------------------------------------------------- what a step leaves behind

  function Finished<S>(s: State<S>, t: nat, c: Command, r: Result<seq<nat>>): State<S> {
    s.(threads := s.threads[t := Idle], log := s.log + [Outcome(t, c, r)])
  }

  /** Thread `t` pushed the bytes `b` of its command `c`. */
  function Pushed<S>(s: State<S>, t: nat, id: nat, c: Command, b: seq<byte>): State<S> {
    s.(threads := s.threads[t := Waiting(id, c)], cmdQ := s.cmdQ + [b], sent := s.sent + [Sent(id, c)])
  }

  /** Thread `t`, running `c`, took the oldest response and made `r` of it. */
  function Taken<S>(s: State<S>, t: nat, c: Command, r: Result<seq<nat>>): State<S>
    requires s.respQ != []
  {
    Finished(s, t, c, r).(respQ := s.respQ[1..], consumed := s.consumed + 1)
  }

  /** The worker ran the command it held and answered it. */
  function Worked<S>(s: State<S>, target: S, reply: seq<byte>): State<S> {
    s.(server := AtGuard, target := target, respQ := s.respQ + [reply], applied := s.applied + 1)
  }

  /** The worker left its loop with a command in hand. */
  function Dropped<S>(s: State<S>, server: Server, target: S): State<S> {
    s.(server := server, target := target, dropped := s.dropped + 1)
  }

  // ---------------------------------------------------------------- the steps

  /** getNextTxnId and the construction of the command. */
  function CallStep<S>(s: State<S>, t: nat, c: Command): State<S> {
    if ThreadOf(s, t).Idle? then
      s.(next := s.next + 1, threads := s.threads[t := Ready(s.next, WithTxn(c, s.next % 256))])
    else s
  }

  /** encodeCommand, then push. */
  function SendStep<S>(f: Protocol<S>, s: State<S>, t: nat): State<S> {
    var th := ThreadOf(s, t);
    if !th.Ready? then s else
      match f.encode(th.cmd)
      case Err(e) => Finished(s, t, th.cmd, Err(e))
      case Ok(b) => Pushed(s, t, th.id, th.cmd, b)
  }

  /** The pop without a stop token, then decodeResponse and the visitor. */
  function ReceiveStep<S>(f: Protocol<S>, s: State<S>, t: nat): State<S> {
    var th := ThreadOf(s, t);
    if !th.Waiting? || s.respQ == [] then s else Taken(s, t, th.cmd, f.read(th.cmd, s.respQ[0]))
  }

  /** The same pop when the wait ends with the queue still empty. */
  function TimeoutStep<S>(s: State<S>, t: nat): State<S> {
    var th := ThreadOf(s, t);
    if !th.Waiting? || s.respQ != [] then s else
      Finished(s, t, th.cmd, Err(TransportTimeout)).(timeouts := s.timeouts + 1)
  }

  /** The loop's own look at the stop token. */
  function GuardStep<S>(s: State<S>): State<S> {
    if s.server.AtGuard? then s.(server := if s.stop then Exited else InRecv) else s
  }

  /** The stop-aware pop; without a stop it blocks on an empty queue. */
  function PopStep<S>(s: State<S>): State<S> {
    if !s.server.InRecv? then s
    else if s.stop then s.(server := Rechecking([], false))
    else if s.cmdQ == [] then s
    else s.(server := Rechecking(s.cmdQ[0], true), cmdQ := s.cmdQ[1..])
  }

  /** The second look at the stop token, after the pop. */
  function RecheckStep<S>(s: State<S>): State<S> {
    if !s.server.Rechecking? then s
    else if !s.stop then s.(server := Working(s.server.buf))
    else if s.server.popped then Dropped(s, Exited, s.target)
    else s.(server := Exited)
  }

  /** Decode, run on the target, encode, push; an error from the codec ends the worker. */
  function WorkStep<S>(f: Protocol<S>, s: State<S>): State<S> {
    if !s.server.Working? then s else
      var (target, r) := f.serve(s.target, s.server.buf);
      match r
      case Err(_) => Dropped(s, Crashed, target)
      case Ok(reply) => Worked(s, target, reply)
  }

  /** One atomic step; an event that is not enabled changes nothing. */
  function Step<S>(f: Protocol<S>, s: State<S>, e: Event): State<S> {
    match e
    case Call(t, c) => CallStep(s, t, c)
    case Send(t) => SendStep(f, s, t)
    case Receive(t) => ReceiveStep(f, s, t)
    case Timeout(t) => TimeoutStep(s, t)
    case Guard => GuardStep(s)
    case Pop => PopStep(s)
    case Recheck => RecheckStep(s)
    case Work => WorkStep(f, s)
    case Stop => s.(stop := true)
  }

  /** The state after a run: any events, in any order, by any threads. */
  function Run<S>(f: Protocol<S>, t0: S, es: seq<Event>): State<S> {
    if es == [] then Init(t0) else Step(f, Run(f, t0, es[..|es| - 1]), es[|es| - 1])
  }

  // ---------------------------------------------------------------- the reference history

  /** The bytes of a command that is not refused. */
  function Wire<S>(f: Protocol<S>, c: Command): seq<byte> {
    match f.encode(c)
    case Ok(b) => b
    case Err(_) => []
  }

  function Wires<S>(f: Protocol<S>, sent: seq<Sent>): (r: seq<seq<byte>>)
    ensures |r| == |sent|
  {
    if sent == [] then [] else [Wire(f, sent[0].cmd)] + Wires(f, sent[1..])
  }

  /** The target after serving the sent commands, in order, with nothing in between. */
  function StateAfter<S>(f: Protocol<S>, t0: S, sent: seq<Sent>): S {
    if sent == [] then t0 else f.serve(StateAfter(f, t0, sent[..|sent| - 1]), Wire(f, sent[|sent| - 1].cmd)).0
  }

  /** What serving the `k`-th sent command yields. */
  function ServedAt<S>(f: Protocol<S>, t0: S, sent: seq<Sent>, k: nat): Result<seq<byte>>
    requires k < |sent|
  {
    f.serve(StateAfter(f, t0, sent[..k]), Wire(f, sent[k].cmd)).1
  }

  function ReplyAt<S>(f: Protocol<S>, t0: S, sent: seq<Sent>, k: nat): seq<byte>
    requires k < |sent|
  {
    match ServedAt(f, t0, sent, k)
    case Ok(b) => b
    case Err(_) => []
  }

  /** The replies to the sent commands `from..to`. */
  function Replies<S>(f: Protocol<S>, t0: S, sent: seq<Sent>, from: nat, to: nat): (r: seq<seq<byte>>)
    requires from <= to <= |sent|
    ensures |r| == to - from
    decreases |sent| - from
  {
    if from == to then [] else [ReplyAt(f, t0, sent, from)] + Replies(f, t0, sent, from + 1, to)
  }

  /** The command that the server holds between pop and reply, if any. */
  function Held(server: Server): seq<seq<byte>> {
    if server.Working? || (server.Rechecking? && server.popped) then [server.buf] else []
  }

  // ---------------------------------------------------------------- the inductive invariant

  /** Ids: every id given out is below `next`, belongs to one operation, and shows in the command modulo 256. */
  ghost predicate IdInv<S>(f: Protocol<S>, s: State<S>) {
    && (forall i :: 0 <= i < |s.sent| ==> s.sent[i].id < s.next && s.sent[i].cmd.txn == s.sent[i].id % 256)
    && (forall i :: 0 <= i < |s.sent| ==> f.encode(s.sent[i].cmd).Ok?)
    && (forall i, j :: 0 <= i < j < |s.sent| ==> s.sent[i].id != s.sent[j].id)
    && (forall t :: t in s.threads && s.threads[t].Ready? ==> Fresh(s, s.threads[t]))
    && (forall t :: t in s.threads && s.threads[t].Waiting? ==> Sent(s.threads[t].id, s.threads[t].cmd) in s.sent)
    && (forall t, u :: t in s.threads && u in s.threads && t != u && !s.threads[t].Idle? && !s.threads[u].Idle?
          ==> s.threads[t].id != s.threads[u].id)
  }

  ghost predicate Fresh<S>(s: State<S>, th: Thread)
    requires !th.Idle?
  {
    && th.id < s.next && th.cmd.txn == th.id % 256
    && forall i :: 0 <= i < |s.sent| ==> s.sent[i].id != th.id
  }

  /** Queues: the sent commands are, in order, the applied ones, the one dropped, the one the server holds and the
      queued ones; the responses are, in order, the replies to the applied commands not yet consumed; the target has
      seen the applied commands, and the one that killed the worker. */
  ghost predicate QueueInv<S>(f: Protocol<S>, t0: S, s: State<S>) {
    && s.applied <= Tried(s) && s.applied + s.dropped <= |s.sent|
    && Held(s.server) + s.cmdQ == Wires(f, s.sent[s.applied + s.dropped..])
    && HistoryInv(f, t0, s.sent, s.consumed, s.applied, Tried(s), s.respQ, s.target)
  }

  ghost predicate HistoryInv<S>(f: Protocol<S>, t0: S, sent: seq<Sent>, consumed: nat, applied: nat, tried: nat,
                                respQ: seq<seq<byte>>, target: S)
  {
    && consumed <= applied <= tried <= |sent|
    && respQ == Replies(f, t0, sent, consumed, applied)
    && target == StateAfter(f, t0, sent[..tried])
  }

  function Tried<S>(s: State<S>): nat {
    s.applied + if s.server.Crashed? then 1 else 0
  }

  /** The worker: it leaves its loop only at a stop or on a codec error, and then drops at most one command. */
  ghost predicate ServerInv<S>(s: State<S>) {
    && (s.server.Exited? ==> s.stop)
    && (s.server.Rechecking? && !s.server.popped ==> s.stop)
    && s.dropped <= (if s.server.Exited? || s.server.Crashed? then 1 else 0)
    && (s.server.Crashed? ==> s.dropped == 1)
  }

  /** Every applied command could be served, and only one that could not can have killed the worker. */
  ghost predicate FitInv<S>(f: Protocol<S>, t0: S, s: State<S>) {
    && s.applied <= |s.sent|
    && (forall i :: 0 <= i < s.applied ==> ServedAt(f, t0, s.sent, i).Ok?)
    && (s.server.Crashed? ==> s.applied < |s.sent| && ServedAt(f, t0, s.sent, s.applied).Err?)
  }

  ghost function WaitingThreads<S>(s: State<S>): set<nat> {
    set t | t in s.threads && s.threads[t].Waiting?
  }

  ghost predicate CountInv<S>(s: State<S>) {
    |s.sent| == |WaitingThreads(s)| + s.consumed + s.timeouts
  }

  ghost predicate Inv<S>(f: Protocol<S>, t0: S, s: State<S>) {
    IdInv(f, s) && QueueInv(f, t0, s) && ServerInv(s) && FitInv(f, t0, s) && CountInv(s)
  }

  // ---------------------------------------------------------------- it holds in every run

  lemma {:induction false} RunInv<S>(f: Protocol<S>, t0: S, es: seq<Event>)
    ensures Inv(f, t0, Run(f, t0, es))
    decreases |es|
  {
    if es == [] {
      InitInv(f, t0);
    } else {
      var init, e := es[..|es| - 1], es[|es| - 1];
      RunInv(f, t0, init);
      StepInv(f, t0, Run(f, t0, init), e);
      assert Run(f, t0, es) == Step(f, Run(f, t0, init), e);
    }
  }

  lemma InitInv<S>(f: Protocol<S>, t0: S)
    ensures Inv(f, t0, Init(t0))
  {
    assert WaitingThreads(Init(t0)) == {};
  }

  lemma StepInv<S>(f: Protocol<S>, t0: S, s: State<S>, e: Event)
    requires Inv(f, t0, s)
    ensures Inv(f, t0, Step(f, s, e))
  {
    StepIds(f, s, e);
    StepQueues(f, t0, s, e);
    StepServer(f, s, e);
    StepFit(f, t0, s, e);
    StepCount(f, s, e);
  }

  // ---------------------------------------------------------------- ids

  lemma StepIds<S>(f: Protocol<S>, s: State<S>, e: Event)
    requires IdInv(f, s)
    ensures IdInv(f, Step(f, s, e))
  {
    match e
    case Call(t, c) => CallIds(f, s, t, c);
    case Send(t) => SendIds(f, s, t);
    case Receive(t) => EndIds(f, s, t, Step(f, s, e));
    case Timeout(t) => EndIds(f, s, t, Step(f, s, e));
    case _ => EndIds(f, s, 0, Step(f, s, e));
  }

  lemma CallIds<S>(f: Protocol<S>, s: State<S>, t: nat, c: Command)
    requires IdInv(f, s)
    ensures IdInv(f, CallStep(s, t, c))
  {
    forall u | u in s.threads && s.threads[u].Waiting? ensures s.threads[u].id < s.next {
      assert Sent(s.threads[u].id, s.threads[u].cmd) in s.sent;
    }
  }

  lemma SendIds<S>(f: Protocol<S>, s: State<S>, t: nat)
    requires IdInv(f, s)
    ensures IdInv(f, SendStep(f, s, t))
  {
    var th := ThreadOf(s, t);
    if th.Ready? && f.encode(th.cmd).Ok? {
      assert Fresh(s, th);
      PushedIds(f, s, t, th.id, th.cmd);
    } else {
      EndIds(f, s, t, SendStep(f, s, t));
    }
  }

  lemma PushedIds<S>(f: Protocol<S>, s: State<S>, t: nat, id: nat, c: Command)
    requires IdInv(f, s) && f.encode(c).Ok? && ThreadOf(s, t) == Ready(id, c) && Fresh(s, Ready(id, c))
    ensures IdInv(f, Pushed(s, t, id, c, f.encode(c).value))
  {
    var s' := Pushed(s, t, id, c, f.encode(c).value);
    assert s'.sent[|s.sent|] == Sent(id, c);
    forall u | u in s'.threads && s'.threads[u].Waiting? ensures Sent(s'.threads[u].id, s'.threads[u].cmd) in s'.sent {
      if u != t { assert Sent(s.threads[u].id, s.threads[u].cmd) in s.sent; }
    }
  }

  /** Ending an operation, or doing nothing to the threads, touches no id. */
  lemma EndIds<S>(f: Protocol<S>, s: State<S>, t: nat, s': State<S>)
    requires IdInv(f, s) && s'.sent == s.sent && s'.next == s.next
    requires s'.threads == s.threads || s'.threads == s.threads[t := Idle]
    ensures IdInv(f, s')
  {
  }

  // ---------------------------------------------------------------- histories as the sent commands grow

  lemma PrefixStable<S>(f: Protocol<S>, t0: S, sent: seq<Sent>, x: Sent, k: nat)
    requires k <= |sent|
    ensures StateAfter(f, t0, (sent + [x])[..k]) == StateAfter(f, t0, sent[..k])
    ensures k < |sent| ==> ServedAt(f, t0, sent + [x], k) == ServedAt(f, t0, sent, k)
  {
    assert (sent + [x])[..k] == sent[..k];
  }

  lemma {:induction false} WiresAppend<S>(f: Protocol<S>, sent: seq<Sent>, x: Sent)
    ensures Wires(f, sent + [x]) == Wires(f, sent) + [Wire(f, x.cmd)]
  {
    if sent == [] {
      assert [x][1..] == [];
    } else {
      assert (sent + [x])[1..] == sent[1..] + [x];
      WiresAppend(f, sent[1..], x);
    }
  }

  lemma WiresHead<S>(f: Protocol<S>, sent: seq<Sent>, from: nat)
    requires from < |sent|
    ensures Wires(f, sent[from..]) == [Wire(f, sent[from].cmd)] + Wires(f, sent[from + 1..])
  {
    assert sent[from..][1..] == sent[from + 1..];
  }

  lemma {:induction false} RepliesStable<S>(f: Protocol<S>, t0: S, sent: seq<Sent>, x: Sent, from: nat, to: nat)
    requires from <= to <= |sent|
    ensures Replies(f, t0, sent + [x], from, to) == Replies(f, t0, sent, from, to)
    decreases |sent| - from
  {
    if from < to {
      PrefixStable(f, t0, sent, x, from);
      RepliesStable(f, t0, sent, x, from + 1, to);
    }
  }

  lemma {:induction false} RepliesAppend<S>(f: Protocol<S>, t0: S, sent: seq<Sent>, from: nat, to: nat)
    requires from <= to < |sent|
    ensures Replies(f, t0, sent, from, to + 1) == Replies(f, t0, sent, from, to) + [ReplyAt(f, t0, sent, to)]
    decreases |sent| - from
  {
    if from < to {
      RepliesAppend(f, t0, sent, from + 1, to);
    }
  }

  lemma StateAfterSnoc<S>(f: Protocol<S>, t0: S, sent: seq<Sent>, a: nat)
    requires a < |sent|
    ensures StateAfter(f, t0, sent[..a + 1]) == f.serve(StateAfter(f, t0, sent[..a]), Wire(f, sent[a].cmd)).0
  {
    assert sent[..a + 1][..a] == sent[..a];
  }

  // ---------------------------------------------------------------- queues

  /** Steps that touch neither the responses nor the target, and only move commands from the queue to the server. */
  lemma QueueFrame<S>(f: Protocol<S>, t0: S, s: State<S>, s': State<S>)
    requires QueueInv(f, t0, s)
    requires Held(s'.server) + s'.cmdQ == Held(s.server) + s.cmdQ && (s'.server.Crashed? <==> s.server.Crashed?)
    requires s'.respQ == s.respQ && s'.sent == s.sent && s'.target == s.target
    requires s'.applied == s.applied && s'.consumed == s.consumed && s'.dropped == s.dropped
    ensures QueueInv(f, t0, s')
  {
  }

  lemma StepQueues<S>(f: Protocol<S>, t0: S, s: State<S>, e: Event)
    requires IdInv(f, s) && QueueInv(f, t0, s) && ServerInv(s)
    ensures QueueInv(f, t0, Step(f, s, e))
  {
    match e
    case Send(t) => SendQueues(f, t0, s, t);
    case Receive(t) => ReceiveQueues(f, t0, s, t);
    case Pop => PopQueues(f, t0, s);
    case Recheck => RecheckQueues(f, t0, s);
    case Work => if s.server.Working? { WorkQueues(f, t0, s); }
    case _ => QueueFrame(f, t0, s, Step(f, s, e));
  }

  lemma ReceiveQueues<S>(f: Protocol<S>, t0: S, s: State<S>, t: nat)
    requires QueueInv(f, t0, s)
    ensures QueueInv(f, t0, ReceiveStep(f, s, t))
  {
    var s' := ReceiveStep(f, s, t);
    if s' != s {
      assert s'.respQ == Replies(f, t0, s.sent, s.consumed + 1, s.applied);
    }
  }

  lemma SendWires<S>(f: Protocol<S>, held: seq<seq<byte>>, q: seq<seq<byte>>, sent: seq<Sent>, from: nat, x: Sent)
    requires from <= |sent| && held + q == Wires(f, sent[from..])
    ensures held + (q + [Wire(f, x.cmd)]) == Wires(f, (sent + [x])[from..])
  {
    assert (sent + [x])[from..] == sent[from..] + [x];
    WiresAppend(f, sent[from..], x);
  }

  lemma SendQueues<S>(f: Protocol<S>, t0: S, s: State<S>, t: nat)
    requires QueueInv(f, t0, s)
    ensures QueueInv(f, t0, SendStep(f, s, t))
  {
    var th := ThreadOf(s, t);
    if th.Ready? {
      if f.encode(th.cmd).Ok? {
        PushedQueues(f, t0, s, t, th.id, th.cmd);
      } else {
        QueueFrame(f, t0, s, SendStep(f, s, t));
      }
    }
  }

  lemma PushedQueues<S>(f: Protocol<S>, t0: S, s: State<S>, t: nat, id: nat, c: Command)
    requires QueueInv(f, t0, s)
    ensures QueueInv(f, t0, Pushed(s, t, id, c, Wire(f, c)))
  {
    var x := Sent(id, c);
    SendWires(f, Held(s.server), s.cmdQ, s.sent, s.applied + s.dropped, x);
    HistoryGrows(f, t0, s.sent, x, s.consumed, s.applied, Tried(s), s.respQ, s.target);
  }

  lemma HistoryGrows<S>(f: Protocol<S>, t0: S, sent: seq<Sent>, x: Sent, consumed: nat, applied: nat, tried: nat,
                        respQ: seq<seq<byte>>, target: S)
    requires HistoryInv(f, t0, sent, consumed, applied, tried, respQ, target)
    ensures HistoryInv(f, t0, sent + [x], consumed, applied, tried, respQ, target)
  {
    RepliesStable(f, t0, sent, x, consumed, applied);
    PrefixStable(f, t0, sent, x, tried);
  }

  lemma PopMoves(q: seq<seq<byte>>)
    requires q != []
    ensures [q[0]] + q[1..] == [] + q
  {
  }

  lemma PopQueues<S>(f: Protocol<S>, t0: S, s: State<S>)
    requires QueueInv(f, t0, s)
    ensures QueueInv(f, t0, PopStep(s))
  {
    if s.server.InRecv? && !s.stop && s.cmdQ != [] { PopMoves(s.cmdQ); }
    QueueFrame(f, t0, s, PopStep(s));
  }

  lemma HeldFirst<S>(f: Protocol<S>, t0: S, s: State<S>)
    requires QueueInv(f, t0, s) && Held(s.server) != []
    ensures var q := s.applied + s.dropped;
      q < |s.sent| && s.server.buf == Wire(f, s.sent[q].cmd) && s.cmdQ == Wires(f, s.sent[q + 1..])
  {
    var q := s.applied + s.dropped;
    assert |Held(s.server) + s.cmdQ| == |s.sent| - q;
    WiresHead(f, s.sent, q);
    var rest := Wires(f, s.sent[q + 1..]);
    assert (Held(s.server) + s.cmdQ)[0] == s.server.buf;
    assert (Held(s.server) + s.cmdQ)[1..] == s.cmdQ;
    assert ([Wire(f, s.sent[q].cmd)] + rest)[1..] == rest;
  }

  lemma NothingHeld(q: seq<seq<byte>>)
    ensures [] + q == q
  {
  }

  /** Dropping the held command moves it from the front of the sent commands in flight to the dropped ones. */
  lemma RecheckQueues<S>(f: Protocol<S>, t0: S, s: State<S>)
    requires QueueInv(f, t0, s) && ServerInv(s)
    ensures QueueInv(f, t0, RecheckStep(s))
  {
    if s.server.Rechecking? && s.stop && s.server.popped {
      HeldFirst(f, t0, s);
      NothingHeld(s.cmdQ);
    } else {
      QueueFrame(f, t0, s, RecheckStep(s));
    }
  }

  /** The worker works on the first command that is neither answered nor dropped. */
  lemma HeldCommand<S>(f: Protocol<S>, t0: S, s: State<S>)
    requires IdInv(f, s) && QueueInv(f, t0, s) && ServerInv(s) && s.server.Working?
    ensures s.applied < |s.sent| && s.dropped == 0 && f.encode(s.sent[s.applied].cmd) == Ok(s.server.buf)
    ensures s.cmdQ == Wires(f, s.sent[s.applied + 1..]) && s.target == StateAfter(f, t0, s.sent[..s.applied])
    ensures f.serve(s.target, s.server.buf).0 == StateAfter(f, t0, s.sent[..s.applied + 1])
    ensures f.serve(s.target, s.server.buf).1 == ServedAt(f, t0, s.sent, s.applied)
  {
    HeldFirst(f, t0, s);
    StateAfterSnoc(f, t0, s.sent, s.applied);
  }

  lemma WorkQueues<S>(f: Protocol<S>, t0: S, s: State<S>)
    requires IdInv(f, s) && QueueInv(f, t0, s) && ServerInv(s) && s.server.Working?
    ensures QueueInv(f, t0, WorkStep(f, s))
  {
    var (target, r) := f.serve(s.target, s.server.buf);
    HeldCommand(f, t0, s);
    match r
    case Ok(reply) => WorkedQueues(f, t0, s, target, reply);
    case Err(_) => CrashedQueues(f, t0, s, target);
  }

  lemma WorkedQueues<S>(f: Protocol<S>, t0: S, s: State<S>, target: S, reply: seq<byte>)
    requires QueueInv(f, t0, s) && s.applied < |s.sent| && s.dropped == 0
    requires s.cmdQ == Wires(f, s.sent[s.applied + 1..]) && target == StateAfter(f, t0, s.sent[..s.applied + 1])
    requires reply == ReplyAt(f, t0, s.sent, s.applied)
    ensures QueueInv(f, t0, Worked(s, target, reply))
  {
    RepliesAppend(f, t0, s.sent, s.consumed, s.applied);
    NothingHeld(s.cmdQ);
  }

  lemma CrashedQueues<S>(f: Protocol<S>, t0: S, s: State<S>, target: S)
    requires QueueInv(f, t0, s) && s.applied < |s.sent| && s.dropped == 0
    requires s.cmdQ == Wires(f, s.sent[s.applied + 1..]) && target == StateAfter(f, t0, s.sent[..s.applied + 1])
    ensures QueueInv(f, t0, Dropped(s, Crashed, target))
  {
    NothingHeld(s.cmdQ);
  }

  // ---------------------------------------------------------------- the worker, and the count of operations

  lemma StepServer<S>(f: Protocol<S>, s: State<S>, e: Event)
    requires ServerInv(s)
    ensures ServerInv(Step(f, s, e))
  {
  }

  lemma StepFit<S>(f: Protocol<S>, t0: S, s: State<S>, e: Event)
    requires IdInv(f, s) && QueueInv(f, t0, s) && ServerInv(s) && FitInv(f, t0, s)
    ensures FitInv(f, t0, Step(f, s, e))
  {
    match e
    case Send(t) => SendFit(f, t0, s, t);
    case Work => WorkFit(f, t0, s);
    case _ => FitFrame(f, t0, s, Step(f, s, e));
  }

  lemma WorkFit<S>(f: Protocol<S>, t0: S, s: State<S>)
    requires IdInv(f, s) && QueueInv(f, t0, s) && ServerInv(s) && FitInv(f, t0, s)
    ensures FitInv(f, t0, WorkStep(f, s))
  {
    if s.server.Working? {
      var (target, r) := f.serve(s.target, s.server.buf);
      HeldCommand(f, t0, s);
      match r
      case Ok(reply) => FitStep(f, t0, s, Worked(s, target, reply));
      case Err(_) => FitStep(f, t0, s, Dropped(s, Crashed, target));
    }
  }

  lemma FitStep<S>(f: Protocol<S>, t0: S, s: State<S>, s': State<S>)
    requires FitInv(f, t0, s) && s.applied < |s.sent| && s'.sent == s.sent
    requires if ServedAt(f, t0, s.sent, s.applied).Ok? then s'.applied == s.applied + 1 && !s'.server.Crashed?
             else s'.applied == s.applied
    ensures FitInv(f, t0, s')
  {
  }

  lemma FitFrame<S>(f: Protocol<S>, t0: S, s: State<S>, s': State<S>)
    requires FitInv(f, t0, s) && s'.sent == s.sent && s'.applied == s.applied
    requires s'.server.Crashed? ==> s.server.Crashed?
    ensures FitInv(f, t0, s')
  {
  }

  lemma SendFit<S>(f: Protocol<S>, t0: S, s: State<S>, t: nat)
    requires FitInv(f, t0, s)
    ensures FitInv(f, t0, SendStep(f, s, t))
  {
    var th := ThreadOf(s, t);
    if th.Ready? && f.encode(th.cmd).Ok? {
      var x := Sent(th.id, th.cmd);
      forall i | 0 <= i < |s.sent| ensures ServedAt(f, t0, s.sent + [x], i) == ServedAt(f, t0, s.sent, i) {
        PrefixStable(f, t0, s.sent, x, i);
      }
    }
  }

  lemma StepCount<S>(f: Protocol<S>, s: State<S>, e: Event)
    requires CountInv(s)
    ensures CountInv(Step(f, s, e))
  {
    match e
    case Call(t, c) =>
      assert WaitingThreads(CallStep(s, t, c)) == WaitingThreads(s);
    case Send(t) =>
      SendCount(f, s, t);
    case Receive(t) =>
      EndCount(s, t, ReceiveStep(f, s, t));
    case Timeout(t) =>
      EndCount(s, t, TimeoutStep(s, t));
    case _ =>
      assert WaitingThreads(Step(f, s, e)) == WaitingThreads(s);
  }

  lemma SendCount<S>(f: Protocol<S>, s: State<S>, t: nat)
    requires CountInv(s)
    ensures CountInv(SendStep(f, s, t))
  {
    var th, s', w := ThreadOf(s, t), SendStep(f, s, t), WaitingThreads(s);
    if th.Ready? && f.encode(th.cmd).Ok? {
      assert WaitingThreads(s') == w + {t} && t !in w;
    } else {
      assert WaitingThreads(s') == w;
    }
  }

  lemma EndCount<S>(s: State<S>, t: nat, s': State<S>)
    requires s' == s || (ThreadOf(s, t).Waiting? && s'.threads == s.threads[t := Idle])
    ensures |WaitingThreads(s')| == |WaitingThreads(s)| - if s' == s then 0 else 1
  {
    if s' != s {
      assert WaitingThreads(s') == WaitingThreads(s) - {t} && t in WaitingThreads(s);
    }
  }

  // ---------------------------------------------------------------- one more event

  lemma RunSnoc<S>(f: Protocol<S>, t0: S, es: seq<Event>, e: Event)
    ensures Run(f, t0, es + [e]) == Step(f, Run(f, t0, es), e)
  {
    assert (es + [e])[..|es|] == es;
  }

  /** Several more events. */
  function Steps<S>(f: Protocol<S>, s: State<S>, es: seq<Event>): State<S>
    decreases |es|
  {
    if es == [] then s else Steps(f, Step(f, s, es[0]), es[1..])
  }

  lemma {:induction false} RunConcat<S>(f: Protocol<S>, t0: S, es: seq<Event>, more: seq<Event>)
    ensures Run(f, t0, es + more) == Steps(f, Run(f, t0, es), more)
    decreases |more|
  {
    if more == [] {
      assert es + more == es;
    } else {
      assert es + more == (es + [more[0]]) + more[1..];
      RunSnoc(f, t0, es, more[0]);
      RunConcat(f, t0, es + [more[0]], more[1..]);
    }
  }

  lemma {:induction false} StepsConcat<S>(f: Protocol<S>, s: State<S>, a: seq<Event>, b: seq<Event>)
    ensures Steps(f, s, a + b) == Steps(f, Steps(f, s, a), b)
    decreases |a|
  {
    if a == [] {
      assert a + b == b;
    } else {
      assert (a + b)[1..] == a[1..] + b;
      StepsConcat(f, Step(f, s, a[0]), a[1..], b);
    }
  }
}
