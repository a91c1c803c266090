/** One client thread, no timeouts, no stop: codec, queues and server together are the target itself. */
module EndToEnd {
  import opened Bytes
  import opened Messages
  import opened Limits
  import opened RoundTrip
  import opened Service
  import opened System
  import opened Safety

  /** Events of an undisturbed run: everything but timeouts and stops, by thread 0 only. */
  ghost predicate Quiet(es: seq<Event>) {
    forall i :: 0 <= i < |es| ==> QuietEvent(es[i])
  }

  predicate QuietEvent(e: Event) {
    match e
    case Call(t, _) => t == 0
    case Send(t) => t == 0
    case Receive(t) => t == 0
    case Timeout(_) => false
    case Stop => false
    case _ => true
  }

  // ---------------------------------------------------------------- one operation after the other, for any protocol

  function NextOf<S>(f: Protocol<S>, s: S, c: Command): S {
    match f.encode(c)
    case Ok(b) => f.serve(s, b).0
    case Err(_) => s
  }

  function ResultOf<S>(f: Protocol<S>, s: S, c: Command): Result<seq<nat>> {
    match f.encode(c)
    case Err(e) => Err(e)
    case Ok(b) =>
      match f.serve(s, b).1
      case Ok(reply) => f.read(c, reply)
      case Err(e) => Err(e)
  }

  /** The command is refused, or the server can answer it. */
  predicate Answers<S>(f: Protocol<S>, s: S, c: Command) {
    f.encode(c).Ok? ==> f.serve(s, f.encode(c).value).1.Ok?
  }

  function StateOf<S>(f: Protocol<S>, t0: S, log: seq<Outcome>): S {
    if log == [] then t0 else NextOf(f, StateOf(f, t0, log[..|log| - 1]), log[|log| - 1].cmd)
  }

  /** Every finished operation could be answered, and returned what it does when nothing else is going on. */
  ghost predicate Sequential<S>(f: Protocol<S>, t0: S, log: seq<Outcome>) {
    forall i :: 0 <= i < |log| ==> SequentialAt(f, StateOf(f, t0, log[..i]), log[i])
  }

  ghost predicate SequentialAt<S>(f: Protocol<S>, s: S, o: Outcome) {
    Answers(f, s, o.cmd) && o.result == ResultOf(f, s, o.cmd)
  }

  lemma SequentialAppend<S>(f: Protocol<S>, t0: S, log: seq<Outcome>, o: Outcome)
    requires Sequential(f, t0, log) && SequentialAt(f, StateOf(f, t0, log), o)
    ensures Sequential(f, t0, log + [o])
    ensures StateOf(f, t0, log + [o]) == NextOf(f, StateOf(f, t0, log), o.cmd)
  {
    var l := log + [o];
    assert l[..|log|] == log;
    forall i | 0 <= i < |l| ensures SequentialAt(f, StateOf(f, t0, l[..i]), l[i]) {
      if i < |log| { assert l[..i] == log[..i]; }
    }
  }

  ghost predicate Solo<S>(f: Protocol<S>, t0: S, s: State<S>) {
    && !s.stop && s.consumed <= |s.sent|
    && (ThreadOf(s, 0).Waiting? ==>
          |s.sent| == s.consumed + 1 && s.sent[s.consumed] == Sent(ThreadOf(s, 0).id, ThreadOf(s, 0).cmd))
    && (!ThreadOf(s, 0).Waiting? ==> |s.sent| == s.consumed)
    && StateOf(f, t0, s.log) == StateAfter(f, t0, s.sent[..s.consumed])
    && Sequential(f, t0, s.log)
  }

  lemma SoloSend<S>(f: Protocol<S>, t0: S, s: State<S>)
    requires Solo(f, t0, s) && ThreadOf(s, 0).Ready?
    ensures Solo(f, t0, SendStep(f, s, 0))
  {
    var th := ThreadOf(s, 0);
    match f.encode(th.cmd)
    case Ok(b) =>
      assert (s.sent + [Sent(th.id, th.cmd)])[..s.consumed] == s.sent[..s.consumed];
    case Err(e) =>
      SequentialAppend(f, t0, s.log, Outcome(0, th.cmd, Err(e)));
  }

  /** The only reply that can be waiting is the one to the operation's own command. */
  lemma OwnReply<S>(f: Protocol<S>, t0: S, s: State<S>)
    requires Solo(f, t0, s) && Inv(f, t0, s) && ThreadOf(s, 0).Waiting? && s.respQ != []
    ensures var (th, state) := (ThreadOf(s, 0), StateOf(f, t0, s.log));
      && SequentialAt(f, state, Outcome(0, th.cmd, f.read(th.cmd, s.respQ[0])))
      && NextOf(f, state, th.cmd) == StateAfter(f, t0, s.sent[..s.consumed + 1])
  {
    OldestReply(f, t0, s);
    StateAfterSnoc(f, t0, s.sent, s.consumed);
    assert ServedAt(f, t0, s.sent, s.consumed).Ok?;
  }

  lemma SoloReceive<S>(f: Protocol<S>, t0: S, s: State<S>)
    requires Solo(f, t0, s) && Inv(f, t0, s) && ThreadOf(s, 0).Waiting? && s.respQ != []
    ensures Solo(f, t0, ReceiveStep(f, s, 0))
  {
    var c := ThreadOf(s, 0).cmd;
    OwnReply(f, t0, s);
    SequentialAppend(f, t0, s.log, Outcome(0, c, f.read(c, s.respQ[0])));
  }

  lemma SoloFrame<S>(f: Protocol<S>, t0: S, s: State<S>, s': State<S>)
    requires Solo(f, t0, s)
    requires !s'.stop && s'.sent == s.sent && s'.consumed == s.consumed && s'.log == s.log
    requires ThreadOf(s', 0) == ThreadOf(s, 0) || (!ThreadOf(s', 0).Waiting? && !ThreadOf(s, 0).Waiting?)
    ensures Solo(f, t0, s')
  {
  }

  lemma SoloStep<S>(f: Protocol<S>, t0: S, s: State<S>, e: Event)
    requires Inv(f, t0, s) && Solo(f, t0, s) && QuietEvent(e)
    ensures Solo(f, t0, Step(f, s, e))
  {
    if e.Send? && ThreadOf(s, 0).Ready? {
      SoloSend(f, t0, s);
    } else if e.Receive? && ThreadOf(s, 0).Waiting? && s.respQ != [] {
      SoloReceive(f, t0, s);
    } else {
      QuietStep(f, s, e);
      SoloFrame(f, t0, s, Step(f, s, e));
    }
  }

  /** What no step but a send or a receive touches. */
  lemma QuietStep<S>(f: Protocol<S>, s: State<S>, e: Event)
    requires QuietEvent(e) && !s.stop && !(e.Send? && ThreadOf(s, 0).Ready?)
    requires !(e.Receive? && ThreadOf(s, 0).Waiting? && s.respQ != [])
    ensures var s' := Step(f, s, e);
      && !s'.stop && s'.sent == s.sent && s'.consumed == s.consumed && s'.log == s.log
      && (ThreadOf(s', 0) == ThreadOf(s, 0) || (!ThreadOf(s', 0).Waiting? && !ThreadOf(s, 0).Waiting?))
  {
  }

  lemma {:induction false} SoloRun<S>(f: Protocol<S>, t0: S, es: seq<Event>)
    requires Quiet(es)
    ensures Inv(f, t0, Run(f, t0, es)) && Solo(f, t0, Run(f, t0, es))
    decreases |es|
  {
    RunInv(f, t0, es);
    if es != [] {
      var init, e := es[..|es| - 1], es[|es| - 1];
      SoloRun(f, t0, init);
      assert QuietEvent(e);
      SoloStep(f, t0, Run(f, t0, init), e);
      assert Run(f, t0, es) == Step(f, Run(f, t0, init), e);
    }
  }

  /** Nothing is in flight, and the target is where the finished operations leave it. */
  ghost predicate Settled<S>(f: Protocol<S>, t0: S, s: State<S>) {
    && s.cmdQ == [] && s.respQ == [] && Held(s.server) == [] && !s.server.Crashed?
    && s.target == StateOf(f, t0, s.log)
  }

  lemma NotWaitingSettled<S>(f: Protocol<S>, t0: S, s: State<S>)
    requires Inv(f, t0, s) && Solo(f, t0, s) && !ThreadOf(s, 0).Waiting?
    ensures Settled(f, t0, s)
  {
    InFlight(f, t0, s);
  }

  // ---------------------------------------------------------------- the reference: commands on the target, no wire

  /** The target after a sequence of operations; one that the encoder refuses never reaches it. */
  function DirectState<S>(p: Setup<S>, t0: S, ops: seq<Outcome>): S
    requires ValidCodec(p.cfg, p.max)
  {
    if ops == [] then t0 else DirectNext(p, DirectState(p, t0, ops[..|ops| - 1]), ops[|ops| - 1].cmd)
  }

  function DirectNext<S>(p: Setup<S>, s: S, c: Command): S
    requires ValidCodec(p.cfg, p.max)
  {
    if CommandGuard(p.cfg, p.max, c) then Direct(p.exec, s, Truncated(p.cfg, c)).0 else s
  }

  /** The result of one operation run directly, as wide as the wire. */
  function DirectResult<S>(p: Setup<S>, s: S, c: Command): Result<seq<nat>>
    requires ValidCodec(p.cfg, p.max)
  {
    if CommandGuard(p.cfg, p.max, c) then CutResult(p.cfg, Direct(p.exec, s, Truncated(p.cfg, c)).1)
    else Err(MessageSizeError)
  }

  /** Every finished operation returned what the target, run directly, returns. */
  ghost predicate Faithful<S>(p: Setup<S>, t0: S, log: seq<Outcome>)
    requires ValidCodec(p.cfg, p.max)
  {
    forall i :: 0 <= i < |log| ==> log[i].result == DirectResult(p, DirectState(p, t0, log[..i]), log[i].cmd)
  }

  /** An operation that the server can answer is the operation on the target. */
  lemma AnsweredIsDirect<S>(p: Setup<S>, s: S, c: Command)
    requires ValidCodec(p.cfg, p.max) && Answers(Rap(p), s, c)
    ensures NextOf(Rap(p), s, c) == DirectNext(p, s, c) && ResultOf(Rap(p), s, c) == DirectResult(p, s, c)
  {
    RapEncodes(p, c);
    if CommandGuard(p.cfg, p.max, c) {
      RapServes(p, s, c);
      ReceivedOwn(p, s, c);
      RapReads(p, c, ResponseWire(p.cfg, Reply(p, s, c)));
    }
  }

  lemma {:induction false} SequentialIsFaithful<S>(p: Setup<S>, t0: S, log: seq<Outcome>)
    requires ValidCodec(p.cfg, p.max) && Sequential(Rap(p), t0, log)
    ensures StateOf(Rap(p), t0, log) == DirectState(p, t0, log) && Faithful(p, t0, log)
    decreases |log|
  {
    if log != [] {
      var n := |log| - 1;
      var init := log[..n];
      forall i | 0 <= i < n ensures SequentialAt(Rap(p), StateOf(Rap(p), t0, init[..i]), init[i]) {
        assert init[..i] == log[..i] && init[i] == log[i];
      }
      SequentialIsFaithful(p, t0, init);
      assert SequentialAt(Rap(p), StateOf(Rap(p), t0, log[..n]), log[n]);
      AnsweredIsDirect(p, StateOf(Rap(p), t0, init), log[n].cmd);
      FaithfulLast(p, t0, log);
    }
  }

  lemma FaithfulLast<S>(p: Setup<S>, t0: S, log: seq<Outcome>)
    requires ValidCodec(p.cfg, p.max) && log != [] && Faithful(p, t0, log[..|log| - 1])
    requires var n := |log| - 1; log[n].result == DirectResult(p, DirectState(p, t0, log[..n]), log[n].cmd)
    ensures Faithful(p, t0, log)
  {
    var init := log[..|log| - 1];
    forall i | 0 <= i < |log| ensures log[i].result == DirectResult(p, DirectState(p, t0, log[..i]), log[i].cmd) {
      if i < |init| { assert init[..i] == log[..i] && init[i] == log[i]; }
    }
  }

  /** End to end: whatever the interleaving of client and server steps, every finished operation returned what it
      returns on the target itself, and between operations nothing is in flight, the worker lives, and the target is in
      the state that the operations leave it in. */
  lemma Refinement<S>(p: Setup<S>, t0: S, es: seq<Event>)
    requires ValidCodec(p.cfg, p.max) && Quiet(es)
    ensures var s := Run(Rap(p), t0, es);
      && Faithful(p, t0, s.log)
      && (!ThreadOf(s, 0).Waiting? ==>
            s.target == DirectState(p, t0, s.log) && s.cmdQ == [] && s.respQ == [] && !s.server.Crashed?)
  {
    var s := Run(Rap(p), t0, es);
    SoloRun(Rap(p), t0, es);
    SequentialIsFaithful(p, t0, s.log);
    if !ThreadOf(s, 0).Waiting? { NotWaitingSettled(Rap(p), t0, s); }
  }

  /** So a client alone never sees a protocol error, an unexpected type, a decode error or a foreign status. */
  lemma OnlyDirectOutcomes<S>(p: Setup<S>, t0: S, es: seq<Event>, i: nat)
    requires ValidCodec(p.cfg, p.max) && Quiet(es) && i < |Run(Rap(p), t0, es).log|
    ensures var r := Run(Rap(p), t0, es).log[i].result;
      r.Ok? || r == Err(OperationNak(0xFD)) || r == Err(MessageSizeError)
  {
    Refinement(p, t0, es);
  }

  lemma {:induction false} CutAllIdentity(cfg: Config, vs: seq<nat>)
    requires forall i :: 0 <= i < |vs| ==> vs[i] < Pow256(cfg.dataBytes)
    ensures CutAll(cfg, Data, vs) == vs
  {
    if vs != [] {
      CutAllIdentity(cfg, vs[1..]);
      CutIsInRange(cfg, Data, vs[0]);
      assert vs == [vs[0]] + vs[1..];
    }
  }

  /** For values that fit the wire in both directions there is no difference at all. */
  lemma InRangeExact<S>(p: Setup<S>, s: S, c: Command)
    requires ValidCodec(p.cfg, p.max) && CommandGuard(p.cfg, p.max, c) && InRange(p.cfg, CommandFields(c))
    requires var r := Direct(p.exec, s, c).1;
             r.Ok? ==> forall i :: 0 <= i < |r.value| ==> r.value[i] < Pow256(p.cfg.dataBytes)
    ensures (DirectNext(p, s, c), DirectResult(p, s, c)) == Direct(p.exec, s, c)
  {
    InRangeCommandUnchanged(p.cfg, c);
    var r := Direct(p.exec, s, c).1;
    if r.Ok? { CutAllIdentity(p.cfg, r.value); }
  }

  // ---------------------------------------------------------------- which operations the log holds

  /** The commands that the calls of a run created, each with the id it was given. */
  function Issued<S>(f: Protocol<S>, t0: S, es: seq<Event>): seq<Command> {
    if es == [] then [] else
      var init, e := es[..|es| - 1], es[|es| - 1];
      Issued(f, t0, init) + IssuedBy(Run(f, t0, init), e)
  }

  function IssuedBy<S>(s: State<S>, e: Event): seq<Command> {
    if e.Call? && ThreadOf(s, e.t).Idle? then [WithTxn(e.c, s.next % 256)] else []
  }

  /** The commands of the calls of a run as their callers wrote them; a call by a thread that is busy is none. */
  function Called<S>(f: Protocol<S>, t0: S, es: seq<Event>): seq<Command> {
    if es == [] then [] else
      var init, e := es[..|es| - 1], es[|es| - 1];
      Called(f, t0, init) + if e.Call? && ThreadOf(Run(f, t0, init), e.t).Idle? then [e.c] else []
  }

  lemma {:induction false} IssuedAsCalled<S>(f: Protocol<S>, t0: S, es: seq<Event>)
    requires Quiet(es)
    ensures |Issued(f, t0, es)| == |Called(f, t0, es)| == Run(f, t0, es).next
    ensures forall i :: 0 <= i < |Called(f, t0, es)| ==> Issued(f, t0, es)[i] == WithTxn(Called(f, t0, es)[i], i % 256)
    decreases |es|
  {
    if es != [] {
      var init, e := es[..|es| - 1], es[|es| - 1];
      IssuedAsCalled(f, t0, init);
      assert QuietEvent(e);
      OperationsStep(f, Run(f, t0, init), e);
      assert Run(f, t0, es) == Step(f, Run(f, t0, init), e);
    }
  }

  function CommandsOf(log: seq<Outcome>): (cs: seq<Command>)
    ensures |cs| == |log|
  {
    if log == [] then [] else CommandsOf(log[..|log| - 1]) + [log[|log| - 1].cmd]
  }

  function Pending(th: Thread): seq<Command> {
    if th.Idle? then [] else [th.cmd]
  }

  /** The operations of thread 0, finished and pending. */
  function Operations<S>(s: State<S>): seq<Command> {
    CommandsOf(s.log) + Pending(ThreadOf(s, 0))
  }

  lemma CommandsAppend(log: seq<Outcome>, o: Outcome)
    ensures CommandsOf(log + [o]) == CommandsOf(log) + [o.cmd]
  {
    assert (log + [o])[..|log|] == log;
  }

  /** Ending an operation moves it from pending to finished. */
  lemma OperationsEnd<S>(s: State<S>, s': State<S>, o: Outcome)
    requires !ThreadOf(s, 0).Idle? && ThreadOf(s, 0).cmd == o.cmd && ThreadOf(s', 0).Idle? && s'.log == s.log + [o]
    ensures Operations(s') == Operations(s)
  {
    CommandsAppend(s.log, o);
    assert CommandsOf(s'.log) + [] == CommandsOf(s'.log);
  }

  lemma OperationsSend<S>(f: Protocol<S>, s: State<S>)
    ensures Operations(SendStep(f, s, 0)) == Operations(s) && SendStep(f, s, 0).next == s.next
  {
    var th := ThreadOf(s, 0);
    if th.Ready? && f.encode(th.cmd).Err? {
      OperationsEnd(s, SendStep(f, s, 0), Outcome(0, th.cmd, Err(f.encode(th.cmd).error)));
    }
  }

  lemma OperationsReceive<S>(f: Protocol<S>, s: State<S>)
    ensures Operations(ReceiveStep(f, s, 0)) == Operations(s) && ReceiveStep(f, s, 0).next == s.next
  {
    var th := ThreadOf(s, 0);
    if th.Waiting? && s.respQ != [] {
      OperationsEnd(s, ReceiveStep(f, s, 0), Outcome(0, th.cmd, f.read(th.cmd, s.respQ[0])));
    }
  }

  lemma OperationsCall<S>(s: State<S>, c: Command)
    ensures Operations(CallStep(s, 0, c)) == Operations(s) + IssuedBy(s, Call(0, c))
    ensures CallStep(s, 0, c).next == s.next + |IssuedBy(s, Call(0, c))|
  {
    assert Operations(s) + [] == Operations(s);
    assert CommandsOf(s.log) + [] == CommandsOf(s.log);
  }

  lemma OperationsStep<S>(f: Protocol<S>, s: State<S>, e: Event)
    requires QuietEvent(e)
    ensures Operations(Step(f, s, e)) == Operations(s) + IssuedBy(s, e)
    ensures Step(f, s, e).next == s.next + |IssuedBy(s, e)|
  {
    assert Operations(s) + [] == Operations(s);
    match e
    case Call(t, c) => OperationsCall(s, c);
    case Send(t) => OperationsSend(f, s);
    case Receive(t) => OperationsReceive(f, s);
    case _ =>
  }

  lemma {:induction false} OperationsAreIssued<S>(f: Protocol<S>, t0: S, es: seq<Event>)
    requires Quiet(es)
    ensures Operations(Run(f, t0, es)) == Issued(f, t0, es)
    decreases |es|
  {
    if es != [] {
      var init, e := es[..|es| - 1], es[|es| - 1];
      OperationsAreIssued(f, t0, init);
      assert QuietEvent(e);
      OperationsStep(f, Run(f, t0, init), e);
      assert Run(f, t0, es) == Step(f, Run(f, t0, init), e);
    }
  }

  lemma {:induction false} CommandsAt(log: seq<Outcome>, i: nat)
    requires i < |log|
    ensures CommandsOf(log)[i] == log[i].cmd
    decreases |log|
  {
    if i < |log| - 1 { CommandsAt(log[..|log| - 1], i); }
  }

  /** The log of a quiet run holds exactly the calls of the run, in order; the last one may be pending. Each went out as
      its caller wrote it, with the number of the call modulo 256 for its id. */
  lemma LogIsCalls<S>(f: Protocol<S>, t0: S, es: seq<Event>)
    requires Quiet(es)
    ensures var (s, th, cs) := (Run(f, t0, es), ThreadOf(Run(f, t0, es), 0), Called(f, t0, es));
      && |cs| == s.next == |s.log| + (if th.Idle? then 0 else 1)
      && (forall i :: 0 <= i < |s.log| ==>
            && s.log[i].cmd.txn == i % 256
            && OpOf(s.log[i].cmd) == OpOf(cs[i]) && CommandType(s.log[i].cmd) == CommandType(cs[i]))
      && (!th.Idle? ==>
            && th.cmd.txn == |s.log| % 256
            && OpOf(th.cmd) == OpOf(cs[|s.log|]) && CommandType(th.cmd) == CommandType(cs[|s.log|]))
  {
    var (s, cs) := (Run(f, t0, es), Called(f, t0, es));
    OperationsAreIssued(f, t0, es);
    IssuedAsCalled(f, t0, es);
    forall i | 0 <= i < |s.log|
      ensures && s.log[i].cmd.txn == i % 256
              && OpOf(s.log[i].cmd) == OpOf(cs[i]) && CommandType(s.log[i].cmd) == CommandType(cs[i])
    {
      CommandsAt(s.log, i);
      assert Operations(s)[i] == s.log[i].cmd;
      WithTxnKeeps(cs[i], i % 256);
    }
    if !ThreadOf(s, 0).Idle? {
      assert Operations(s)[|s.log|] == ThreadOf(s, 0).cmd;
      WithTxnKeeps(cs[|s.log|], |s.log| % 256);
    }
  }

  // ---------------------------------------------------------------- deadlock freedom

  /** Some continuation of the run, without timeouts or a stop, ends the pending operation. */
  ghost predicate CanFinish<S(!new)>(f: Protocol<S>, t0: S, es: seq<Event>) {
    exists more :: Quiet(more) && !ThreadOf(Run(f, t0, es + more), 0).Waiting?
  }

  function Finishing(): (es: seq<Event>)
    ensures Quiet(es)
  {
    ([Guard, Pop, Recheck] + [Work]) + [Receive(0)]
  }

  /** One round of the worker, wherever it stands, answers the pending command. */
  lemma RoundAnswers<S>(f: Protocol<S>, t0: S, s: State<S>)
    requires Inv(f, t0, s) && Solo(f, t0, s) && ThreadOf(s, 0).Waiting? && ServedAt(f, t0, s.sent, s.consumed).Ok?
    ensures var s' := Steps(f, s, [Guard, Pop, Recheck] + [Work]);
      s'.respQ != [] && s'.threads == s.threads && s'.log == s.log && s'.next == s.next
  {
    InFlight(f, t0, s);
    if s.respQ != [] {
      IdleRound(f, s);
    } else if s.cmdQ != [] {
      BusyRound(f, s);
      AnswersHeld(f, t0, s, s.(server := Working(s.cmdQ[0]), cmdQ := s.cmdQ[1..]));
    } else {
      HeldRound(f, s);
      AnswersHeld(f, t0, s, s.(server := Working(s.server.buf)));
    }
  }

  lemma IdleRound<S>(f: Protocol<S>, s: State<S>)
    requires !s.stop && s.cmdQ == [] && Held(s.server) == [] && (s.server.Rechecking? ==> s.server.popped)
    ensures var s' := Steps(f, s, [Guard, Pop, Recheck] + [Work]);
            s' == s.(server := if s.server.AtGuard? then InRecv else s.server)
  {
    StepsConcat(f, s, [Guard, Pop, Recheck], [Work]);
    Steps3(f, s, Guard, Pop, Recheck);
    Steps1(f, RecheckStep(PopStep(GuardStep(s))), Work, []);
    assert [Work] + [] == [Work];
  }

  lemma HeldRound<S>(f: Protocol<S>, s: State<S>)
    requires !s.stop && Held(s.server) != []
    ensures Steps(f, s, [Guard, Pop, Recheck] + [Work]) == WorkStep(f, s.(server := Working(s.server.buf)))
  {
    StepsConcat(f, s, [Guard, Pop, Recheck], [Work]);
    Steps3(f, s, Guard, Pop, Recheck);
    Steps1(f, RecheckStep(PopStep(GuardStep(s))), Work, []);
    assert [Work] + [] == [Work];
  }

  lemma AnswersHeld<S>(f: Protocol<S>, t0: S, s: State<S>, working: State<S>)
    requires QueueInv(f, t0, s) && ServerInv(s) && IdInv(f, s)
    requires s.consumed == s.applied < |s.sent| && s.dropped == 0 && ServedAt(f, t0, s.sent, s.consumed).Ok?
    requires working == s.(server := working.server, cmdQ := working.cmdQ) && working.server.Working?
    requires Held(working.server) + working.cmdQ == Held(s.server) + s.cmdQ && !s.server.Crashed?
    ensures WorkStep(f, working).respQ != [] && WorkStep(f, working).threads == s.threads
    ensures WorkStep(f, working).log == s.log && WorkStep(f, working).next == s.next
  {
    QueueFrame(f, t0, s, working);
    HeldCommand(f, t0, working);
  }

  /** From every quiet state with an operation pending, the operation can still be finished exactly when its command
      can be served; then one round of the worker and one receive do it. */
  lemma FinishesExactly<S(!new)>(f: Protocol<S>, t0: S, es: seq<Event>)
    requires Quiet(es) && ThreadOf(Run(f, t0, es), 0).Waiting?
    ensures var s := Run(f, t0, es);
      && s.consumed < |s.sent| && s.sent[s.consumed].cmd == ThreadOf(s, 0).cmd
      && (CanFinish(f, t0, es) <==> ServedAt(f, t0, s.sent, s.consumed).Ok?)
  {
    var s := Run(f, t0, es);
    SoloRun(f, t0, es);
    if ServedAt(f, t0, s.sent, s.consumed).Ok? {
      FinishingEnds(f, t0, es);
    } else {
      forall more | Quiet(more) ensures ThreadOf(Run(f, t0, es + more), 0).Waiting? {
        StaysWaiting(f, t0, es, more);
      }
    }
  }

  lemma FinishingEnds<S>(f: Protocol<S>, t0: S, es: seq<Event>)
    requires Quiet(es) && ThreadOf(Run(f, t0, es), 0).Waiting?
    requires Solo(f, t0, Run(f, t0, es)) && ServedAt(f, t0, Run(f, t0, es).sent, Run(f, t0, es).consumed).Ok?
    ensures var (s, s') := (Run(f, t0, es), Run(f, t0, es + Finishing()));
      ThreadOf(s', 0).Idle? && |s'.log| == |s.log| + 1 && s'.log[..|s.log|] == s.log && s'.next == s.next
  {
    var s := Run(f, t0, es);
    RunInv(f, t0, es);
    RunConcat(f, t0, es, Finishing());
    StepsConcat(f, s, [Guard, Pop, Recheck] + [Work], [Receive(0)]);
    RoundAnswers(f, t0, s);
    var answered := Steps(f, s, [Guard, Pop, Recheck] + [Work]);
    Steps1(f, answered, Receive(0), []);
    assert [Receive(0)] + [] == [Receive(0)];
  }

  lemma {:induction false} StaysWaiting<S>(f: Protocol<S>, t0: S, es: seq<Event>, more: seq<Event>)
    requires Quiet(es) && Quiet(more) && ThreadOf(Run(f, t0, es), 0).Waiting?
    requires Run(f, t0, es).consumed < |Run(f, t0, es).sent|
    requires ServedAt(f, t0, Run(f, t0, es).sent, Run(f, t0, es).consumed).Err?
    ensures var (s, s') := (Run(f, t0, es), Run(f, t0, es + more));
      ThreadOf(s', 0) == ThreadOf(s, 0) && s'.sent == s.sent && s'.consumed == s.consumed
    decreases |more|
  {
    if more == [] {
      assert es + more == es;
    } else {
      var init, e := more[..|more| - 1], more[|more| - 1];
      StaysWaiting(f, t0, es, init);
      assert QuietEvent(e);
      assert es + more == es + init + [e];
      RunSnoc(f, t0, es + init, e);
      RunInv(f, t0, es + init);
      NothingToTake(f, t0, Run(f, t0, es + init));
      StuckStep(f, Run(f, t0, es + init), e);
    }
  }

  lemma StuckStep<S>(f: Protocol<S>, s: State<S>, e: Event)
    requires QuietEvent(e) && ThreadOf(s, 0).Waiting? && s.respQ == []
    ensures var s' := Step(f, s, e);
      ThreadOf(s', 0) == ThreadOf(s, 0) && s'.sent == s.sent && s'.consumed == s.consumed
  {
  }

  lemma NothingToTake<S>(f: Protocol<S>, t0: S, s: State<S>)
    requires QueueInv(f, t0, s) && FitInv(f, t0, s)
    requires s.consumed < |s.sent| && ServedAt(f, t0, s.sent, s.consumed).Err?
    ensures s.respQ == []
  {
    if s.respQ != [] {
      OldestReply(f, t0, s);
      assert false;
    }
  }

  /** For the protocol itself: an accepted operation can be finished exactly when its count fits the wire. */
  lemma PendingFinishesExactly<S(!new)>(p: Setup<S>, t0: S, es: seq<Event>)
    requires ValidCodec(p.cfg, p.max) && Quiet(es) && ThreadOf(Run(Rap(p), t0, es), 0).Waiting?
    ensures CanFinish(Rap(p), t0, es) <==> CountFits(p.cfg, ThreadOf(Run(Rap(p), t0, es), 0).cmd)
  {
    FinishesExactly(Rap(p), t0, es);
    PendingServed(p, t0, es);
  }

  lemma PendingServed<S>(p: Setup<S>, t0: S, es: seq<Event>)
    requires ValidCodec(p.cfg, p.max) && Quiet(es) && ThreadOf(Run(Rap(p), t0, es), 0).Waiting?
    ensures var s := Run(Rap(p), t0, es);
      && s.consumed < |s.sent| && Solo(Rap(p), t0, s)
      && (ServedAt(Rap(p), t0, s.sent, s.consumed).Ok? <==> CountFits(p.cfg, ThreadOf(s, 0).cmd))
  {
    var s := Run(Rap(p), t0, es);
    SoloRun(Rap(p), t0, es);
    RapServes(p, StateAfter(Rap(p), t0, s.sent[..s.consumed]), s.sent[s.consumed].cmd);
  }

  // ---------------------------------------------------------------- every sequence of operations completes

  /** Every command in `cs` is refused, or has a count that fits the wire. */
  ghost predicate Sendable<S>(p: Setup<S>, cs: seq<Command>)
    requires ValidCodec(p.cfg, p.max)
  {
    forall i :: 0 <= i < |cs| ==> CommandGuard(p.cfg, p.max, cs[i]) ==> CountFits(p.cfg, cs[i])
  }

  /** All of `cs` were called, in order and each with its id, and are finished. */
  ghost predicate AllFinished<S>(s: State<S>, cs: seq<Command>) {
    && ThreadOf(s, 0).Idle? && s.next == |s.log| == |cs|
    && forall i :: 0 <= i < |cs| ==> s.log[i].cmd == WithTxn(cs[i], i % 256)
  }

  lemma FinishedAppend<S>(s: State<S>, s': State<S>, cs: seq<Command>)
    requires cs != [] && AllFinished(s, cs[..|cs| - 1]) && ThreadOf(s', 0).Idle? && s'.next == s.next + 1
    requires |s'.log| == |s.log| + 1 && s'.log[..|s.log|] == s.log
    requires s'.log[|s.log|].cmd == WithTxn(cs[|cs| - 1], s.next % 256)
    ensures AllFinished(s', cs)
  {
    forall i | 0 <= i < |cs| ensures s'.log[i].cmd == WithTxn(cs[i], i % 256) {
      if i < |cs| - 1 {
        assert s'.log[i] == s'.log[..|s.log|][i];
        assert cs[i] == cs[..|cs| - 1][i];
      }
    }
  }

  lemma {:induction false} Schedule<S>(p: Setup<S>, t0: S, cs: seq<Command>) returns (es: seq<Event>)
    requires ValidCodec(p.cfg, p.max) && Sendable(p, cs)
    ensures Quiet(es) && AllFinished(Run(Rap(p), t0, es), cs)
    decreases |cs|
  {
    if cs == [] {
      es := [];
    } else {
      var n := |cs| - 1;
      var before := Schedule(p, t0, cs[..n]);
      assert CommandGuard(p.cfg, p.max, cs[n]) ==> CountFits(p.cfg, cs[n]);
      es := OperationCompletes(p, t0, before, cs[n]);
      FinishedAppend(Run(Rap(p), t0, before), Run(Rap(p), t0, es), cs);
    }
  }

  /** Progress: every sequence of operations has an undisturbed run that finishes all of them, in order, each as its
      caller wrote it and with its number modulo 256 for its id. */
  lemma ScheduleCompletes<S>(p: Setup<S>, t0: S, cs: seq<Command>) returns (es: seq<Event>)
    requires ValidCodec(p.cfg, p.max) && Sendable(p, cs)
    ensures Quiet(es)
    ensures var s := Run(Rap(p), t0, es);
      && ThreadOf(s, 0).Idle? && s.next == |s.log| == |cs|
      && forall i :: 0 <= i < |cs| ==>
           && s.log[i].cmd.txn == i % 256
           && OpOf(s.log[i].cmd) == OpOf(cs[i]) && CommandType(s.log[i].cmd) == CommandType(cs[i])
  {
    es := Schedule(p, t0, cs);
    var s := Run(Rap(p), t0, es);
    forall i | 0 <= i < |cs|
      ensures && s.log[i].cmd.txn == i % 256
              && OpOf(s.log[i].cmd) == OpOf(cs[i]) && CommandType(s.log[i].cmd) == CommandType(cs[i])
    {
      WithTxnKeeps(cs[i], i % 256);
    }
  }

  lemma CallSend<S>(f: Protocol<S>, t0: S, es: seq<Event>, c: Command)
    requires ThreadOf(Run(f, t0, es), 0).Idle?
    ensures var (s, s') := (Run(f, t0, es), Run(f, t0, es + [Call(0, c), Send(0)]));
      var c' := WithTxn(c, s.next % 256);
      && s'.next == s.next + 1
      && (f.encode(c').Ok? ==> ThreadOf(s', 0) == Waiting(s.next, c') && s'.log == s.log)
      && (f.encode(c').Err? ==> ThreadOf(s', 0).Idle? && s'.log == s.log + [Outcome(0, c', Err(f.encode(c').error))])
  {
    RunConcat(f, t0, es, [Call(0, c), Send(0)]);
    Steps2(f, Run(f, t0, es), Call(0, c), Send(0));
  }

  lemma OperationCompletes<S>(p: Setup<S>, t0: S, before: seq<Event>, c: Command) returns (es: seq<Event>)
    requires ValidCodec(p.cfg, p.max) && Quiet(before) && ThreadOf(Run(Rap(p), t0, before), 0).Idle?
    requires CommandGuard(p.cfg, p.max, c) ==> CountFits(p.cfg, c)
    ensures Quiet(es)
    ensures var (s, s') := (Run(Rap(p), t0, before), Run(Rap(p), t0, es));
      && ThreadOf(s', 0).Idle? && s'.next == s.next + 1 && |s'.log| == |s.log| + 1 && s'.log[..|s.log|] == s.log
      && s'.log[|s.log|].cmd == WithTxn(c, s.next % 256)
  {
    var s := Run(Rap(p), t0, before);
    es := before + [Call(0, c), Send(0)];
    CallSend(Rap(p), t0, before, c);
    RapEncodes(p, WithTxn(c, s.next % 256));
    if CommandGuard(p.cfg, p.max, c) {
      var sent := es;
      PendingServed(p, t0, sent);
      FinishingEnds(Rap(p), t0, sent);
      es := sent + Finishing();
      LastCommand(Rap(p), t0, sent, es);
    }
  }

  /** The operation that ends is the one that was pending. */
  lemma LastCommand<S>(f: Protocol<S>, t0: S, sent: seq<Event>, es: seq<Event>)
    requires es == sent + Finishing() && ThreadOf(Run(f, t0, sent), 0).Waiting?
    requires var (s, s') := (Run(f, t0, sent), Run(f, t0, es));
      ThreadOf(s', 0).Idle? && |s'.log| == |s.log| + 1 && s'.log[..|s.log|] == s.log
    ensures Run(f, t0, es).log[|Run(f, t0, sent).log|].cmd == ThreadOf(Run(f, t0, sent), 0).cmd
  {
    RunConcat(f, t0, sent, Finishing());
    OperationsSteps(f, Run(f, t0, sent), Finishing());
    LastOperation(Run(f, t0, sent), Run(f, t0, es));
  }

  lemma LastOperation<S>(s: State<S>, s': State<S>)
    requires ThreadOf(s, 0).Waiting? && ThreadOf(s', 0).Idle? && Operations(s') == Operations(s)
    requires |s'.log| == |s.log| + 1 && s'.log[..|s.log|] == s.log
    ensures s'.log[|s.log|].cmd == ThreadOf(s, 0).cmd
  {
    var o := s'.log[|s.log|];
    assert s'.log == s.log + [o];
    CommandsAppend(s.log, o);
    SameLast(CommandsOf(s.log), o.cmd, ThreadOf(s, 0).cmd);
  }

  lemma SameLast(cs: seq<Command>, x: Command, y: Command)
    ensures (cs + [x]) + [] == cs + [y] ==> x == y
  {
    assert ((cs + [x]) + [])[|cs|] == x && (cs + [y])[|cs|] == y;
  }

  lemma {:induction false} OperationsSteps<S>(f: Protocol<S>, s: State<S>, es: seq<Event>)
    requires Quiet(es) && (forall i :: 0 <= i < |es| ==> !es[i].Call?)
    ensures Operations(Steps(f, s, es)) == Operations(s)
    decreases |es|
  {
    if es != [] {
      assert QuietEvent(es[0]) && !es[0].Call?;
      OperationsStep(f, s, es[0]);
      OperationsSteps(f, Step(f, s, es[0]), es[1..]);
    }
  }
}
