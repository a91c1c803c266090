/** The client and server classes together: an exchange is the command on the target, and one run of the step system. */
module Exchanges {
  import opened Bytes
  import opened Messages
  import opened Limits
  import opened Service
  import opened System
  import opened Safety
  import opened ServerAdapter
  import opened Client
  import opened EndToEnd
  import Serdes

  // ---------------------------------------------------------------- from rest

  /** One round with the command in flight, for any protocol. */
  lemma SoleRound<S>(f: Serving<S>, w: World<S>, b: seq<byte>)
    requires AtRest(w)
    ensures var (target, r) := f(w.target, b);
            Round(f, Arrive(w, [b])) == World([], if r.Ok? then [r.value] else [], target, r.Ok?)
  {
    assert w.cmdQ + [b] == [b] && [b][1..] == [];
    if f(w.target, b).1.Ok? { assert w.respQ + [f(w.target, b).1.value] == [f(w.target, b).1.value]; }
  }

  lemma SoleRounds<S>(f: Serving<S>, w: World<S>, b: seq<byte>, turns: nat)
    requires AtRest(w) && turns >= 1
    ensures Rounds(f, Arrive(w, [b]), turns) == Round(f, Arrive(w, [b]))
  {
    SoleRound(f, w, b);
    IdleRounds(f, Round(f, Arrive(w, [b])), turns - 1);
  }

  lemma TakeOnly<S>(f: Protocol<S>, w: World<S>, reply: seq<byte>, c: Command)
    requires w.respQ == [reply]
    ensures Collected(f, w, c) == (w.(respQ := []), f.read(c, reply))
  {
    assert w.respQ[1..] == [];
  }

  /** From rest, for any protocol: the exchange is the operation alone, or kills the worker and times out. */
  lemma SoleExchange<S>(f: Protocol<S>, w: World<S>, c: Command, turns: nat)
    requires AtRest(w) && turns >= 1
    ensures Answers(f, w.target, c) ==>
              Exchange(f, w, c, turns) == (World([], [], NextOf(f, w.target, c), true), ResultOf(f, w.target, c))
    ensures !Answers(f, w.target, c) ==>
              Exchange(f, w, c, turns) == (World([], [], NextOf(f, w.target, c), false), Err(TransportTimeout))
  {
    match f.encode(c)
    case Err(_) =>
    case Ok(b) =>
      SoleRounds(f.serve, w, b, turns);
      SoleRound(f.serve, w, b);
      var w' := Round(f.serve, Arrive(w, [b]));
      if f.serve(w.target, b).1.Ok? { TakeOnly(f, w', f.serve(w.target, b).1.value, c); }
  }

  /** The server can answer a command exactly when it is refused before or its count fits the wire. */
  lemma AnswersExactly<S>(p: Setup<S>, s: S, c: Command)
    requires ValidCodec(p.cfg, p.max)
    ensures Answers(Rap(p), s, c) <==> CommandGuard(p.cfg, p.max, c) ==> CountFits(p.cfg, c)
  {
    RapEncodes(p, c);
    if CommandGuard(p.cfg, p.max, c) { RapServes(p, s, c); }
  }

  /** From rest, and with the worker given its turn, an exchange is the command run on the target itself: nothing is
      left behind, the target moves on, the result is the target's, cut to the wire. */
  lemma ExchangeIsDirect<S>(p: Setup<S>, w: World<S>, c: Command, turns: nat)
    requires ValidCodec(p.cfg, p.max) && AtRest(w) && turns >= 1
    requires CommandGuard(p.cfg, p.max, c) ==> CountFits(p.cfg, c)
    ensures Exchange(Rap(p), w, c, turns)
         == (World([], [], DirectNext(p, w.target, c), true), DirectResult(p, w.target, c))
  {
    AnswersExactly(p, w.target, c);
    AnsweredIsDirect(p, w.target, c);
    SoleExchange(Rap(p), w, c, turns);
  }

  /** And otherwise the worker dies, the target is untouched, and the client times out. */
  lemma ExchangeOverflow<S>(p: Setup<S>, w: World<S>, c: Command, turns: nat)
    requires ValidCodec(p.cfg, p.max) && AtRest(w) && turns >= 1
    requires CommandGuard(p.cfg, p.max, c) && !CountFits(p.cfg, c)
    ensures Exchange(Rap(p), w, c, turns) == (World([], [], w.target, false), Err(TransportTimeout))
  {
    AnswersExactly(p, w.target, c);
    SoleExchange(Rap(p), w, c, turns);
    RapEncodes(p, c);
    RapServes(p, w.target, c);
  }

  // ---------------------------------------------------------------- read results fill the caller's span

  lemma NarrowThenCut(cfg: Config, n: nat)
    requires cfg.Valid()
    ensures Cut(cfg, Count, Narrow(cfg, n)) == n % Pow256(cfg.lenBytes)
  {
    Serdes.NarrowLE(n, cfg.lenSize, cfg.lenBytes);
    FromLEOfLE(n, cfg.lenBytes);
    FromLEOfLE(Narrow(cfg, n), cfg.lenBytes);
  }

  lemma ModAtMost(n: nat, m: nat)
    requires m >= 1
    ensures n % m <= n && (n % m == n <==> n < m)
  {
    if n < m { ModUnique(n, m, 0, n); }
  }

  /** What a direct run returns has as many values as the command, as decoded, asks for. */
  lemma DirectCounts<S>(p: Setup<S>, s: S, c: Command, r: Result<seq<nat>>)
    requires ValidCodec(p.cfg, p.max) && r == DirectResult(p, s, c) && r.Ok?
    ensures |r.value| == ReadCount(Truncated(p.cfg, c))
  {
  }

  /** A sequential or fifo read into a span of `n` elements, from rest, when the target does not throw: it never
      overruns the span, and it fills it exactly when its length can be stated on the wire. */
  lemma SeqReadFills<S>(p: Setup<S>, w: World<S>, c: Command, n: nat, turns: nat, vs: seq<nat>)
    requires ValidCodec(p.cfg, p.max) && AtRest(w) && turns >= 1
    requires c.ReadSeq? && c.count == Narrow(p.cfg, n) && Exchange(Rap(p), w, c, turns).1 == Ok(vs)
    ensures |vs| == n % Pow256(p.cfg.lenBytes) <= n
    ensures |vs| == n <==> n < Pow256(p.cfg.lenBytes)
  {
    ExchangeIsDirect(p, w, c, turns);
    DirectCounts(p, w.target, c, Ok(vs));
    NarrowThenCut(p.cfg, n);
    ModAtMost(n, Pow256(p.cfg.lenBytes));
  }

  /** The cast wraps: a span of 256^sizeof(LengthType) elements is read as if it were empty. */
  lemma WrappedReadCopiesNothing<S>(p: Setup<S>, w: World<S>, c: Command, n: nat, turns: nat, vs: seq<nat>)
    requires ValidCodec(p.cfg, p.max) && AtRest(w) && turns >= 1
    requires n == Pow256(p.cfg.lenSize) && c.ReadSeq? && c.count == Narrow(p.cfg, n)
    requires Exchange(Rap(p), w, c, turns).1 == Ok(vs)
    ensures c.count == 0 && vs == []
  {
    ModUnique(n, Pow256(p.cfg.lenSize), 1, 0);
    SeqReadFills(p, w, c, n, turns, vs);
    NarrowThenCut(p.cfg, n);
    ModAtMost(0, Pow256(p.cfg.lenBytes));
  }

  /** Short of that the encoder may accept a read that is cut on the wire: with a 16-bit length type sent as one byte,
      over the default transport, a span of 400 elements receives 144 values. */
  lemma PartialRead<S>(p: Setup<S>, w: World<S>, addr: nat, turns: nat)
    requires p.cfg == Config(1, 1, 1, 1, 1, 2, 1, true, true, true, true, true) && p.max == 512
    requires AtRest(w) && turns >= 1
    ensures ValidCodec(p.cfg, p.max)
    ensures var r := Exchange(Rap(p), w, ReadSeq(0, addr, 1, Narrow(p.cfg, 400)), turns).1;
            r != Err(MessageSizeError) && (r.Ok? ==> |r.value| == 144)
  {
    var c := ReadSeq(0, addr, 1, Narrow(p.cfg, 400));
    FourHundredAccepted(p.cfg);
    ExchangeIsDirect(p, w, c, turns);
    var r := Exchange(Rap(p), w, c, turns).1;
    if r.Ok? {
      SeqReadFills(p, w, c, 400, turns, r.value);
      assert Pow256(1) == 256;
    }
  }

  lemma FourHundredAccepted(cfg: Config)
    requires cfg == Config(1, 1, 1, 1, 1, 2, 1, true, true, true, true, true)
    ensures ValidCodec(cfg, 512) && Narrow(cfg, 400) == 400 <= MaxSeqReadCount(cfg, 512)
  {
    SpanIsProduct(400, 1);
    assert Pow256(1) == 256 && Pow256(2) == 65536;
    assert Size(cfg, 0, 400, 1) == 404;
    SeqTight(cfg, 512, 400);
  }

  /** A compressed read whose count fits the wire fills its span. */
  lemma CompReadFills<S>(p: Setup<S>, w: World<S>, c: Command, turns: nat, vs: seq<nat>)
    requires ValidCodec(p.cfg, p.max) && AtRest(w) && turns >= 1 && c.ReadComp? && CountFits(p.cfg, c)
    requires Exchange(Rap(p), w, c, turns).1 == Ok(vs)
    ensures |vs| == |c.addresses|
  {
    ExchangeIsDirect(p, w, c, turns);
    DirectCounts(p, w.target, c, Ok(vs));
  }

  // ---------------------------------------------------------------- an exchange is a run of the step system

  function WorldOf<S>(s: State<S>): World<S> {
    World(s.cmdQ, s.respQ, s.target, !s.server.Crashed?)
  }

  /** The worker is between rounds, or dead, and no stop was requested. */
  ghost predicate BetweenRounds<S>(s: State<S>) {
    !s.stop && (s.server.AtGuard? || s.server.InRecv? || s.server.Crashed?)
  }

  /** What the worker cannot touch. */
  ghost predicate SameClient<S>(s: State<S>, s': State<S>) {
    s'.threads == s.threads && s'.log == s.log && s'.next == s.next
  }

  function RoundEvents(): seq<Event> {
    [Guard, Pop, Recheck] + [Work]
  }

  function RoundsEvents(n: nat): seq<Event> {
    if n == 0 then [] else RoundEvents() + RoundsEvents(n - 1)
  }

  lemma RoundIsSteps<S>(f: Protocol<S>, s: State<S>)
    requires BetweenRounds(s)
    ensures var s' := Steps(f, s, RoundEvents());
            WorldOf(s') == Round(f.serve, WorldOf(s)) && BetweenRounds(s') && SameClient(s, s')
  {
    if !s.server.Crashed? && s.cmdQ != [] {
      BusyRound(f, s);
    } else {
      WaitingRound(f, s);
    }
  }

  lemma WaitingRound<S>(f: Protocol<S>, s: State<S>)
    requires BetweenRounds(s) && (s.server.Crashed? || s.cmdQ == [])
    ensures Steps(f, s, RoundEvents()) == s.(server := if s.server.AtGuard? then InRecv else s.server)
  {
    StepsConcat(f, s, [Guard, Pop, Recheck], [Work]);
    Steps3(f, s, Guard, Pop, Recheck);
    Steps1(f, RecheckStep(PopStep(GuardStep(s))), Work, []);
    assert [Work] + [] == [Work];
  }

  lemma {:induction false} RoundsAreSteps<S>(f: Protocol<S>, s: State<S>, n: nat)
    requires BetweenRounds(s)
    ensures var s' := Steps(f, s, RoundsEvents(n));
            WorldOf(s') == Rounds(f.serve, WorldOf(s), n) && BetweenRounds(s') && SameClient(s, s')
    decreases n
  {
    if n > 0 {
      StepsConcat(f, s, RoundEvents(), RoundsEvents(n - 1));
      RoundIsSteps(f, s);
      RoundsAreSteps(f, Steps(f, s, RoundEvents()), n - 1);
    }
  }

  /** The events of one operation of thread 0; the trailing timeout fires only when there is nothing to receive. */
  function OperationEvents<S>(f: Protocol<S>, s: State<S>, c: Command, turns: nat): seq<Event> {
    var sent := [Call(0, c), Send(0)];
    if ThreadOf(Steps(f, s, sent), 0).Waiting? then sent + (RoundsEvents(turns) + [Receive(0), Timeout(0)]) else sent
  }

  /** The state after an operation by thread 0 that ended in `w` and `r`. */
  ghost predicate Ended<S>(s: State<S>, s': State<S>, c: Command, w: World<S>, r: Result<seq<nat>>) {
    && WorldOf(s') == w && BetweenRounds(s') && ThreadOf(s', 0).Idle?
    && s'.log == s.log + [Outcome(0, c, r)] && s'.next == s.next + 1
  }

  /** The classes take no step that the step system does not have: from any state in which the client is idle and the
      worker is between rounds, whatever is in the queues, DoCmdResp with the next id has the effect and the result of
      some steps. */
  lemma ExchangeIsRun<S>(f: Protocol<S>, t0: S, es: seq<Event>, c: Command, turns: nat)
    requires BetweenRounds(Run(f, t0, es)) && ThreadOf(Run(f, t0, es), 0).Idle? && c.txn == Run(f, t0, es).next % 256
    ensures var s := Run(f, t0, es);
            var (w, r) := Exchange(f, WorldOf(s), c, turns);
            Ended(s, Run(f, t0, es + OperationEvents(f, s, c, turns)), c, w, r)
  {
    var s := Run(f, t0, es);
    assert WithTxn(c, c.txn) == c;
    RunConcat(f, t0, es, OperationEvents(f, s, c, turns));
    ExchangeIsSteps(f, s, c, turns);
  }

  lemma ExchangeIsSteps<S>(f: Protocol<S>, s: State<S>, c: Command, turns: nat)
    requires BetweenRounds(s) && ThreadOf(s, 0).Idle?
    ensures var c' := WithTxn(c, s.next % 256);
            var (w, r) := Exchange(f, WorldOf(s), c', turns);
            Ended(s, Steps(f, s, OperationEvents(f, s, c, turns)), c', w, r)
  {
    var c' := WithTxn(c, s.next % 256);
    Steps2(f, s, Call(0, c), Send(0));
    match f.encode(c')
    case Err(_) =>
    case Ok(b) =>
      var s1 := CallStep(s, 0, c);
      assert ThreadOf(s1, 0) == Ready(s.next, c');
      var s2 := Pushed(s1, 0, s.next, c', b);
      assert Steps(f, s, [Call(0, c), Send(0)]) == s2;
      StepsConcat(f, s, [Call(0, c), Send(0)], RoundsEvents(turns) + [Receive(0), Timeout(0)]);
      AcceptedSteps(f, s, s2, c', turns);
  }

  lemma AcceptedSteps<S>(f: Protocol<S>, s: State<S>, s2: State<S>, c: Command, turns: nat)
    requires ThreadOf(s2, 0) == Waiting(s.next, c) && s2.log == s.log && s2.next == s.next + 1 && BetweenRounds(s2)
    ensures var (w, r) := Collected(f, Rounds(f.serve, WorldOf(s2), turns), c);
            Ended(s, Steps(f, s2, RoundsEvents(turns) + [Receive(0), Timeout(0)]), c, w, r)
  {
    StepsConcat(f, s2, RoundsEvents(turns), [Receive(0), Timeout(0)]);
    RoundsAreSteps(f, s2, turns);
    var s3 := Steps(f, s2, RoundsEvents(turns));
    Steps2(f, s3, Receive(0), Timeout(0));
  }

  // ---------------------------------------------------------------- a stopped loop is a run with a stop

  /** The stop falls before the guard, before the pop, or between the pop and the check after it; the events behind it
      are the worker's remaining looks. */
  function StopEvents(looks: nat): seq<Event> {
    if looks == 0 then [Stop, Guard, Pop] + [Recheck]
    else if looks == 1 then [Guard, Stop, Pop] + [Recheck]
    else [Guard, Pop, Stop] + [Recheck, Pop, Recheck]
  }

  lemma StopIsSteps<S>(f: Protocol<S>, s: State<S>, looks: nat)
    requires BetweenRounds(s) && looks < 3
    ensures var s' := Steps(f, s, StopEvents(looks));
      && WorldOf(s') == CutShort(WorldOf(s), looks) && s'.stop && (s'.server.Exited? || s'.server.Crashed?)
  {
    if looks == 0 {
      StepsConcat(f, s, [Stop, Guard, Pop], [Recheck]);
      Steps3(f, s, Stop, Guard, Pop);
      Steps1(f, Steps(f, s, [Stop, Guard, Pop]), Recheck, []);
    } else if looks == 1 {
      StepsConcat(f, s, [Guard, Stop, Pop], [Recheck]);
      Steps3(f, s, Guard, Stop, Pop);
      Steps1(f, Steps(f, s, [Guard, Stop, Pop]), Recheck, []);
    } else {
      StepsConcat(f, s, [Guard, Pop, Stop], [Recheck, Pop, Recheck]);
      Steps3(f, s, Guard, Pop, Stop);
      Steps3(f, Steps(f, s, [Guard, Pop, Stop]), Recheck, Pop, Recheck);
    }
    assert [Recheck] + [] == [Recheck];
  }

  /** BackgroundWork, too, takes only steps of the step system: what it leaves behind, when nothing arrives meanwhile, is
      what a run leaves that ends in a stop. */
  lemma StoppedIsRun<S>(f: Protocol<S>, t0: S, es: seq<Event>, n: nat, looks: nat)
    requires BetweenRounds(Run(f, t0, es)) && looks < 3
    ensures var (s, s') := (Run(f, t0, es), Run(f, t0, es + (RoundsEvents(n) + StopEvents(looks))));
      && WorldOf(s') == StoppedAfter(f.serve, WorldOf(s), NoArrivals(n), [], looks)
      && s'.stop && (s'.server.Exited? || s'.server.Crashed?)
  {
    var s := Run(f, t0, es);
    RunConcat(f, t0, es, RoundsEvents(n) + StopEvents(looks));
    StepsConcat(f, s, RoundsEvents(n), StopEvents(looks));
    RoundsAreSteps(f, s, n);
    StopIsSteps(f, Steps(f, s, RoundsEvents(n)), looks);
    ServedAlone(f.serve, WorldOf(s), n);
    NothingArrives(Served(f.serve, WorldOf(s), NoArrivals(n)));
  }
}
