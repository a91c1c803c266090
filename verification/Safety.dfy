/** What holds in every run: who may accept which answer, that nothing is lost or repeated, and how it stops. */
module Safety {
  import opened Bytes
  import opened Messages
  import opened Limits
  import opened Service
  import opened System

  // ---------------------------------------------------------------- the history in terms of the target alone

  /** The target after running the sent commands on it directly, as wide as the wire, with nothing in between. */
  function TargetAfter<S>(p: Setup<S>, t0: S, sent: seq<Sent>): S {
    if sent == [] then t0
    else Direct(p.exec, TargetAfter(p, t0, sent[..|sent| - 1]), Truncated(p.cfg, sent[|sent| - 1].cmd)).0
  }

  /** What the sent commands mean, as far as all of their counts fit the wire. */
  lemma {:induction false} FittingHistory<S>(p: Setup<S>, t0: S, sent: seq<Sent>)
    requires ValidCodec(p.cfg, p.max)
    requires forall i :: 0 <= i < |sent| ==> Rap(p).encode(sent[i].cmd).Ok? && CountFits(p.cfg, sent[i].cmd)
    ensures StateAfter(Rap(p), t0, sent) == TargetAfter(p, t0, sent)
    decreases |sent|
  {
    if sent != [] {
      var init, c := sent[..|sent| - 1], sent[|sent| - 1].cmd;
      FittingHistory(p, t0, init);
      RapServes(p, TargetAfter(p, t0, init), c);
    }
  }

  lemma FitsAt<S>(p: Setup<S>, t0: S, s: State<S>, i: nat)
    requires ValidCodec(p.cfg, p.max) && IdInv(Rap(p), s) && FitInv(Rap(p), t0, s) && i < s.applied
    ensures CommandGuard(p.cfg, p.max, s.sent[i].cmd) && CountFits(p.cfg, s.sent[i].cmd)
  {
    RapServes(p, StateAfter(Rap(p), t0, s.sent[..i]), s.sent[i].cmd);
    assert ServedAt(Rap(p), t0, s.sent, i).Ok?;
  }

  /** Every applied command had a count that fits the wire, and the history is the target's own. */
  lemma AppliedFit<S>(p: Setup<S>, t0: S, s: State<S>, k: nat)
    requires ValidCodec(p.cfg, p.max) && IdInv(Rap(p), s) && FitInv(Rap(p), t0, s) && k <= s.applied
    ensures StateAfter(Rap(p), t0, s.sent[..k]) == TargetAfter(p, t0, s.sent[..k])
  {
    var sent := s.sent[..k];
    forall i | 0 <= i < |sent| ensures Rap(p).encode(sent[i].cmd).Ok? && CountFits(p.cfg, sent[i].cmd) {
      FitsAt(p, t0, s, i);
      assert sent[i] == s.sent[i];
    }
    FittingHistory(p, t0, sent);
  }

  /** The bytes of the reply that the `k`-th sent command deserves. */
  function DueReply<S>(p: Setup<S>, t0: S, sent: seq<Sent>, k: nat): seq<byte>
    requires ValidCodec(p.cfg, p.max) && k < |sent|
  {
    ResponseWire(p.cfg, Reply(p, TargetAfter(p, t0, sent[..k]), sent[k].cmd))
  }

  /** The reply to the `k`-th sent command, once it is applied. */
  lemma AppliedReply<S>(p: Setup<S>, t0: S, s: State<S>, k: nat)
    requires ValidCodec(p.cfg, p.max) && IdInv(Rap(p), s) && FitInv(Rap(p), t0, s) && k < s.applied
    ensures CommandGuard(p.cfg, p.max, s.sent[k].cmd) && CountFits(p.cfg, s.sent[k].cmd)
    ensures ReplyAt(Rap(p), t0, s.sent, k) == DueReply(p, t0, s.sent, k)
  {
    FitsAt(p, t0, s, k);
    AppliedFit(p, t0, s, k);
    RapServes(p, TargetAfter(p, t0, s.sent[..k]), s.sent[k].cmd);
  }

  // ---------------------------------------------------------------- acceptance

  /** The unconsumed ids and the receiver's own id all lie among the last 256 ids handed out. */
  ghost predicate Window<S>(s: State<S>, own: nat) {
    && s.next - own <= 256
    && forall i :: s.consumed <= i < |s.sent| ==> s.next - s.sent[i].id <= 256
  }

  lemma WaitingSent<S>(f: Protocol<S>, s: State<S>, t: nat) returns (own: nat)
    requires IdInv(f, s) && ThreadOf(s, t).Waiting?
    ensures own < |s.sent| && s.sent[own] == Sent(ThreadOf(s, t).id, ThreadOf(s, t).cmd)
    ensures ThreadOf(s, t).id < s.next && ThreadOf(s, t).cmd.txn == ThreadOf(s, t).id % 256
  {
    var th := ThreadOf(s, t);
    assert Sent(th.id, th.cmd) in s.sent;
    own :| 0 <= own < |s.sent| && s.sent[own] == Sent(th.id, th.cmd);
  }

  lemma OldestReply<S>(f: Protocol<S>, t0: S, s: State<S>)
    requires QueueInv(f, t0, s) && s.respQ != []
    ensures s.consumed < s.applied <= |s.sent| && s.respQ[0] == ReplyAt(f, t0, s.sent, s.consumed)
  {
  }

  /** In every run, a thread that takes a response takes the reply to the oldest unconsumed command. It sees a protocol
      error exactly when that command's id differs from its own modulo 256; otherwise it takes the reply for its own,
      whoever sent the command: as that command's result when the kinds agree, as an unexpected type when not. */
  lemma AcceptanceExact<S>(p: Setup<S>, t0: S, es: seq<Event>, t: nat)
    requires ValidCodec(p.cfg, p.max)
    requires ThreadOf(Run(Rap(p), t0, es), t).Waiting? && Run(Rap(p), t0, es).respQ != []
    ensures var (s, th) := (Run(Rap(p), t0, es), ThreadOf(Run(Rap(p), t0, es), t));
      && s.consumed < |s.sent| && th.id < s.next
      && Received(p.cfg, th.cmd, s.respQ[0])
         == Reading(p, TargetAfter(p, t0, s.sent[..s.consumed]), th.cmd, s.sent[s.consumed].cmd)
      && (th.cmd.txn == s.sent[s.consumed].cmd.txn <==> s.sent[s.consumed].id % 256 == th.id % 256)
      && (s.sent[s.consumed].id == th.id ==> s.sent[s.consumed].cmd == th.cmd)
  {
    RunInv(Rap(p), t0, es);
    AcceptedIn(p, t0, Run(Rap(p), t0, es), t);
  }

  lemma AcceptedIn<S>(p: Setup<S>, t0: S, s: State<S>, t: nat)
    requires ValidCodec(p.cfg, p.max) && Inv(Rap(p), t0, s) && ThreadOf(s, t).Waiting? && s.respQ != []
    ensures var th := ThreadOf(s, t);
      && s.consumed < |s.sent| && th.id < s.next
      && Received(p.cfg, th.cmd, s.respQ[0])
         == Reading(p, TargetAfter(p, t0, s.sent[..s.consumed]), th.cmd, s.sent[s.consumed].cmd)
      && (th.cmd.txn == s.sent[s.consumed].cmd.txn <==> s.sent[s.consumed].id % 256 == th.id % 256)
      && (s.sent[s.consumed].id == th.id ==> s.sent[s.consumed].cmd == th.cmd)
  {
    var own := WaitingSent(Rap(p), s, t);
    OldestReply(Rap(p), t0, s);
    AppliedReply(p, t0, s, s.consumed);
    ReceivedAny(p, TargetAfter(p, t0, s.sent[..s.consumed]), ThreadOf(s, t).cmd, s.sent[s.consumed].cmd);
  }

  lemma SameResidue(a: nat, b: nat, next: nat)
    requires a < next && b < next && next - a <= 256 && next - b <= 256
    ensures a % 256 == b % 256 <==> a == b
  {
  }

  /** While the live ids span at most 256, no thread accepts anything but the answer to the command it just sent,
      whichever threads share the client and however many receives have timed out. */
  lemma NoForeignAnswer<S>(p: Setup<S>, t0: S, es: seq<Event>, t: nat)
    requires ValidCodec(p.cfg, p.max)
    requires ThreadOf(Run(Rap(p), t0, es), t).Waiting? && Run(Rap(p), t0, es).respQ != []
    requires Window(Run(Rap(p), t0, es), ThreadOf(Run(Rap(p), t0, es), t).id)
    ensures var (s, th) := (Run(Rap(p), t0, es), ThreadOf(Run(Rap(p), t0, es), t));
      && s.consumed < |s.sent|
      && Received(p.cfg, th.cmd, s.respQ[0])
         == if s.sent[s.consumed].id != th.id then Err(ProtocolError)
            else CutResult(p.cfg, Direct(p.exec, TargetAfter(p, t0, s.sent[..s.consumed]), Truncated(p.cfg, th.cmd)).1)
  {
    var s, th := Run(Rap(p), t0, es), ThreadOf(Run(Rap(p), t0, es), t);
    RunInv(Rap(p), t0, es);
    AcceptanceExact(p, t0, es, t);
    SameResidue(s.sent[s.consumed].id, th.id, s.next);
  }

  // ---------------------------------------------------------------- the bound is tight

  /** No id makes the encoder refuse `c`. */
  ghost predicate Encodable<S>(f: Protocol<S>, c: Command) {
    forall txn: byte :: f.encode(WithTxn(c, txn)).Ok?
  }

  function StalledCalls(c: Command, n: nat): seq<Event> {
    if n == 0 then [] else StalledCalls(c, n - 1) + [Call(0, c), Send(0), Timeout(0)]
  }

  /** `n` sends of `c` that all timed out before the server woke up. */
  ghost predicate Stalled<S>(s: State<S>, c: Command, n: nat) {
    && s.next == n == |s.sent| && (forall i :: 0 <= i < n ==> s.sent[i] == Sent(i, WithTxn(c, i % 256)))
    && s.server.AtGuard? && !s.stop && s.respQ == [] && ThreadOf(s, 0).Idle?
    && s.consumed == 0 && s.applied == 0 && |s.cmdQ| == n
  }

  lemma {:induction false} StalledRun<S>(f: Protocol<S>, t0: S, c: Command, n: nat)
    requires Encodable(f, c)
    ensures Stalled(Run(f, t0, StalledCalls(c, n)), c, n)
  {
    if n > 0 {
      StalledRun(f, t0, c, n - 1);
      RunConcat(f, t0, StalledCalls(c, n - 1), [Call(0, c), Send(0), Timeout(0)]);
      OneStall(f, Run(f, t0, StalledCalls(c, n - 1)), c, n - 1);
    }
  }

  lemma Steps1<S>(f: Protocol<S>, s: State<S>, a: Event, rest: seq<Event>)
    ensures Steps(f, s, [a] + rest) == Steps(f, Step(f, s, a), rest)
  {
    assert ([a] + rest)[1..] == rest;
  }

  lemma Steps2<S>(f: Protocol<S>, s: State<S>, a: Event, b: Event)
    ensures Steps(f, s, [a, b]) == Step(f, Step(f, s, a), b)
  {
    assert [a, b] == [a] + ([b] + []);
    Steps1(f, s, a, [b] + []);
    Steps1(f, Step(f, s, a), b, []);
  }

  lemma Steps3<S>(f: Protocol<S>, s: State<S>, a: Event, b: Event, c: Event)
    ensures Steps(f, s, [a, b, c]) == Step(f, Step(f, Step(f, s, a), b), c)
  {
    assert [a, b, c] == [a] + [b, c];
    Steps1(f, s, a, [b, c]);
    Steps2(f, Step(f, s, a), b, c);
  }

  lemma OneStall<S>(f: Protocol<S>, s: State<S>, c: Command, n: nat)
    requires Stalled(s, c, n) && Encodable(f, c)
    ensures Stalled(Steps(f, s, [Call(0, c), Send(0), Timeout(0)]), c, n + 1)
  {
    Steps3(f, s, Call(0, c), Send(0), Timeout(0));
    var c' := WithTxn(c, n % 256);
    var s1 := CallStep(s, 0, c);
    assert ThreadOf(s1, 0) == Ready(n, c') && f.encode(c').Ok?;
    var s2 := Pushed(s1, 0, n, c', f.encode(c').value);
    assert SendStep(f, s1, 0) == s2;
  }

  /** One round of a worker that has something to do and no stop in sight. */
  lemma BusyRound<S>(f: Protocol<S>, s: State<S>)
    requires (s.server.AtGuard? || s.server.InRecv?) && !s.stop && s.cmdQ != []
    ensures Steps(f, s, [Guard, Pop, Recheck] + [Work])
         == WorkStep(f, s.(server := Working(s.cmdQ[0]), cmdQ := s.cmdQ[1..]))
  {
    StepsConcat(f, s, [Guard, Pop, Recheck], [Work]);
    Steps3(f, s, Guard, Pop, Recheck);
    var s1 := GuardStep(s);
    assert s1 == s.(server := InRecv);
    var s2 := PopStep(s1);
    assert s2 == s.(server := Rechecking(s.cmdQ[0], true), cmdQ := s.cmdQ[1..]);
    var s3 := RecheckStep(s2);
    assert [Work][1..] == [];
  }

  /** The server wakes up and answers the first of `n` stalled sends. */
  lemma FirstStalledReply<S>(f: Protocol<S>, t0: S, c: Command, n: nat) returns (es: seq<Event>)
    requires Encodable(f, c) && n >= 1 && f.serve(t0, f.encode(WithTxn(c, 0)).value).1.Ok?
    ensures var s := Run(f, t0, es);
      && s.next == |s.sent| == n && s.sent[0] == Sent(0, WithTxn(c, 0)) && s.consumed == 0 && |s.respQ| == 1
      && ThreadOf(s, 0).Idle?
  {
    var stalled := StalledCalls(c, n);
    es := stalled + ([Guard, Pop, Recheck] + [Work]);
    StalledRun(f, t0, c, n);
    RunInv(f, t0, stalled);
    RunConcat(f, t0, stalled, [Guard, Pop, Recheck] + [Work]);
    FirstReply(f, t0, Run(f, t0, stalled), c, n);
  }

  lemma FirstReply<S>(f: Protocol<S>, t0: S, s: State<S>, c: Command, n: nat)
    requires Stalled(s, c, n) && QueueInv(f, t0, s) && ServerInv(s) && Encodable(f, c) && n >= 1
    requires f.serve(t0, f.encode(WithTxn(c, 0)).value).1.Ok?
    ensures var s' := Steps(f, s, [Guard, Pop, Recheck] + [Work]);
      && s'.next == s.next && s'.sent == s.sent && s'.consumed == 0 && |s'.respQ| == 1 && s'.threads == s.threads
  {
    BusyRound(f, s);
    assert s.sent[0] == Sent(0, WithTxn(c, 0));
    WiresHead(f, s.sent, 0);
    assert s.sent[0..] == s.sent && Held(s.server) + s.cmdQ == s.cmdQ;
    assert s.sent[..0] == [];
  }

  /** With one id more the safety is lost. After 256 sends of `c` that timed out, the server answers the first of them,
      and the next operation, `c'`, accepts that answer as its own result when `c'` is of the same kind. */
  lemma WindowTight<S>(p: Setup<S>, t0: S, c: Command, c': Command) returns (es: seq<Event>)
    requires ValidCodec(p.cfg, p.max) && CommandGuard(p.cfg, p.max, c) && CommandGuard(p.cfg, p.max, c')
    requires CountFits(p.cfg, c)
    ensures var (s, th) := (Run(Rap(p), t0, es), ThreadOf(Run(Rap(p), t0, es), 0));
      && th.Waiting? && s.respQ != [] && s.consumed < |s.sent|
      && th.id == 256 && th.cmd.txn == 0 && OpOf(th.cmd) == OpOf(c') && CommandType(th.cmd) == CommandType(c')
      && s.next - s.sent[s.consumed].id == 257 && s.sent[s.consumed].cmd.txn == 0
      && OpOf(s.sent[s.consumed].cmd) == OpOf(c) && CommandType(s.sent[s.consumed].cmd) == CommandType(c)
      && Received(p.cfg, th.cmd, s.respQ[0])
         == if SameKind(c, c') then CutResult(p.cfg, Direct(p.exec, t0, Truncated(p.cfg, c)).1)
            else Err(UnexpectedMessageType)
  {
    GuardIgnoresTxn(p, c);
    GuardIgnoresTxn(p, c');
    RapServes(p, t0, WithTxn(c, 0));
    var replied := FirstStalledReply(Rap(p), t0, c, 256);
    es := replied + [Call(0, c'), Send(0)];
    RunConcat(Rap(p), t0, replied, [Call(0, c'), Send(0)]);
    LastCall(Rap(p), Run(Rap(p), t0, replied), c');
    AcceptanceExact(p, t0, es, 0);
    assert Run(Rap(p), t0, es).sent[..0] == [];
    WithTxnKeeps(c, 0);
    WithTxnKeeps(c', 0);
    DirectIgnoresTxn(p, t0, c, 0);
  }

  lemma DirectIgnoresTxn<S>(p: Setup<S>, s: S, c: Command, txn: byte)
    ensures Direct(p.exec, s, Truncated(p.cfg, WithTxn(c, txn))) == Direct(p.exec, s, Truncated(p.cfg, c))
  {
  }

  lemma GuardIgnoresTxn<S>(p: Setup<S>, c: Command)
    requires ValidCodec(p.cfg, p.max) && CommandGuard(p.cfg, p.max, c)
    ensures Encodable(Rap(p), c)
  {
    forall txn: byte ensures Rap(p).encode(WithTxn(c, txn)).Ok? {
      RapEncodes(p, WithTxn(c, txn));
      assert CommandGuard(p.cfg, p.max, WithTxn(c, txn));
    }
  }

  lemma LastCall<S>(f: Protocol<S>, s: State<S>, c': Command)
    requires Encodable(f, c') && ThreadOf(s, 0).Idle? && s.next == 256
    ensures var s' := Steps(f, s, [Call(0, c'), Send(0)]);
      && ThreadOf(s', 0) == Waiting(256, WithTxn(c', 0)) && s'.respQ == s.respQ && s'.consumed == s.consumed
      && s'.next == 257 && |s'.sent| == |s.sent| + 1 && s'.sent[..|s.sent|] == s.sent
  {
    Steps2(f, s, Call(0, c'), Send(0));
    assert f.encode(WithTxn(c', 0)).Ok?;
  }

  // ---------------------------------------------------------------- exactly once, in order

  /** Conservation, for every run: each sent command is queued, held, answered and waiting, consumed, or dropped;
      each send is still waiting, or ended in a receive or in a timeout; the target is the fold of the applied prefix;
      the responses queued are, in order, those to the applied commands not yet consumed. */
  lemma ExactlyOnceInOrder<S>(p: Setup<S>, t0: S, es: seq<Event>)
    requires ValidCodec(p.cfg, p.max)
    ensures var s := Run(Rap(p), t0, es);
      && s.consumed <= s.applied <= |s.sent| && s.applied == |s.respQ| + s.consumed
      && |s.sent| == |s.cmdQ| + |Held(s.server)| + |s.respQ| + s.consumed + s.dropped
      && |s.sent| == |WaitingThreads(s)| + s.consumed + s.timeouts
      && s.target == TargetAfter(p, t0, s.sent[..s.applied])
      && (forall i :: 0 <= i < |s.respQ| ==> s.respQ[i] == DueReply(p, t0, s.sent, s.consumed + i))
  {
    var s := Run(Rap(p), t0, es);
    RunInv(Rap(p), t0, es);
    InFlight(Rap(p), t0, s);
    TargetIs(p, t0, s);
    ResponsesInOrder(p, t0, s);
  }

  lemma InFlight<S>(f: Protocol<S>, t0: S, s: State<S>)
    requires QueueInv(f, t0, s)
    ensures |s.sent| == |s.cmdQ| + |Held(s.server)| + s.applied + s.dropped && s.applied == |s.respQ| + s.consumed
  {
    assert |Held(s.server) + s.cmdQ| == |s.sent| - s.applied - s.dropped;
  }

  lemma ResponsesInOrder<S>(p: Setup<S>, t0: S, s: State<S>)
    requires ValidCodec(p.cfg, p.max) && Inv(Rap(p), t0, s) && s.consumed + |s.respQ| <= |s.sent|
    ensures forall i :: 0 <= i < |s.respQ| ==> s.respQ[i] == DueReply(p, t0, s.sent, s.consumed + i)
  {
    forall i | 0 <= i < |s.respQ| ensures s.respQ[i] == DueReply(p, t0, s.sent, s.consumed + i) {
      ResponseAt(p, t0, s, i);
    }
  }

  lemma ResponseAt<S>(p: Setup<S>, t0: S, s: State<S>, i: nat)
    requires ValidCodec(p.cfg, p.max) && Inv(Rap(p), t0, s) && i < |s.respQ|
    ensures s.consumed + i < |s.sent| && s.respQ[i] == DueReply(p, t0, s.sent, s.consumed + i)
  {
    ReplyQueued(Rap(p), t0, s, i);
    AppliedReply(p, t0, s, s.consumed + i);
  }

  lemma ReplyQueued<S>(f: Protocol<S>, t0: S, s: State<S>, i: nat)
    requires QueueInv(f, t0, s) && i < |s.respQ|
    ensures s.consumed + i < s.applied <= |s.sent| && s.respQ[i] == ReplyAt(f, t0, s.sent, s.consumed + i)
  {
    ReplyIndex(f, t0, s.sent, s.consumed, s.applied, i);
  }

  lemma {:induction false} ReplyIndex<S>(f: Protocol<S>, t0: S, sent: seq<Sent>, from: nat, to: nat, i: nat)
    requires from <= to <= |sent| && i < to - from
    ensures Replies(f, t0, sent, from, to)[i] == ReplyAt(f, t0, sent, from + i)
    decreases i
  {
    if i > 0 { ReplyIndex(f, t0, sent, from + 1, to, i - 1); }
  }

  /** A command that kills the worker leaves the target as it was. */
  lemma TargetIs<S>(p: Setup<S>, t0: S, s: State<S>)
    requires ValidCodec(p.cfg, p.max) && Inv(Rap(p), t0, s)
    ensures s.target == TargetAfter(p, t0, s.sent[..s.applied])
  {
    AppliedFit(p, t0, s, s.applied);
    if s.server.Crashed? {
      StateAfterSnoc(Rap(p), t0, s.sent, s.applied);
      RapServes(p, StateAfter(Rap(p), t0, s.sent[..s.applied]), s.sent[s.applied].cmd);
    }
  }

  // ---------------------------------------------------------------- shutdown

  ghost function Committed<S>(s: State<S>): nat {
    s.applied + if s.server.Working? then 1 else 0
  }

  /** After a stop request nothing leaves the command queue, at most the command already being worked on is still
      applied, and over the whole run at most one command is dropped. */
  lemma {:induction false} AfterStop<S>(f: Protocol<S>, t0: S, before: seq<Event>, after: seq<Event>)
    ensures var (s, s') := (Run(f, t0, before + [Stop]), Run(f, t0, before + [Stop] + after));
      && s'.stop && s.cmdQ <= s'.cmdQ && Committed(s') <= Committed(s)
      && s'.dropped <= 1 && (s'.dropped == 1 ==> s'.server.Exited? || s'.server.Crashed?)
      && s'.applied == |s'.respQ| + s'.consumed
    decreases |after|
  {
    var base := before + [Stop];
    RunInv(f, t0, base + after);
    if after == [] {
      assert base + after == base;
      RunSnoc(f, t0, before, Stop);
    } else {
      var init, e := after[..|after| - 1], after[|after| - 1];
      AfterStop(f, t0, before, init);
      assert base + after == base + init + [e];
      RunSnoc(f, t0, base + init, e);
      StoppedStep(f, Run(f, t0, base + init), e);
    }
  }

  lemma StoppedStep<S>(f: Protocol<S>, s: State<S>, e: Event)
    requires s.stop
    ensures var s' := Step(f, s, e); s'.stop && s.cmdQ <= s'.cmdQ && Committed(s') <= Committed(s)
  {
  }

  /** The worker does stop: from any state with the stop requested, five steps of its own end it. */
  lemma WorkerEnds<S>(f: Protocol<S>, s: State<S>)
    requires s.stop
    ensures var s' := Steps(f, s, [Guard, Pop, Recheck] + [Work, Guard]); s'.server.Exited? || s'.server.Crashed?
  {
    StepsConcat(f, s, [Guard, Pop, Recheck], [Work, Guard]);
    Steps3(f, s, Guard, Pop, Recheck);
    Steps2(f, RecheckStep(PopStep(GuardStep(s))), Work, Guard);
  }

  // ---------------------------------------------------------------- when the worker can die

  ghost predicate ValidSetup<S>(p: Setup<S>) {
    ValidCodec(p.cfg, p.max) && CountsFit(p.cfg, p.max)
  }

  /** No codec exception ever escapes the worker loop. */
  lemma NeverCrashes<S>(p: Setup<S>, t0: S, es: seq<Event>)
    requires ValidSetup(p)
    ensures !Run(Rap(p), t0, es).server.Crashed?
  {
    var s := Run(Rap(p), t0, es);
    RunInv(Rap(p), t0, es);
    if s.server.Crashed? {
      var c := s.sent[s.applied].cmd;
      RapServes(p, StateAfter(Rap(p), t0, s.sent[..s.applied]), c);
      GuardedFits(p.cfg, p.max, c);
      assert false;
    }
  }

  function Zeroes(n: nat): (r: seq<nat>)
    ensures |r| == n
  {
    seq(n, _ => 0)
  }

  /** A command that the encoder accepts although its count does not fit the wire. */
  lemma OverflowCommand(cfg: Config, max: nat) returns (c: Command)
    requires ValidCodec(cfg, max) && !CountsFit(cfg, max)
    ensures CommandGuard(cfg, max, c) && !CountFits(cfg, c)
  {
    if MaxSeqWriteCount(cfg, max) >= Pow256(cfg.lenBytes) {
      c := WriteSeq(0, false, 0, 0, Zeroes(MaxSeqWriteCount(cfg, max)));
    } else if MaxCompReadCount(cfg, max) >= Pow256(cfg.lenBytes) {
      c := ReadComp(0, Zeroes(MaxCompReadCount(cfg, max)));
    } else {
      c := WriteComp(0, false, seq(MaxCompWriteCount(cfg, max), _ => (0, 0)));
    }
  }

  /** The condition is exact: without it one call kills the worker, whatever the target. */
  lemma CrashingRun<S>(p: Setup<S>, t0: S) returns (es: seq<Event>)
    requires ValidCodec(p.cfg, p.max) && !CountsFit(p.cfg, p.max)
    ensures Run(Rap(p), t0, es).server.Crashed?
  {
    var c := OverflowCommand(p.cfg, p.max);
    GuardIgnoresTxn(p, c);
    RapServes(p, t0, WithTxn(c, 0));
    es := FatalCall(Rap(p), t0, c);
  }

  /** One call of a command that cannot be served. */
  lemma FatalCall<S>(f: Protocol<S>, t0: S, c: Command) returns (es: seq<Event>)
    requires Encodable(f, c) && f.serve(t0, f.encode(WithTxn(c, 0)).value).1.Err?
    ensures Run(f, t0, es).server.Crashed?
  {
    var sent: seq<Event> := [Call(0, c), Send(0)];
    es := sent + ([Guard, Pop, Recheck] + [Work]);
    assert [] + sent == sent;
    RunConcat(f, t0, [], sent);
    RunConcat(f, t0, sent, [Guard, Pop, Recheck] + [Work]);
    Steps2(f, Init(t0), Call(0, c), Send(0));
    assert f.encode(WithTxn(c, 0)).Ok?;
    BusyRound(f, Run(f, t0, sent));
  }

  /** Whatever happens, the worker survives. */
  ghost predicate Survives<S(!new)>(p: Setup<S>, t0: S)
    requires ValidCodec(p.cfg, p.max)
  {
    forall es :: !Run(Rap(p), t0, es).server.Crashed?
  }

  /** Both directions at once, as a condition on the configuration and the message size alone. */
  lemma SurvivesExactly<S(!new)>(p: Setup<S>, t0: S)
    requires ValidCodec(p.cfg, p.max)
    ensures Survives(p, t0) <==> CountsFit(p.cfg, p.max)
  {
    if CountsFit(p.cfg, p.max) {
      forall es ensures !Run(Rap(p), t0, es).server.Crashed? {
        NeverCrashes(p, t0, es);
      }
    } else {
      var es := CrashingRun(p, t0);
    }
  }

  /** One configuration on the failing side: a 16-bit length type sent as one byte, over the default transport. A
      write of 256 values is accepted and its count leaves as 0. */
  lemma NarrowLengthField(cfg: Config)
    requires cfg == Config(1, 1, 1, 1, 1, 2, 1, true, true, true, true, true)
    ensures ValidCodec(cfg, 512) && !CountsFit(cfg, 512)
    ensures var c := WriteSeq(0, false, 0, 0, Zeroes(256));
            CommandGuard(cfg, 512, c) && !CountFits(cfg, c) && Cut(cfg, Count, 256) == 0
  {
    SpanIsProduct(256, 1);
    assert Pow256(1) == 256 && Pow256(2) == 65536;
    assert Size(cfg, 1, 256, 2) == 262;
    SeqTight(cfg, 512, 256);
  }
}
