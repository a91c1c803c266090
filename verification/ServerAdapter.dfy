/** The worker of the server adapter: the loop over its transport, and what it leaves in the queues and the target. */
module ServerAdapter {
  import opened Bytes
  import opened Messages
  import opened Limits
  import opened Service
  import opened Transports
  import Serdes

  // ---------------------------------------------------------------- the specification

  /** The two queues, the target, and whether the worker still runs. */
  datatype World<S> = World(cmdQ: seq<seq<byte>>, respQ: seq<seq<byte>>, target: S, alive: bool)

  /** What the worker makes of a received buffer; the loop is described for any such function. */
  type Serving<!S> = (S, seq<byte>) -> (S, Result<seq<byte>>)

  /** One undisturbed round: the oldest command is answered; an error from the codec ends the worker. */
  function Round<S>(f: Serving<S>, w: World<S>): World<S> {
    if !w.alive || w.cmdQ == [] then w else
      var (target, r) := f(w.target, w.cmdQ[0]);
      World(w.cmdQ[1..], if r.Ok? then w.respQ + [r.value] else w.respQ, target, r.Ok?)
  }

  function Rounds<S>(f: Serving<S>, w: World<S>, n: nat): World<S>
    decreases n
  {
    if n == 0 then w else Rounds(f, Round(f, w), n - 1)
  }

  /** The client sends while the worker works. */
  function Arrive<S>(w: World<S>, bs: seq<seq<byte>>): World<S> {
    w.(cmdQ := w.cmdQ + bs)
  }

  /** One round for each batch of arrivals; a round that finds nothing to receive is spent waiting. */
  function Served<S>(f: Serving<S>, w: World<S>, arrivals: seq<seq<seq<byte>>>): World<S>
    decreases |arrivals|
  {
    if arrivals == [] then w else Served(f, Round(f, Arrive(w, arrivals[0])), arrivals[1..])
  }

  /** The loop looks at the stop token three times a round: in its guard, inside the pop, and after the pop. This is
      what it leaves behind when, after a round for each of `arrivals`, it is the look after `looks` more, in the round
      in which `last` arrives, that finds the stop. */
  function StoppedAfter<S>(f: Serving<S>, w: World<S>, arrivals: seq<seq<seq<byte>>>, last: seq<seq<byte>>, looks: nat)
    : World<S>
  {
    CutShort(Arrive(Served(f, w, arrivals), last), looks)
  }

  /** A round that sees the stop at its last look has already taken a command, which is lost. */
  function CutShort<S>(w: World<S>, looks: nat): World<S> {
    if w.alive && w.cmdQ != [] && looks == 2 then w.(cmdQ := w.cmdQ[1..]) else w
  }

  lemma {:induction false} IdleRounds<S>(f: Serving<S>, w: World<S>, n: nat)
    requires !w.alive || w.cmdQ == []
    ensures Rounds(f, w, n) == w
  {
    if n > 0 { IdleRounds(f, w, n - 1); }
  }

  lemma ServeOnce<S>(f: Serving<S>, w: World<S>)
    requires w.alive && w.cmdQ != []
    ensures var (target, r) := f(w.target, w.cmdQ[0]);
            Round(f, w) == World(w.cmdQ[1..], if r.Ok? then w.respQ + [r.value] else w.respQ, target, r.Ok?)
  {
  }

  /** `k` commands taken and answered, in order. */
  ghost predicate Answered<S>(w: World<S>, w': World<S>, k: nat) {
    k <= |w.cmdQ| && w'.cmdQ == w.cmdQ[k..] && |w'.respQ| == |w.respQ| + k && w.respQ <= w'.respQ
  }

  lemma OneAnswered<S>(f: Serving<S>, w: World<S>)
    requires w.alive && w.cmdQ != [] && Round(f, w).alive
    ensures Answered(w, Round(f, w), 1)
  {
    ServeOnce(f, w);
  }

  lemma AnsweredMore<S>(w: World<S>, w1: World<S>, w': World<S>, n: nat)
    requires n > 0 && Answered(w, w1, 1) && Answered(w1, w', Min(n - 1, |w1.cmdQ|))
    ensures Answered(w, w', Min(n, |w.cmdQ|))
  {
    var k := Min(n - 1, |w1.cmdQ|);
    assert w.cmdQ[1..][k..] == w.cmdQ[k + 1..];
  }

  lemma FirstRound<S>(f: Serving<S>, w: World<S>, n: nat)
    requires n > 0
    ensures Rounds(f, w, n) == Rounds(f, Round(f, w), n - 1)
    ensures Rounds(f, w, n).alive ==> Round(f, w).alive
  {
    if !Round(f, w).alive { IdleRounds(f, Round(f, w), n - 1); }
  }

  /** Rounds that never meet a codec error answer as many commands as there are, in order. */
  ghost predicate Counted<S>(f: Serving<S>, w: World<S>, n: nat) {
    w.alive && Rounds(f, w, n).alive ==> Answered(w, Rounds(f, w, n), Min(n, |w.cmdQ|))
  }

  lemma {:induction false} RoundsCount<S>(f: Serving<S>, w: World<S>, n: nat)
    ensures Counted(f, w, n)
    decreases n
  {
    if n == 0 || w.cmdQ == [] {
      CountedIdle(f, w, n);
    } else {
      RoundsCount(f, Round(f, w), n - 1);
      FirstRound(f, w, n);
      if w.alive && Rounds(f, w, n).alive {
        OneAnswered(f, w);
        AnsweredMore(w, Round(f, w), Rounds(f, w, n), n);
      }
    }
  }

  lemma CountedIdle<S>(f: Serving<S>, w: World<S>, n: nat)
    requires n == 0 || w.cmdQ == []
    ensures Counted(f, w, n)
  {
    if n > 0 { IdleRounds(f, w, n); }
    AnsweredNone(w);
  }

  lemma AnsweredNone<S>(w: World<S>)
    ensures Answered(w, w, 0)
  {
    assert w.cmdQ[0..] == w.cmdQ;
  }

  function Flat(bs: seq<seq<seq<byte>>>): seq<seq<byte>> {
    if bs == [] then [] else bs[0] + Flat(bs[1..])
  }

  lemma RoundAnswered<S>(f: Serving<S>, w: World<S>) returns (k: nat)
    requires w.alive && Round(f, w).alive
    ensures Answered(w, Round(f, w), k)
  {
    if w.cmdQ == [] {
      AnsweredNone(w);
      k := 0;
    } else {
      OneAnswered(f, w);
      k := 1;
    }
  }

  lemma AnsweredThenArrive<S>(w: World<S>, bs: seq<seq<byte>>, rest: seq<seq<byte>>, w1: World<S>, w': World<S>, j: nat, k: nat)
    requires Answered(Arrive(w, bs), w1, j) && Answered(Arrive(w1, rest), w', k)
    ensures Answered(Arrive(w, bs + rest), w', j + k)
  {
    TailOfTail(w.cmdQ, bs, rest, j, k);
  }

  lemma TailOfTail<T>(q: seq<T>, bs: seq<T>, rest: seq<T>, j: nat, k: nat)
    requires j <= |q + bs| && k <= |(q + bs)[j..] + rest|
    ensures j + k <= |q + (bs + rest)| && ((q + bs)[j..] + rest)[k..] == (q + (bs + rest))[j + k..]
  {
    assert (q + bs)[j..] + rest == (q + (bs + rest))[j..];
  }

  lemma {:induction false} DeadStays<S>(f: Serving<S>, w: World<S>, arrivals: seq<seq<seq<byte>>>)
    requires !w.alive
    ensures !Served(f, w, arrivals).alive
    decreases |arrivals|
  {
    if arrivals != [] { DeadStays(f, Round(f, Arrive(w, arrivals[0])), arrivals[1..]); }
  }

  lemma FirstServed<S>(f: Serving<S>, w: World<S>, arrivals: seq<seq<seq<byte>>>)
    requires arrivals != []
    ensures Served(f, w, arrivals) == Served(f, Round(f, Arrive(w, arrivals[0])), arrivals[1..])
    ensures Served(f, w, arrivals).alive ==> Round(f, Arrive(w, arrivals[0])).alive
  {
    var w1 := Round(f, Arrive(w, arrivals[0]));
    if !w1.alive { DeadStays(f, w1, arrivals[1..]); }
  }

  /** Rounds that never meet a codec error answer the first commands, once each and in order, whenever they arrive. */
  lemma {:induction false} ServedAnswers<S>(f: Serving<S>, w: World<S>, arrivals: seq<seq<seq<byte>>>, w': World<S>)
    returns (k: nat)
    requires w.alive && w'.alive && w' == Served(f, w, arrivals)
    ensures Answered(Arrive(w, Flat(arrivals)), w', k)
    decreases |arrivals|
  {
    if arrivals == [] {
      NothingArrives(w);
      AnsweredNone(w);
      k := 0;
    } else {
      var bs, rest := arrivals[0], arrivals[1..];
      FirstServed(f, w, arrivals);
      var w1 := Round(f, Arrive(w, bs));
      var j := RoundAnswered(f, Arrive(w, bs));
      var k' := ServedAnswers(f, w1, rest, w');
      AnsweredThenArrive(w, bs, Flat(rest), w1, w', j, k');
      k := j + k';
    }
  }

  lemma NothingArrives<S>(w: World<S>)
    ensures Arrive(w, []) == w
  {
    assert w.cmdQ + [] == w.cmdQ;
  }

  /** How a stop ends a worker that met no codec error: of all the commands that ever arrived, in order, a first part is
      answered, each once; one more is lost exactly when the stop falls between the pop and the look after it and there
      was one to take; the rest stay queued. */
  lemma StopLosesExactly<S>(f: Serving<S>, w: World<S>, arrivals: seq<seq<seq<byte>>>, last: seq<seq<byte>>, looks: nat)
    requires w.alive && StoppedAfter(f, w, arrivals, last, looks).alive
    ensures var w' := StoppedAfter(f, w, arrivals, last, looks);
      var all := w.cmdQ + (Flat(arrivals) + last);
      var k := |w'.respQ| - |w.respQ|;
      && 0 <= k <= |all| && w.respQ <= w'.respQ
      && w'.cmdQ == all[k + (if looks == 2 && k < |all| then 1 else 0)..]
  {
    var served := Served(f, w, arrivals);
    var k := ServedAnswers(f, w, arrivals, served);
    AnsweredNone(Arrive(served, last));
    AnsweredThenArrive(w, Flat(arrivals), last, served, Arrive(served, last), k, 0);
  }

  function NoArrivals(n: nat): (bs: seq<seq<seq<byte>>>)
    ensures |bs| == n
  {
    if n == 0 then [] else [[]] + NoArrivals(n - 1)
  }

  /** Without arrivals each round answers a command as long as there is one. */
  lemma {:induction false} ServedAlone<S>(f: Serving<S>, w: World<S>, n: nat)
    ensures Served(f, w, NoArrivals(n)) == Rounds(f, w, n) && Counted(f, w, n)
    decreases n
  {
    RoundsCount(f, w, n);
    if n > 0 {
      NothingArrives(w);
      assert NoArrivals(n)[1..] == NoArrivals(n - 1);
      ServedAlone(f, Round(f, w), n - 1);
    }
  }

  // ---------------------------------------------------------------- the adapter

  class RapServerAdapter<S> {
    const transport: PairedIpcTransport
    const serdes: Serdes.Serdes
    const p: Setup<S>
    var target: S
    var alive: bool

    ghost predicate Valid() {
      && transport.txQueue != transport.rxQueue && serdes.maxMessageSize == transport.GetMaxMessageSize()
      && ValidCodec(p.cfg, p.max) && p.cfg == serdes.cfg && p.max == serdes.maxMessageSize
    }

    ghost function View(): World<S>
      reads this, transport.txQueue, transport.rxQueue
    {
      World(transport.rxQueue.queue, transport.txQueue.queue, target, alive)
    }

    constructor (t: PairedIpcTransport, s: Serdes.Serdes, exec: (S, Op) -> (S, TargetResult), target: S)
      requires t.txQueue != t.rxQueue && s.Valid() && s.maxMessageSize == t.GetMaxMessageSize()
      ensures Valid() && transport == t && serdes == s && p == Setup(s.cfg, s.maxMessageSize, exec)
      ensures this.target == target && alive
    {
      transport := t;
      serdes := s;
      p := Setup(s.cfg, s.maxMessageSize, exec);
      this.target := target;
      alive := true;
    }

    /** Construction as callers see it: the codec takes its size from the transport, and may throw. */
    static method Create(t: PairedIpcTransport, cfg: Config, exec: (S, Op) -> (S, TargetResult), target: S)
      returns (r: Result<RapServerAdapter<S>>)
      requires cfg.Valid() && t.txQueue != t.rxQueue
      ensures r.Ok? <==> t.GetMaxMessageSize() >= 32
      ensures r.Ok? ==> fresh(r.value) && r.value.Valid() && r.value.transport == t && r.value.alive
      ensures r.Ok? ==> r.value.p == Setup(cfg, t.GetMaxMessageSize(), exec) && r.value.target == target
      ensures r.Err? ==> r.error == ConstructorSizeError
    {
      var s :- Serdes.Serdes.Create(cfg, t.GetMaxMessageSize());
      var server := new RapServerAdapter(t, s, exec, target);
      return Ok(server);
    }

    /** The target's operation, which writes into the span it is given and may throw after changing its state. */
    method CallTarget(op: Op, out: array<nat>) returns (threw: bool)
      requires forall k :: 0 <= k < out.Length ==> out[k] == 0
      modifies this`target, out
      ensures target == p.exec(old(target), op).0
      ensures threw == p.exec(old(target), op).1.Threw?
      ensures !threw ==>
                var written := p.exec(old(target), op).1.written;
                forall k :: 0 <= k < out.Length ==> out[k] == if k < |written| then written[k] else 0
    {
      var (s', r) := p.exec(target, op);
      target := s';
      if r.Threw? {
        return true;
      }
      var i := 0;
      while i < out.Length && i < |r.written|
        invariant i <= out.Length && i <= |r.written| && target == s'
        invariant forall k :: 0 <= k < out.Length ==> out[k] == if k < i then r.written[k] else 0
      {
        out[i] := r.written[i];
        i := i + 1;
      }
      return false;
    }

    /** The seven handleCmd overloads and the handlers around them. */
    method HandleCmd(c: Command) returns (r: Response)
      modifies this`target
      ensures (target, r) == Handle(p.exec, old(target), c)
      ensures var (s', d) := p.exec(old(target), OpOf(c));
              && target == s' && r.txn == c.txn
              && (d.Threw? ==> IsNak(c, r) && r.status == 0xFD)
              && (d.Done? ==>
                    && IsAck(c, r) && |AckData(r)| == ReadCount(c)
                    && forall k :: 0 <= k < ReadCount(c) ==>
                         AckData(r)[k] == if k < |d.written| then d.written[k] else 0)
    {
      var out := new nat[ReadCount(c)](_ => 0);
      ghost var d := p.exec(target, OpOf(c)).1;
      var threw := CallTarget(OpOf(c), out);
      if threw {
        return NakFor(c, 0xFD);
      }
      assert out[..] == Filled(ReadCount(c), d.written);
      AckCarries(c, out[..]);
      return AckFor(c, out[..]);
    }

    /** The part of a round after the stop checks; decoding and encoding happen outside the try block. */
    method Answer(buf: seq<byte>) returns (r: Result<()>)
      requires Valid()
      modifies this`target, transport.txQueue
      ensures var (s', reply) := Serve(p, old(target), buf);
        && target == s' && r.Ok? == reply.Ok?
        && transport.txQueue.queue == old(transport.txQueue.queue) + (if reply.Ok? then [reply.value] else [])
        && (reply.Err? ==> r == Err(reply.error))
    {
      var cmd := serdes.DecodeCommand(buf);
      if cmd.Err? { return Err(cmd.error); }
      var resp := HandleCmd(cmd.value);
      var b := serdes.EncodeResponse(resp);
      if b.Err? { return Err(b.error); }
      transport.Send(b.value);
      return Ok(());
    }

    /** One round with no stop in sight; with nothing to receive the worker just waits. */
    method WorkOnce()
      requires Valid()
      modifies this, transport.txQueue, transport.rxQueue
      ensures View() == Round(Rap(p).serve, old(View()))
    {
      if alive && |transport.rxQueue.queue| > 0 {
        ghost var w := View();
        var buf := transport.RecvUnlessStopped(false);
        ServeBuffer(w, buf.value);
      }
    }

    method WorkFor(turns: nat)
      requires Valid()
      modifies this, transport.txQueue, transport.rxQueue
      ensures View() == Rounds(Rap(p).serve, old(View()), turns)
    {
      var i := 0;
      while i < turns
        invariant i <= turns
        invariant Rounds(Rap(p).serve, View(), turns - i) == Rounds(Rap(p).serve, old(View()), turns)
      {
        WorkOnce();
        i := i + 1;
      }
    }

    /** What the peer pushes meanwhile. */
    method PeerSends(bs: seq<seq<byte>>)
      requires Valid()
      modifies transport.rxQueue
      ensures View() == Arrive(old(View()), bs)
    {
      var i := 0;
      while i < |bs|
        invariant i <= |bs| && transport.rxQueue.queue == old(transport.rxQueue.queue) + bs[..i]
      {
        transport.rxQueue.Push(bs[i]);
        assert bs[..i + 1] == bs[..i] + [bs[i]];
        i := i + 1;
      }
      assert bs[..i] == bs;
    }

    /** backgroundWork: a round for each batch of arrivals, then one that the stop cuts short after `looks` looks. */
    method BackgroundWork(arrivals: seq<seq<seq<byte>>>, last: seq<seq<byte>>, looks: nat)
      requires Valid() && looks < 3
      modifies this, transport.txQueue, transport.rxQueue
      ensures View() == StoppedAfter(Rap(p).serve, old(View()), arrivals, last, looks)
    {
      var k := 0;
      assert arrivals[0..] == arrivals;
      while k < |arrivals|
        invariant k <= |arrivals|
        invariant Served(Rap(p).serve, View(), arrivals[k..]) == Served(Rap(p).serve, old(View()), arrivals)
      {
        assert arrivals[k..][1..] == arrivals[k + 1..];
        PeerSends(arrivals[k]);
        WorkOnce();
        k := k + 1;
      }
      PeerSends(last);
      if alive && looks > 0 {
        // the guard found no stop; with an empty queue only the stop ends the wait
        var stopRequested := looks == 1 || |transport.rxQueue.queue| == 0;
        var buf := transport.RecvUnlessStopped(stopRequested);
        // the check after the pop finds the stop
      }
    }

    /** The rest of a round, once the command is out of the queue. */
    method ServeBuffer(ghost w: World<S>, buf: seq<byte>)
      requires Valid() && w.alive && w.cmdQ != [] && buf == w.cmdQ[0] && View() == w.(cmdQ := w.cmdQ[1..])
      modifies this, transport.txQueue
      ensures View() == Round(Rap(p).serve, w)
    {
      ServeOnce(Rap(p).serve, w);
      var done := Answer(buf);
      alive := done.Ok?;
    }
  }
}
