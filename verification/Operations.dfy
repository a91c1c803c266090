/** What each client operation does to the target at the other end, and what its caller gets, argument by argument. */
module Operations {
  import opened Bytes
  import opened Messages
  import opened Limits
  import opened Service
  import opened ServerAdapter
  import opened Client
  import opened Exchanges

  ghost predicate Ready<S>(p: Setup<S>, w: World<S>, turns: nat) {
    ValidCodec(p.cfg, p.max) && AtRest(w) && turns >= 1
  }

  lemma {:induction false} CutAllAt(cfg: Config, k: Kind, vs: seq<nat>)
    ensures CutAll(cfg, k, vs) == seq(|vs|, i requires 0 <= i < |vs| => Cut(cfg, k, vs[i]))
  {
    if vs != [] {
      CutAllAt(cfg, k, vs[1..]);
    }
  }

  lemma {:induction false} CutPairsAt(cfg: Config, ps: seq<(nat, nat)>)
    ensures CutPairs(cfg, ps)
         == seq(|ps|, i requires 0 <= i < |ps| => (Cut(cfg, Addr, ps[i].0), Cut(cfg, Data, ps[i].1)))
  {
    if ps != [] {
      CutPairsAt(cfg, ps[1..]);
    }
  }

  /** From rest: the target runs the command as cut to the wire; what it throws comes back as a NAK, and what it writes
      as data. */
  lemma CallIs<S>(p: Setup<S>, w: World<S>, c: Command, turns: nat)
    requires Ready(p, w, turns) && CommandGuard(p.cfg, p.max, c) && CountFits(p.cfg, c)
    ensures var (target, d) := p.exec(w.target, OpOf(Truncated(p.cfg, c)));
      var (w', r) := Exchange(Rap(p), w, c, turns);
      && w' == World([], [], target, true)
      && (d.Threw? ==> r == Err(OperationNak(0xFD)))
      && (d.Done? ==>
            && r.Ok? && |r.value| == ReadCount(Truncated(p.cfg, c))
            && forall i :: 0 <= i < |r.value| ==>
                 r.value[i] == (if i < |d.written| then d.written[i] else 0) % Pow256(p.cfg.dataBytes))
  {
    ExchangeIsDirect(p, w, c, turns);
    var d := p.exec(w.target, OpOf(Truncated(p.cfg, c))).1;
    if d.Done? {
      CutAllAt(p.cfg, Data, Filled(ReadCount(Truncated(p.cfg, c)), d.written));
    }
  }

  lemma CallRefused<S>(p: Setup<S>, w: World<S>, c: Command, turns: nat)
    requires Ready(p, w, turns) && !CommandGuard(p.cfg, p.max, c)
    ensures Exchange(Rap(p), w, c, turns) == (w, Err(MessageSizeError))
  {
    RapEncodes(p, c);
  }

  lemma NoValues(r: Result<seq<nat>>, d: TargetResult)
    requires if d.Threw? then r == Err(OperationNak(0xFD)) else r.Ok? && |r.value| == 0
    ensures r == if d.Threw? then Err(OperationNak(0xFD)) else Ok([])
  {
  }

  lemma OneValue(r: Result<seq<nat>>, d: TargetResult, m: nat)
    requires m >= 1 && d.Done? && r.Ok? && |r.value| == 1
    requires forall i :: 0 <= i < |r.value| ==> r.value[i] == (if i < |d.written| then d.written[i] else 0) % m
    ensures r == Ok([(if d.written == [] then 0 else d.written[0]) % m])
  {
    assert r.value == [r.value[0]];
  }

  /** The same for the operations that return nothing. */
  lemma WriteIs<S>(p: Setup<S>, w: World<S>, c: Command, turns: nat, op: Op)
    requires Ready(p, w, turns) && CommandGuard(p.cfg, p.max, c) && CountFits(p.cfg, c)
    requires OpOf(Truncated(p.cfg, c)) == op && ReadCount(Truncated(p.cfg, c)) == 0
    ensures var (target, d) := p.exec(w.target, op);
      Exchange(Rap(p), w, c, turns)
      == (World([], [], target, true), if d.Threw? then Err(OperationNak(0xFD)) else Ok([]))
  {
    CallIs(p, w, c, turns);
    NoValues(Exchange(Rap(p), w, c, turns).1, p.exec(w.target, op).1);
  }

  /** The same for a single read. */
  lemma SingleReadIs<S>(p: Setup<S>, w: World<S>, c: Command, turns: nat, op: Op)
    requires Ready(p, w, turns) && CommandGuard(p.cfg, p.max, c) && CountFits(p.cfg, c)
    requires OpOf(Truncated(p.cfg, c)) == op && ReadCount(Truncated(p.cfg, c)) == 1
    ensures var (target, d) := p.exec(w.target, op);
      var (w', r) := Exchange(Rap(p), w, c, turns);
      && w' == World([], [], target, true)
      && (d.Threw? ==> r == Err(OperationNak(0xFD)))
      && (d.Done? ==> r == Ok([(if d.written == [] then 0 else d.written[0]) % Pow256(p.cfg.dataBytes)]))
  {
    CallIs(p, w, c, turns);
    var d := p.exec(w.target, op).1;
    if d.Done? { OneValue(Exchange(Rap(p), w, c, turns).1, d, Pow256(p.cfg.dataBytes)); }
  }

  /** read(addr): the first value that the target wrote, or 0. */
  lemma ReadReaches<S>(p: Setup<S>, w: World<S>, txn: byte, addr: nat, turns: nat)
    requires Ready(p, w, turns)
    ensures var (target, d) := p.exec(w.target, OpRead(addr % Pow256(p.cfg.addrBytes)));
      var (w', r) := Exchange(Rap(p), w, ReadSingle(txn, addr), turns);
      && w' == World([], [], target, true)
      && (d.Threw? ==> r == Err(OperationNak(0xFD)))
      && (d.Done? ==> r == Ok([(if d.written == [] then 0 else d.written[0]) % Pow256(p.cfg.dataBytes)]))
  {
    SingleReadIs(p, w, ReadSingle(txn, addr), turns, OpRead(Cut(p.cfg, Addr, addr)));
  }

  /** write(addr, data) */
  lemma WriteReaches<S>(p: Setup<S>, w: World<S>, txn: byte, addr: nat, data: nat, turns: nat)
    requires Ready(p, w, turns)
    ensures var (target, d) := p.exec(w.target, OpWrite(addr % Pow256(p.cfg.addrBytes), data % Pow256(p.cfg.dataBytes)));
      Exchange(Rap(p), w, WriteSingle(txn, false, addr, data), turns)
      == (World([], [], target, true), if d.Threw? then Err(OperationNak(0xFD)) else Ok([]))
  {
    WriteIs(p, w, WriteSingle(txn, false, addr, data), turns, OpWrite(Cut(p.cfg, Addr, addr), Cut(p.cfg, Data, data)));
  }

  /** readModifyWrite(addr, data, mask) */
  lemma ReadModifyWriteReaches<S>(p: Setup<S>, w: World<S>, txn: byte, addr: nat, data: nat, mask: nat, turns: nat)
    requires Ready(p, w, turns)
    ensures var (target, d) := p.exec(w.target, OpReadModifyWrite(addr % Pow256(p.cfg.addrBytes),
                                        data % Pow256(p.cfg.dataBytes), mask % Pow256(p.cfg.dataBytes)));
      Exchange(Rap(p), w, ReadModifyWrite(txn, false, addr, data, mask), turns)
      == (World([], [], target, true), if d.Threw? then Err(OperationNak(0xFD)) else Ok([]))
  {
    WriteIs(p, w, ReadModifyWrite(txn, false, addr, data, mask), turns,
            OpReadModifyWrite(Cut(p.cfg, Addr, addr), Cut(p.cfg, Data, data), Cut(p.cfg, Mask, mask)));
  }

  /** seqRead(addr, out, increment), and fifoRead with increment 0, into a span of `n` elements: as many values as the
      wire can state, the i-th being the i-th that the target wrote, or 0. */
  lemma SeqReadReaches<S>(p: Setup<S>, w: World<S>, txn: byte, addr: nat, increment: nat, n: nat, turns: nat)
    requires Ready(p, w, turns) && Narrow(p.cfg, n) <= MaxSeqReadCount(p.cfg, p.max)
    ensures var m := n % Pow256(p.cfg.lenBytes);
      var (target, d) := p.exec(w.target, OpSeqRead(addr % Pow256(p.cfg.addrBytes), m,
                                                    increment % Pow256(p.cfg.lenBytes)));
      var (w', r) := Exchange(Rap(p), w, ReadSeq(txn, addr, Narrow(p.cfg, increment), Narrow(p.cfg, n)), turns);
      && w' == World([], [], target, true) && m <= n
      && (d.Threw? ==> r == Err(OperationNak(0xFD)))
      && (d.Done? ==>
            && r.Ok? && |r.value| == m
            && forall i :: 0 <= i < m ==>
                 r.value[i] == (if i < |d.written| then d.written[i] else 0) % Pow256(p.cfg.dataBytes))
  {
    ModAtMost(n, Pow256(p.cfg.lenBytes));
    NarrowThenCut(p.cfg, n);
    NarrowThenCut(p.cfg, increment);
    CallIs(p, w, ReadSeq(txn, addr, Narrow(p.cfg, increment), Narrow(p.cfg, n)), turns);
  }

  /** seqWrite(addr, data, increment), and fifoWrite with increment 0: every value, in order. */
  lemma SeqWriteReaches<S>(p: Setup<S>, w: World<S>, txn: byte, addr: nat, increment: nat, data: seq<nat>, turns: nat)
    requires Ready(p, w, turns) && |data| <= MaxSeqWriteCount(p.cfg, p.max) && |data| < Pow256(p.cfg.lenBytes)
    ensures var vs := seq(|data|, i requires 0 <= i < |data| => Cut(p.cfg, Data, data[i]));
      var (target, d) := p.exec(w.target, OpSeqWrite(addr % Pow256(p.cfg.addrBytes), vs,
                                                     increment % Pow256(p.cfg.lenBytes)));
      Exchange(Rap(p), w, WriteSeq(txn, false, addr, Narrow(p.cfg, increment), data), turns)
      == (World([], [], target, true), if d.Threw? then Err(OperationNak(0xFD)) else Ok([]))
  {
    NarrowThenCut(p.cfg, increment);
    CutAllAt(p.cfg, Data, data);
    WriteIs(p, w, WriteSeq(txn, false, addr, Narrow(p.cfg, increment), data), turns,
            OpSeqWrite(Cut(p.cfg, Addr, addr), CutAll(p.cfg, Data, data), Cut(p.cfg, Incr, Narrow(p.cfg, increment))));
  }

  /** compRead(addresses, out): the i-th value is the i-th that the target wrote, or 0. */
  lemma CompReadReaches<S>(p: Setup<S>, w: World<S>, txn: byte, addresses: seq<nat>, turns: nat)
    requires Ready(p, w, turns)
    requires |addresses| <= MaxCompReadCount(p.cfg, p.max) && |addresses| < Pow256(p.cfg.lenBytes)
    ensures var n := |addresses|;
      var cut := seq(n, i requires 0 <= i < n => Cut(p.cfg, Addr, addresses[i]));
      var (target, d) := p.exec(w.target, OpCompRead(cut));
      var (w', r) := Exchange(Rap(p), w, ReadComp(txn, addresses), turns);
      && w' == World([], [], target, true)
      && (d.Threw? ==> r == Err(OperationNak(0xFD)))
      && (d.Done? ==>
            && r.Ok? && |r.value| == n
            && forall i :: 0 <= i < n ==>
                 r.value[i] == (if i < |d.written| then d.written[i] else 0) % Pow256(p.cfg.dataBytes))
  {
    CutAllAt(p.cfg, Addr, addresses);
    CallIs(p, w, ReadComp(txn, addresses), turns);
  }

  /** compWrite(pairs): every pair, in order. */
  lemma CompWriteReaches<S>(p: Setup<S>, w: World<S>, txn: byte, pairs: seq<(nat, nat)>, turns: nat)
    requires Ready(p, w, turns) && |pairs| <= MaxCompWriteCount(p.cfg, p.max) && |pairs| < Pow256(p.cfg.lenBytes)
    ensures var ps := seq(|pairs|, i requires 0 <= i < |pairs| =>
                            (Cut(p.cfg, Addr, pairs[i].0), Cut(p.cfg, Data, pairs[i].1)));
      var (target, d) := p.exec(w.target, OpCompWrite(ps));
      Exchange(Rap(p), w, WriteComp(txn, false, pairs), turns)
      == (World([], [], target, true), if d.Threw? then Err(OperationNak(0xFD)) else Ok([]))
  {
    CutPairsAt(p.cfg, pairs);
    WriteIs(p, w, WriteComp(txn, false, pairs), turns, OpCompWrite(CutPairs(p.cfg, pairs)));
  }
}
