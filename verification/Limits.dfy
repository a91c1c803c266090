/** The count limits of Serdes, what they cover, and when an encoder succeeds. */
module Limits {
  import opened Bytes
  import opened Messages
  import Crc

  const MIN_MAX_MESSAGE_SIZE := 32

  /** The size calcSize computes before it compares it with the transport's limit. */
  function Size(cfg: Config, addrs: nat, datas: nat, lens: nat): nat {
    2 + Span(addrs, cfg.addrBytes) + Span(datas, cfg.dataBytes) + Span(lens, cfg.lenBytes) + cfg.crcBytes
  }

  ghost predicate ValidCodec(cfg: Config, max: nat) {
    cfg.Valid() && max >= MIN_MAX_MESSAGE_SIZE
  }

  /** numeric_limits<LengthType>::max(). */
  function LengthMax(cfg: Config): nat {
    Pow256(cfg.lenSize) - 1
  }

  function Min(a: nat, b: nat): nat {
    if a < b then a else b
  }

  /** No subtraction below can underflow. */
  lemma OverheadFits(cfg: Config, max: nat)
    requires ValidCodec(cfg, max)
    ensures Size(cfg, 0, 0, 1) <= max && Size(cfg, 1, 0, 2) <= max
    ensures Size(cfg, 1, 2, 0) <= max && Size(cfg, 1, 1, 0) <= max && Size(cfg, 0, 1, 0) <= max
  {
    Spans(cfg.addrBytes);
    Spans(cfg.dataBytes);
    Spans(cfg.lenBytes);
  }

  lemma Spans(w: nat)
    ensures Span(0, w) == 0 && Span(1, w) == w && Span(2, w) == w + w
  {
    assert Span(2, w) == w + Span(1, w);
  }

  function MaxSeqReadCount(cfg: Config, max: nat): nat
    requires ValidCodec(cfg, max)
  {
    Min(Quotient(max - Size(cfg, 0, 0, 1), cfg.dataBytes), LengthMax(cfg))
  }

  function MaxSeqWriteCount(cfg: Config, max: nat): nat
    requires ValidCodec(cfg, max)
  {
    OverheadFits(cfg, max);
    Min(Quotient(max - Size(cfg, 1, 0, 2), cfg.dataBytes), LengthMax(cfg))
  }

  function MaxCompReadCount(cfg: Config, max: nat): nat
    requires ValidCodec(cfg, max)
  {
    var byCommand := Quotient(max - Size(cfg, 0, 0, 1), cfg.addrBytes);
    var byAck := Quotient(max - Size(cfg, 0, 0, 1), cfg.dataBytes);
    Min(Min(byCommand, byAck), LengthMax(cfg))
  }

  function MaxCompWriteCount(cfg: Config, max: nat): nat
    requires ValidCodec(cfg, max)
  {
    Min(Quotient(max - Size(cfg, 0, 0, 1), cfg.addrBytes + cfg.dataBytes), LengthMax(cfg))
  }

  /** The guard each command encoder checks first. */
  predicate CommandGuard(cfg: Config, max: nat, c: Command)
    requires ValidCodec(cfg, max)
  {
    match c
    case ReadSeq(_, _, _, n) => n <= MaxSeqReadCount(cfg, max)
    case WriteSeq(_, _, _, _, vs) => |vs| <= MaxSeqWriteCount(cfg, max)
    case ReadComp(_, addrs) => |addrs| <= MaxCompReadCount(cfg, max)
    case WriteComp(_, _, ps) => |ps| <= MaxCompWriteCount(cfg, max)
    case _ => true
  }

  predicate ResponseGuard(cfg: Config, max: nat, r: Response)
    requires ValidCodec(cfg, max)
  {
    match r
    case ReadSeqAck(_, vs) => |vs| <= MaxSeqReadCount(cfg, max)
    case ReadCompAck(_, vs) => |vs| <= MaxCompReadCount(cfg, max)
    case _ => true
  }

  function EncodedCommand(cfg: Config, max: nat, c: Command): Result<seq<byte>>
    requires ValidCodec(cfg, max)
  {
    if CommandGuard(cfg, max, c) then Ok(CommandWire(cfg, c)) else Err(MessageSizeError)
  }

  function EncodedResponse(cfg: Config, max: nat, r: Response): Result<seq<byte>>
    requires ValidCodec(cfg, max)
  {
    if ResponseGuard(cfg, max, r) then Ok(ResponseWire(cfg, r)) else Err(MessageSizeError)
  }

  // ---------------------------------------------------------------- sizes

  lemma {:induction false} SerConcat(cfg: Config, a: seq<Field>, b: seq<Field>)
    ensures Ser(cfg, a + b) == Ser(cfg, a) + Ser(cfg, b)
  {
    if a == [] {
      assert a + b == b;
    } else {
      assert (a + b)[1..] == a[1..] + b;
      SerConcat(cfg, a[1..], b);
    }
  }

  lemma {:induction false} SerEachSize(cfg: Config, k: Kind, vs: seq<nat>)
    ensures |Ser(cfg, Each(k, vs))| == Span(|vs|, Width(cfg, k))
  {
    if vs != [] {
      assert Each(k, vs)[1..] == Each(k, vs[1..]);
      SerEachSize(cfg, k, vs[1..]);
    }
  }

  lemma {:induction false} SerPairsSize(cfg: Config, ps: seq<(nat, nat)>)
    ensures |Ser(cfg, EachPair(ps))| == Span(|ps|, cfg.addrBytes) + Span(|ps|, cfg.dataBytes)
  {
    if ps != [] {
      var fs := EachPair(ps);
      assert fs[1..][1..] == EachPair(ps[1..]);
      assert fs[1..][0] == Field(Data, ps[0].1);
      SerPairsSize(cfg, ps[1..]);
    }
  }

  lemma Ser1(cfg: Config, f: Field)
    ensures Ser(cfg, [f]) == LE(f.value, Width(cfg, f.kind))
  {
    assert [f][1..] == [];
  }

  lemma Ser2(cfg: Config, f: Field, g: Field)
    ensures Ser(cfg, [f, g]) == LE(f.value, Width(cfg, f.kind)) + LE(g.value, Width(cfg, g.kind))
  {
    assert [f, g][1..] == [g];
    Ser1(cfg, g);
  }

  lemma Ser3(cfg: Config, f: Field, g: Field, h: Field)
    ensures Ser(cfg, [f, g, h])
         == LE(f.value, Width(cfg, f.kind)) + (LE(g.value, Width(cfg, g.kind)) + LE(h.value, Width(cfg, h.kind)))
  {
    assert [f, g, h][1..] == [g, h];
    Ser2(cfg, g, h);
  }

  /** The address, data and length counts that the command's encoder passes to calcSize. */
  function CommandSize(cfg: Config, c: Command): nat {
    match c
    case ReadSingle(_, _) => Size(cfg, 1, 0, 0)
    case WriteSingle(_, _, _, _) => Size(cfg, 1, 1, 0)
    case ReadSeq(_, _, _, _) => Size(cfg, 1, 0, 2)
    case WriteSeq(_, _, _, _, vs) => Size(cfg, 1, |vs|, 2)
    case ReadComp(_, addrs) => Size(cfg, |addrs|, 0, 1)
    case WriteComp(_, _, ps) => Size(cfg, |ps|, |ps|, 1)
    case ReadModifyWrite(_, _, _, _, _) => Size(cfg, 1, 2, 0)
  }

  function ResponseSize(cfg: Config, r: Response): nat {
    match r
    case ReadSeqAck(_, vs) => Size(cfg, 0, |vs|, 1)
    case ReadCompAck(_, vs) => Size(cfg, 0, |vs|, 1)
    case WriteSingleAck(_) => Size(cfg, 0, 0, 0)
    case WriteSeqAck(_) => Size(cfg, 0, 0, 0)
    case WriteCompAck(_) => Size(cfg, 0, 0, 0)
    case ReadModifyWriteAck(_) => Size(cfg, 0, 0, 0)
    case _ => Size(cfg, 0, 1, 0)
  }

  lemma ArraySize(cfg: Config, prefix: seq<Field>, k: Kind, vs: seq<nat>)
    ensures |Ser(cfg, prefix + Each(k, vs))| == |Ser(cfg, prefix)| + Span(|vs|, Width(cfg, k))
  {
    SerConcat(cfg, prefix, Each(k, vs));
    SerEachSize(cfg, k, vs);
  }

  lemma PairsSize(cfg: Config, prefix: seq<Field>, ps: seq<(nat, nat)>)
    ensures |Ser(cfg, prefix + EachPair(ps))| == |Ser(cfg, prefix)| + Span(|ps|, cfg.addrBytes) + Span(|ps|, cfg.dataBytes)
  {
    SerConcat(cfg, prefix, EachPair(ps));
    SerPairsSize(cfg, ps);
  }

  lemma FixedCommandSize(cfg: Config, c: Command)
    requires !c.WriteSeq? && !c.ReadComp? && !c.WriteComp?
    ensures 2 + |Ser(cfg, CommandFields(c))| + cfg.crcBytes == CommandSize(cfg, c)
  {
    Spans(cfg.addrBytes);
    Spans(cfg.dataBytes);
    Spans(cfg.lenBytes);
    match c
    case ReadSingle(_, a) => Ser1(cfg, Field(Addr, a));
    case WriteSingle(_, _, a, d) => Ser2(cfg, Field(Addr, a), Field(Data, d));
    case ReadSeq(_, a, incr, m) => Ser3(cfg, Field(Addr, a), Field(Incr, incr), Field(Count, m));
    case ReadModifyWrite(_, _, a, d, m) => Ser3(cfg, Field(Addr, a), Field(Data, d), Field(Mask, m));
  }

  lemma ArrayCommandSize(cfg: Config, c: Command)
    requires c.WriteSeq? || c.ReadComp? || c.WriteComp?
    ensures 2 + |Ser(cfg, CommandFields(c))| + cfg.crcBytes == CommandSize(cfg, c)
  {
    Spans(cfg.addrBytes);
    Spans(cfg.dataBytes);
    Spans(cfg.lenBytes);
    match c
    case WriteSeq(_, _, a, incr, vs) =>
      Ser3(cfg, Field(Addr, a), Field(Incr, incr), Field(Count, |vs|));
      ArraySize(cfg, [Field(Addr, a), Field(Incr, incr), Field(Count, |vs|)], Data, vs);
    case ReadComp(_, addrs) =>
      Ser1(cfg, Field(Count, |addrs|));
      ArraySize(cfg, [Field(Count, |addrs|)], Addr, addrs);
    case WriteComp(_, _, ps) =>
      Ser1(cfg, Field(Count, |ps|));
      PairsSize(cfg, [Field(Count, |ps|)], ps);
  }

  /** The closing `buf.size() == sz` assertion of every command encoder holds. */
  lemma CommandWireSize(cfg: Config, c: Command)
    requires cfg.Valid()
    ensures |CommandWire(cfg, c)| == CommandSize(cfg, c)
  {
    if c.WriteSeq? || c.ReadComp? || c.WriteComp? {
      ArrayCommandSize(cfg, c);
    } else {
      FixedCommandSize(cfg, c);
    }
  }

  lemma ResponseWireSize(cfg: Config, r: Response)
    requires cfg.Valid()
    ensures |ResponseWire(cfg, r)| == ResponseSize(cfg, r)
  {
    Spans(cfg.dataBytes);
    Spans(cfg.lenBytes);
    if r.ReadSeqAck? || r.ReadCompAck? {
      Ser1(cfg, Field(Count, |r.values|));
      ArraySize(cfg, [Field(Count, |r.values|)], Data, r.values);
    } else if r.ReadSingleAck? {
      Ser1(cfg, Field(Data, r.data));
    } else if !r.WriteSingleAck? && !r.WriteSeqAck? && !r.WriteCompAck? && !r.ReadModifyWriteAck? {
      Ser1(cfg, Field(Status, r.status));
    }
  }

  // ---------------------------------------------------------------- the limits are tight

  lemma SeqTight(cfg: Config, max: nat, n: nat)
    requires ValidCodec(cfg, max)
    ensures n <= MaxSeqReadCount(cfg, max) <==> n <= LengthMax(cfg) && Size(cfg, 0, n, 1) <= max
    ensures n <= MaxSeqWriteCount(cfg, max) <==> n <= LengthMax(cfg) && Size(cfg, 1, n, 2) <= max
  {
    OverheadFits(cfg, max);
    QuotientBound(n, max - Size(cfg, 0, 0, 1), cfg.dataBytes);
    QuotientBound(n, max - Size(cfg, 1, 0, 2), cfg.dataBytes);
  }

  lemma CompReadTight(cfg: Config, max: nat, n: nat)
    requires ValidCodec(cfg, max)
    ensures n <= MaxCompReadCount(cfg, max)
            <==> n <= LengthMax(cfg) && Size(cfg, n, 0, 1) <= max && Size(cfg, 0, n, 1) <= max
  {
    OverheadFits(cfg, max);
    QuotientBound(n, max - Size(cfg, 0, 0, 1), cfg.dataBytes);
    QuotientBound(n, max - Size(cfg, 0, 0, 1), cfg.addrBytes);
  }

  lemma CompWriteTight(cfg: Config, max: nat, n: nat)
    requires ValidCodec(cfg, max)
    ensures n <= MaxCompWriteCount(cfg, max) <==> n <= LengthMax(cfg) && Size(cfg, n, n, 1) <= max
  {
    OverheadFits(cfg, max);
    QuotientBound(n, max - Size(cfg, 0, 0, 1), cfg.addrBytes + cfg.dataBytes);
    SpanSum(n, cfg.addrBytes, cfg.dataBytes);
  }

  /** `n` is within a limit exactly when it fits LengthType and every message the limit covers fits the transport. */
  lemma LimitsTight(cfg: Config, max: nat, n: nat)
    requires ValidCodec(cfg, max)
    ensures n <= MaxSeqReadCount(cfg, max) <==> n < Pow256(cfg.lenSize) && Size(cfg, 0, n, 1) <= max
    ensures n <= MaxSeqWriteCount(cfg, max) <==> n < Pow256(cfg.lenSize) && Size(cfg, 1, n, 2) <= max
    ensures n <= MaxCompReadCount(cfg, max)
            <==> n < Pow256(cfg.lenSize) && Size(cfg, n, 0, 1) <= max && Size(cfg, 0, n, 1) <= max
    ensures n <= MaxCompWriteCount(cfg, max) <==> n < Pow256(cfg.lenSize) && Size(cfg, n, n, 1) <= max
  {
    SeqTight(cfg, max, n);
    CompReadTight(cfg, max, n);
    CompWriteTight(cfg, max, n);
  }

  /** The element count of a command, the requested one for a sequential read. */
  function CommandCount(c: Command): nat {
    match c
    case ReadSeq(_, _, _, n) => n
    case _ => ArrayCount(c)
  }

  /** The size of the acknowledge that answers `c`. */
  function AckSize(cfg: Config, c: Command): nat {
    match c
    case ReadSingle(_, _) => Size(cfg, 0, 1, 0)
    case ReadSeq(_, _, _, n) => Size(cfg, 0, n, 1)
    case ReadComp(_, addrs) => Size(cfg, 0, |addrs|, 1)
    case _ => Size(cfg, 0, 0, 0)
  }

  /** An encoder accepts a command exactly when its count fits LengthType and both it and its answer fit the transport. */
  lemma CommandEncodableExactly(cfg: Config, max: nat, c: Command)
    requires ValidCodec(cfg, max)
    ensures EncodedCommand(cfg, max, c).Ok?
            <==> CommandCount(c) < Pow256(cfg.lenSize) && |CommandWire(cfg, c)| <= max && AckSize(cfg, c) <= max
    ensures EncodedCommand(cfg, max, c).Err? ==> EncodedCommand(cfg, max, c).error == MessageSizeError
  {
    OverheadFits(cfg, max);
    CommandWireSize(cfg, c);
    LimitsTight(cfg, max, CommandCount(c));
  }

  /** Responses: only the two array acknowledges can be refused, and a compressed read also pays for its command. */
  lemma ResponseEncodableExactly(cfg: Config, max: nat, r: Response)
    requires ValidCodec(cfg, max)
    ensures EncodedResponse(cfg, max, r).Ok?
            <==> ResponseCount(r) < Pow256(cfg.lenSize) && |ResponseWire(cfg, r)| <= max
                 && (r.ReadCompAck? ==> Size(cfg, |r.values|, 0, 1) <= max)
  {
    OverheadFits(cfg, max);
    ResponseWireSize(cfg, r);
    LimitsTight(cfg, max, ResponseCount(r));
  }
}
