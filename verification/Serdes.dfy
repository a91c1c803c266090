/** Class Serdes as written: encoders that grow a buffer, decoders that advance a view. */
module Serdes {
  import opened Bytes
  import opened Messages
  import opened Codec
  import opened Limits
  import Crc

  // ---------------------------------------------------------------- what the byte loops compute

  lemma {:induction false} LEIndex(v: nat, w: nat, i: nat)
    requires i < w
    ensures LE(v, w)[i] == v / Pow256(i) % 256
    decreases i
  {
    if i > 0 {
      LEIndex(v / 256, w - 1, i - 1);
      DivDiv(v, Pow256(i - 1));
    }
  }

  lemma DivDiv(v: nat, p: nat)
    requires p >= 1
    ensures v / 256 / p == v / (256 * p)
  {
    var q, r := v / 256 / p, v / 256 % p;
    assert v / 256 == q * p + r;
    assert v == q * (256 * p) + (256 * r + v % 256);
    ModUnique(v, 256 * p, q, 256 * r + v % 256);
  }

  lemma {:induction false} FromLESnoc(b: seq<byte>, x: byte)
    ensures FromLE(b + [x]) == FromLE(b) + x * Pow256(|b|)
  {
    if b == [] {
      assert [x][1..] == [];
    } else {
      assert (b + [x])[1..] == b[1..] + [x];
      FromLESnoc(b[1..], x);
      var p := Pow256(|b| - 1);
      assert x * (256 * p) == 256 * (x * p);
    }
  }

  lemma {:induction false} NarrowLE(v: nat, s: nat, w: nat)
    requires w <= s
    ensures LE(v % Pow256(s), w) == LE(v, w)
    decreases w
  {
    if w > 0 {
      ModStep(v, Pow256(s - 1));
      var low := v % Pow256(s);
      assert low == v % 256 + 256 * ((v / 256) % Pow256(s - 1));
      assert low % 256 == v % 256 && low / 256 == (v / 256) % Pow256(s - 1);
      NarrowLE(v / 256, s - 1, w - 1);
    }
  }

  lemma AtSuffix(p: seq<byte>, off: nat, at: nat, w: nat)
    requires off + at + w <= |p|
    ensures At(p[off..], at, w) == At(p, off + at, w)
  {
    assert p[off..][at..at + w] == p[off + at..off + at + w];
  }

  /** Three integers in a row, as the view shrinks. */
  lemma SecondAndThird(p: seq<byte>, a: nat, b: nat, c: nat)
    requires a + b + c <= |p|
    ensures At(p[a..], 0, b) == At(p, a, b) && At(p[a..][b..], 0, c) == At(p, a + b, c)
    ensures p[a..][b..][c..] == p[a + b + c..]
  {
    AtSuffix(p, a, 0, b);
    AtSuffix(p[a..], b, 0, c);
    AtSuffix(p, a, b, c);
  }

  lemma {:induction false} ValuesSuffix(p: seq<byte>, off: nat, at: nat, n: nat, w: nat)
    requires off + at + Span(n, w) <= |p|
    ensures Values(p[off..], at, n, w) == Values(p, off + at, n, w)
    decreases n
  {
    if n > 0 {
      AtSuffix(p, off, at, w);
      ValuesSuffix(p, off, at + w, n - 1, w);
    }
  }

  lemma {:induction false} PairsSuffix(p: seq<byte>, off: nat, at: nat, n: nat, a: nat, d: nat)
    requires off + at + Span(n, a + d) <= |p|
    ensures Pairs(p[off..], at, n, a, d) == Pairs(p, off + at, n, a, d)
    decreases n
  {
    if n > 0 {
      AtSuffix(p, off, at, a);
      AtSuffix(p, off, at + a, d);
      PairsSuffix(p, off, at + a + d, n - 1, a, d);
    }
  }

  /** After a passed count guard calcSize does not throw, and its result is the size of the bytes. */
  lemma ArrayCommandFits(cfg: Config, max: nat, c: Command)
    requires ValidCodec(cfg, max) && CommandGuard(cfg, max, c) && (c.WriteSeq? || c.ReadComp? || c.WriteComp?)
    ensures CommandSize(cfg, c) <= max
    ensures CommandSize(cfg, c) == 2 + |Ser(cfg, CommandFields(c))| + cfg.crcBytes
  {
    LimitsTight(cfg, max, ArrayCount(c));
    ArrayCommandSize(cfg, c);
  }

  lemma ArrayResponseFits(cfg: Config, max: nat, r: Response)
    requires ValidCodec(cfg, max) && ResponseGuard(cfg, max, r) && (r.ReadSeqAck? || r.ReadCompAck?)
    ensures Size(cfg, 0, |r.values|, 1) <= max
    ensures Size(cfg, 0, |r.values|, 1) == 2 + |Ser(cfg, ResponseFields(r))| + cfg.crcBytes
  {
    LimitsTight(cfg, max, |r.values|);
    ResponseWireSize(cfg, r);
  }

  lemma WriteSeqPayload(cfg: Config, c: Command)
    requires c.WriteSeq?
    ensures Ser(cfg, CommandFields(c))
         == LE(c.addr, cfg.addrBytes) + LE(c.increment, cfg.lenBytes) + LE(|c.values|, cfg.lenBytes)
            + Ser(cfg, Each(Data, c.values))
  {
    var prefix := [Field(Addr, c.addr), Field(Incr, c.increment), Field(Count, |c.values|)];
    Ser3(cfg, prefix[0], prefix[1], prefix[2]);
    SerConcat(cfg, prefix, Each(Data, c.values));
  }

  lemma CountedPayload(cfg: Config, n: nat, rest: seq<Field>)
    ensures Ser(cfg, [Field(Count, n)] + rest) == LE(n, cfg.lenBytes) + Ser(cfg, rest)
  {
    assert ([Field(Count, n)] + rest)[1..] == rest;
  }

  /** After some rounds of an array loop over `b0`: what is left of the buffer yields the values still missing. */
  ghost predicate ArrayGoal(b0: seq<byte>, count: nat, b: seq<byte>, left: nat, w: nat, values: seq<nat>) {
    && (Span(count, w) <= |b0| <==> Span(left, w) <= |b|)
    && (Span(left, w) <= |b| && Span(count, w) <= |b0| ==>
          Values(b0, 0, count, w) == values + Values(b, 0, left, w) && b0[Span(count, w)..] == b[Span(left, w)..])
  }

  lemma ArrayStep(b0: seq<byte>, count: nat, b: seq<byte>, left: nat, w: nat, values: seq<nat>)
    requires left > 0 && ArrayGoal(b0, count, b, left, w, values)
    ensures |b| < w ==> |b0| < Span(count, w)
    ensures w <= |b| ==> ArrayGoal(b0, count, b[w..], left - 1, w, values + [At(b, 0, w)])
  {
    if Span(left, w) <= |b| {
      var rest := Values(b, w, left - 1, w);
      ValuesSuffix(b, w, 0, left - 1, w);
      assert Values(b, 0, left, w) == [At(b, 0, w)] + rest;
      assert values + ([At(b, 0, w)] + rest) == (values + [At(b, 0, w)]) + rest;
      assert b[w..][Span(left - 1, w)..] == b[Span(left, w)..];
    }
  }

  ghost predicate PairsGoal(b0: seq<byte>, count: nat, b: seq<byte>, left: nat, a: nat, d: nat, pairs: seq<(nat, nat)>) {
    && (Span(count, a + d) <= |b0| <==> Span(left, a + d) <= |b|)
    && (Span(left, a + d) <= |b| && Span(count, a + d) <= |b0| ==>
          Pairs(b0, 0, count, a, d) == pairs + Pairs(b, 0, left, a, d) && b0[Span(count, a + d)..] == b[Span(left, a + d)..])
  }

  lemma PairsGoalStep(b0: seq<byte>, count: nat, b: seq<byte>, left: nat, a: nat, d: nat, pairs: seq<(nat, nat)>)
    requires left > 0 && PairsGoal(b0, count, b, left, a, d, pairs)
    ensures |b| < a + d ==> |b0| < Span(count, a + d)
    ensures a + d <= |b| ==> PairsGoal(b0, count, b[a + d..], left - 1, a, d, pairs + [(At(b, 0, a), At(b, a, d))])
  {
    var w := a + d;
    if Span(left, w) <= |b| {
      var x, rest := (At(b, 0, a), At(b, a, d)), Pairs(b, w, left - 1, a, d);
      PairsSuffix(b, w, 0, left - 1, a, d);
      assert Pairs(b, 0, left, a, d) == [x] + rest;
      assert pairs + ([x] + rest) == (pairs + [x]) + rest;
      assert b[w..][Span(left - 1, w)..] == b[Span(left, w)..];
    }
  }

  lemma SerPairsStep(cfg: Config, ps: seq<(nat, nat)>, i: nat)
    requires i < |ps|
    ensures Ser(cfg, EachPair(ps[i..]))
         == LE(ps[i].0, cfg.addrBytes) + LE(ps[i].1, cfg.dataBytes) + Ser(cfg, EachPair(ps[i + 1..]))
  {
    var fs := [Field(Addr, ps[i].0), Field(Data, ps[i].1)];
    assert ps[i..][1..] == ps[i + 1..];
    assert EachPair(ps[i..]) == fs + EachPair(ps[i + 1..]);
    SerConcat(cfg, fs, EachPair(ps[i + 1..]));
    Ser2(cfg, fs[0], fs[1]);
  }

  method ElementBytes(count: nat, width: nat) returns (n: nat)
    ensures n == Span(count, width)
  {
    SpanIsProduct(count, width);
    n := count * width;
  }

  // ---------------------------------------------------------------- buffers

  class Buffer {
    var bytes: seq<byte>

    constructor ()
      ensures bytes == []
    {
      bytes := [];
    }

    method PushBack(v: byte)
      modifies this
      ensures bytes == old(bytes) + [v]
    {
      bytes := bytes + [v];
    }

    /** The loop that appendAddress, appendData and appendLength share. */
    method AppendInteger(value: nat, width: nat)
      modifies this
      ensures bytes == old(bytes) + LE(value, width)
    {
      var v, i := value, 0;
      while i < width
        invariant i <= width
        invariant old(bytes) + LE(value, width) == bytes + LE(v, width - i)
      {
        assert LE(v, width - i) == [v % 256] + LE(v / 256, width - i - 1);
        PushBack(v % 256);
        v := v / 256;
        i := i + 1;
      }
    }
  }

  class BufferView {
    var bytes: seq<byte>

    constructor (b: seq<byte>)
      ensures bytes == b
    {
      bytes := b;
    }

    /** The loop that extractAddress, extractData and extractLength share. */
    method ExtractInteger(width: nat) returns (r: Result<nat>)
      modifies this
      ensures r == if |old(bytes)| < width then Err(Malformed) else Ok(At(old(bytes), 0, width))
      ensures bytes == if |old(bytes)| < width then old(bytes) else old(bytes)[width..]
    {
      if |bytes| < width {
        return Err(Malformed);
      }
      var v, i := 0, 0;
      while i < width
        invariant i <= width && bytes == old(bytes)
        invariant v == FromLE(bytes[..i])
      {
        FromLESnoc(bytes[..i], bytes[i]);
        assert bytes[..i] + [bytes[i]] == bytes[..i + 1];
        v := v + bytes[i] * Pow256(i);
        i := i + 1;
      }
      bytes := bytes[width..];
      return Ok(v);
    }

    /** The loop that extractAddressArray and extractDataArray share; nothing is checked before it. */
    method ExtractArray(count: nat, width: nat) returns (r: Result<seq<nat>>)
      modifies this
      ensures r == if |old(bytes)| < Span(count, width) then Err(Malformed) else Ok(Values(old(bytes), 0, count, width))
      ensures r.Ok? ==> bytes == old(bytes)[Span(count, width)..]
    {
      var values, i := [], 0;
      ghost var left: nat := count;
      while i < count
        invariant i + left == count
        invariant ArrayGoal(old(bytes), count, bytes, left, width, values)
      {
        ArrayStep(old(bytes), count, bytes, left, width, values);
        var v := ExtractInteger(width);
        if v.Err? { return Err(Malformed); }
        values := values + [v.value];
        left := left - 1;
        i := i + 1;
      }
      assert values + [] == values && bytes[0..] == bytes;
      return Ok(values);
    }

    method ExtractPairs(count: nat, a: nat, d: nat) returns (r: Result<seq<(nat, nat)>>)
      modifies this
      ensures r == if |old(bytes)| < Span(count, a + d) then Err(Malformed) else Ok(Pairs(old(bytes), 0, count, a, d))
      ensures r.Ok? ==> bytes == old(bytes)[Span(count, a + d)..]
    {
      var pairs, i := [], 0;
      ghost var left: nat := count;
      while i < count
        invariant i + left == count
        invariant PairsGoal(old(bytes), count, bytes, left, a, d, pairs)
      {
        PairsGoalStep(old(bytes), count, bytes, left, a, d, pairs);
        var p := ExtractPair(a, d);
        if p.Err? { return Err(Malformed); }
        pairs := pairs + [p.value];
        left := left - 1;
        i := i + 1;
      }
      assert pairs + [] == pairs && bytes[0..] == bytes;
      return Ok(pairs);
    }

    /** One round of the loop of extractAddressDataArray. */
    method ExtractPair(a: nat, d: nat) returns (r: Result<(nat, nat)>)
      modifies this
      ensures r == if |old(bytes)| < a + d then Err(Malformed) else Ok((At(old(bytes), 0, a), At(old(bytes), a, d)))
      ensures r.Ok? ==> bytes == old(bytes)[a + d..]
    {
      ghost var b := bytes;
      var x :- ExtractInteger(a);
      if |bytes| >= d { AtSuffix(b, a, 0, d); }
      var y :- ExtractInteger(d);
      assert b[a..][d..] == b[a + d..];
      return Ok((x, y));
    }
  }

  // ---------------------------------------------------------------- Serdes

  class Serdes {
    const cfg: Config
    const maxMessageSize: nat

    ghost predicate Valid() {
      ValidCodec(cfg, maxMessageSize)
    }

    constructor (cfg: Config, max: nat)
      requires ValidCodec(cfg, max)
      ensures this.cfg == cfg && maxMessageSize == max && Valid()
    {
      this.cfg := cfg;
      maxMessageSize := max;
    }

    /** The throwing constructor of the source. */
    static method Create(cfg: Config, max: nat) returns (r: Result<Serdes>)
      requires cfg.Valid()
      ensures r.Ok? <==> max >= 32
      ensures r.Ok? ==> fresh(r.value) && r.value.Valid() && r.value.cfg == cfg && r.value.maxMessageSize == max
      ensures r.Err? ==> r.error == ConstructorSizeError
    {
      if max < MIN_MAX_MESSAGE_SIZE {
        return Err(ConstructorSizeError);
      }
      var s := new Serdes(cfg, max);
      return Ok(s);
    }

    method CalcSize(addrs: nat, datas: nat, lens: nat) returns (r: Result<nat>)
      ensures r == if Size(cfg, addrs, datas, lens) > maxMessageSize then Err(MessageSizeError)
                   else Ok(Size(cfg, addrs, datas, lens))
    {
      var sz := Size(cfg, addrs, datas, lens);
      if sz > maxMessageSize {
        return Err(MessageSizeError);
      }
      return Ok(sz);
    }

    /** The four limits, with the division and the narrowing return of the source. */
    method GetMaxSeqReadCount() returns (n: nat)
      requires Valid()
      ensures n == MaxSeqReadCount(cfg, maxMessageSize)
    {
      OverheadFits(cfg, maxMessageSize);
      n := CountLimit(Size(cfg, 0, 0, 1), cfg.dataBytes);
    }

    method GetMaxSeqWriteCount() returns (n: nat)
      requires Valid()
      ensures n == MaxSeqWriteCount(cfg, maxMessageSize)
    {
      OverheadFits(cfg, maxMessageSize);
      n := CountLimit(Size(cfg, 1, 0, 2), cfg.dataBytes);
    }

    method GetMaxCompReadCount() returns (n: nat)
      requires Valid()
      ensures n == MaxCompReadCount(cfg, maxMessageSize)
    {
      OverheadFits(cfg, maxMessageSize);
      var byCommand := CountLimit(Size(cfg, 0, 0, 1), cfg.addrBytes);
      var byAck := CountLimit(Size(cfg, 0, 0, 1), cfg.dataBytes);
      n := Min(byCommand, byAck);
    }

    method GetMaxCompWriteCount() returns (n: nat)
      requires Valid()
      ensures n == MaxCompWriteCount(cfg, maxMessageSize)
    {
      OverheadFits(cfg, maxMessageSize);
      n := CountLimit(Size(cfg, 0, 0, 1), cfg.addrBytes + cfg.dataBytes);
    }

    method CountLimit(overhead: nat, width: nat) returns (n: nat)
      requires Valid() && overhead <= maxMessageSize && width >= 1
      ensures n == Min(Quotient(maxMessageSize - overhead, width), LengthMax(cfg))
    {
      QuotientIsDivision(maxMessageSize - overhead, width);
      var limit := Min((maxMessageSize - overhead) / width, Pow256(cfg.lenSize) - 1);
      ModUnique(limit, Pow256(cfg.lenSize), 0, limit);
      n := limit % Pow256(cfg.lenSize);
    }

    method MkBuffer(txn: byte, msgType: byte) returns (buf: Buffer)
      ensures fresh(buf) && buf.bytes == [txn, msgType]
    {
      buf := new Buffer();
      buf.PushBack(txn);
      buf.PushBack(msgType);
    }

    /** The argument is narrowed to LengthType before the loop runs. */
    method AppendLength(buf: Buffer, n: nat)
      requires Valid()
      modifies buf
      ensures buf.bytes == old(buf.bytes) + LE(n, cfg.lenBytes)
    {
      NarrowLE(n, cfg.lenSize, cfg.lenBytes);
      buf.AppendInteger(n % Pow256(cfg.lenSize), cfg.lenBytes);
    }

    /** Address, increment and count, which both sequential commands start with. */
    method AppendSeqHeader(buf: Buffer, addr: nat, increment: nat, count: nat)
      requires Valid()
      modifies buf
      ensures buf.bytes == old(buf.bytes) + (LE(addr, cfg.addrBytes) + LE(increment, cfg.lenBytes) + LE(count, cfg.lenBytes))
    {
      buf.AppendInteger(addr, cfg.addrBytes);
      AppendLength(buf, increment);
      AppendLength(buf, count);
    }

    method AppendArray(buf: Buffer, k: Kind, vs: seq<nat>)
      modifies buf
      ensures buf.bytes == old(buf.bytes) + Ser(cfg, Each(k, vs))
    {
      var i := 0;
      while i < |vs|
        invariant i <= |vs|
        invariant old(buf.bytes) + Ser(cfg, Each(k, vs)) == buf.bytes + Ser(cfg, Each(k, vs[i..]))
      {
        assert Each(k, vs[i..]) == [Field(k, vs[i])] + Each(k, vs[i..][1..]);
        assert vs[i..][1..] == vs[i + 1..];
        buf.AppendInteger(vs[i], Width(cfg, k));
        i := i + 1;
      }
      assert vs[i..] == [];
    }

    method AppendPairs(buf: Buffer, ps: seq<(nat, nat)>)
      modifies buf
      ensures buf.bytes == old(buf.bytes) + Ser(cfg, EachPair(ps))
    {
      var i := 0;
      ghost var goal := buf.bytes + Ser(cfg, EachPair(ps));
      assert ps[0..] == ps;
      while i < |ps|
        invariant i <= |ps|
        invariant goal == buf.bytes + Ser(cfg, EachPair(ps[i..]))
      {
        AppendPair(buf, ps, i, goal);
        i := i + 1;
      }
      assert ps[i..] == [];
    }

    method AppendPair(buf: Buffer, ps: seq<(nat, nat)>, i: nat, ghost goal: seq<byte>)
      requires i < |ps| && goal == buf.bytes + Ser(cfg, EachPair(ps[i..]))
      modifies buf
      ensures goal == buf.bytes + Ser(cfg, EachPair(ps[i + 1..]))
    {
      SerPairsStep(cfg, ps, i);
      buf.AppendInteger(ps[i].0, cfg.addrBytes);
      buf.AppendInteger(ps[i].1, cfg.dataBytes);
    }

    method AppendCrc(buf: Buffer)
      requires Valid()
      modifies buf
      ensures buf.bytes == Sealed(cfg, old(buf.bytes))
    {
      var crc, i := Crc.Calculate(cfg.crcBytes, buf.bytes), 0;
      while i < cfg.crcBytes
        invariant i <= cfg.crcBytes
        invariant buf.bytes == old(buf.bytes) + LE(crc, cfg.crcBytes)[..i]
      {
        LEIndex(crc, cfg.crcBytes, i);
        assert LE(crc, cfg.crcBytes)[..i + 1] == LE(crc, cfg.crcBytes)[..i] + [LE(crc, cfg.crcBytes)[i]];
        buf.PushBack(crc / Pow256(i) % 256);
        i := i + 1;
      }
      assert LE(crc, cfg.crcBytes)[..i] == LE(crc, cfg.crcBytes);
    }

    /** Seal the buffer; the closing size assertion is part of the method. */
    method Finish(buf: Buffer, ghost payload: seq<byte>, txn: byte, msgType: byte, sz: nat) returns (b: seq<byte>)
      requires Valid() && buf.bytes == [txn, msgType] + payload && sz == 2 + |payload| + cfg.crcBytes
      modifies buf
      ensures b == Frame(cfg, txn, msgType, payload)
    {
      AppendCrc(buf);
      assert |buf.bytes| == sz;
      b := buf.bytes;
    }

    // -------------------------------------------------------------- encoders

    method EncodeReadSingle(c: Command) returns (r: Result<seq<byte>>)
      requires Valid() && c.ReadSingle?
      ensures r == EncodedCommand(cfg, maxMessageSize, c)
    {
      OverheadFits(cfg, maxMessageSize);
      Ser1(cfg, Field(Addr, c.addr));
      var size := CalcSize(1, 0, 0);
      if size.Err? { return Err(MessageSizeError); }
      var buf := MkBuffer(c.txn, 0x01);
      buf.AppendInteger(c.addr, cfg.addrBytes);
      var b := Finish(buf, Ser(cfg, CommandFields(c)), c.txn, 0x01, size.value);
      return Ok(b);
    }

    method EncodeWriteSingle(c: Command) returns (r: Result<seq<byte>>)
      requires Valid() && c.WriteSingle?
      ensures r == EncodedCommand(cfg, maxMessageSize, c)
    {
      OverheadFits(cfg, maxMessageSize);
      Ser2(cfg, Field(Addr, c.addr), Field(Data, c.data));
      var t: byte := if c.posted then 0x51 else 0x10;
      var size := CalcSize(1, 1, 0);
      if size.Err? { return Err(MessageSizeError); }
      var buf := MkBuffer(c.txn, t);
      buf.AppendInteger(c.addr, cfg.addrBytes);
      buf.AppendInteger(c.data, cfg.dataBytes);
      var b := Finish(buf, Ser(cfg, CommandFields(c)), c.txn, t, size.value);
      return Ok(b);
    }

    method EncodeReadSeq(c: Command) returns (r: Result<seq<byte>>)
      requires Valid() && c.ReadSeq?
      ensures r == EncodedCommand(cfg, maxMessageSize, c)
    {
      var limit := GetMaxSeqReadCount();
      if c.count > limit {
        return Err(MessageSizeError);
      }
      OverheadFits(cfg, maxMessageSize);
      Ser3(cfg, Field(Addr, c.addr), Field(Incr, c.increment), Field(Count, c.count));
      var size := CalcSize(1, 0, 2);
      if size.Err? { return Err(MessageSizeError); }
      var buf := MkBuffer(c.txn, 0x04);
      AppendSeqHeader(buf, c.addr, c.increment, c.count);
      var b := Finish(buf, Ser(cfg, CommandFields(c)), c.txn, 0x04, size.value);
      return Ok(b);
    }

    method EncodeWriteSeq(c: Command) returns (r: Result<seq<byte>>)
      requires Valid() && c.WriteSeq?
      ensures r == EncodedCommand(cfg, maxMessageSize, c)
    {
      var limit := GetMaxSeqWriteCount();
      if |c.values| > limit {
        return Err(MessageSizeError);
      }
      WriteSeqPayload(cfg, c);
      ArrayCommandFits(cfg, maxMessageSize, c);
      var t: byte := if c.posted then 0x54 else 0x15;
      var size := CalcSize(1, |c.values|, 2);
      if size.Err? { return Err(MessageSizeError); }
      var buf := MkBuffer(c.txn, t);
      AppendSeqHeader(buf, c.addr, c.increment, |c.values|);
      AppendArray(buf, Data, c.values);
      var b := Finish(buf, Ser(cfg, CommandFields(c)), c.txn, t, size.value);
      return Ok(b);
    }

    method EncodeReadComp(c: Command) returns (r: Result<seq<byte>>)
      requires Valid() && c.ReadComp?
      ensures r == EncodedCommand(cfg, maxMessageSize, c)
    {
      var limit := GetMaxCompReadCount();
      if |c.addresses| > limit {
        return Err(MessageSizeError);
      }
      CountedPayload(cfg, |c.addresses|, Each(Addr, c.addresses));
      ArrayCommandFits(cfg, maxMessageSize, c);
      var size := CalcSize(|c.addresses|, 0, 1);
      if size.Err? { return Err(MessageSizeError); }
      var buf := MkBuffer(c.txn, 0x08);
      AppendLength(buf, |c.addresses|);
      AppendArray(buf, Addr, c.addresses);
      var b := Finish(buf, Ser(cfg, CommandFields(c)), c.txn, 0x08, size.value);
      return Ok(b);
    }

    method EncodeWriteComp(c: Command) returns (r: Result<seq<byte>>)
      requires Valid() && c.WriteComp?
      ensures r == EncodedCommand(cfg, maxMessageSize, c)
    {
      var limit := GetMaxCompWriteCount();
      if |c.pairs| > limit {
        return Err(MessageSizeError);
      }
      CountedPayload(cfg, |c.pairs|, EachPair(c.pairs));
      ArrayCommandFits(cfg, maxMessageSize, c);
      var t: byte := if c.posted then 0x58 else 0x19;
      var size := CalcSize(|c.pairs|, |c.pairs|, 1);
      if size.Err? { return Err(MessageSizeError); }
      var buf := MkBuffer(c.txn, t);
      AppendLength(buf, |c.pairs|);
      AppendPairs(buf, c.pairs);
      var b := Finish(buf, Ser(cfg, CommandFields(c)), c.txn, t, size.value);
      return Ok(b);
    }

    method EncodeReadModifyWrite(c: Command) returns (r: Result<seq<byte>>)
      requires Valid() && c.ReadModifyWrite?
      ensures r == EncodedCommand(cfg, maxMessageSize, c)
    {
      OverheadFits(cfg, maxMessageSize);
      Ser3(cfg, Field(Addr, c.addr), Field(Data, c.data), Field(Mask, c.mask));
      var t: byte := if c.posted then 0x61 else 0x20;
      var size := CalcSize(1, 2, 0);
      if size.Err? { return Err(MessageSizeError); }
      var buf := MkBuffer(c.txn, t);
      buf.AppendInteger(c.addr, cfg.addrBytes);
      buf.AppendInteger(c.data, cfg.dataBytes);
      buf.AppendInteger(c.mask, cfg.dataBytes);
      var b := Finish(buf, Ser(cfg, CommandFields(c)), c.txn, t, size.value);
      return Ok(b);
    }

    method EncodeCommand(c: Command) returns (r: Result<seq<byte>>)
      requires Valid()
      ensures r == EncodedCommand(cfg, maxMessageSize, c)
    {
      match c
      case ReadSingle(_, _) => r := EncodeReadSingle(c);
      case WriteSingle(_, _, _, _) => r := EncodeWriteSingle(c);
      case ReadSeq(_, _, _, _) => r := EncodeReadSeq(c);
      case WriteSeq(_, _, _, _, _) => r := EncodeWriteSeq(c);
      case ReadComp(_, _) => r := EncodeReadComp(c);
      case WriteComp(_, _, _) => r := EncodeWriteComp(c);
      case ReadModifyWrite(_, _, _, _, _) => r := EncodeReadModifyWrite(c);
    }

    /** The four acknowledges without payload. */
    method EncodeEmpty(txn: byte, msgType: byte) returns (r: Result<seq<byte>>)
      requires Valid()
      ensures r == Ok(Frame(cfg, txn, msgType, []))
    {
      var size := CalcSize(0, 0, 0);
      if size.Err? { return Err(MessageSizeError); }
      var buf := MkBuffer(txn, msgType);
      assert buf.bytes == [txn, msgType] + [];
      var b := Finish(buf, [], txn, msgType, size.value);
      return Ok(b);
    }

    /** The responses that carry one data-wide word: the single read acknowledge, every NAK, the interrupt. */
    method EncodeWord(txn: byte, msgType: byte, word: nat) returns (r: Result<seq<byte>>)
      requires Valid()
      ensures r == Ok(Frame(cfg, txn, msgType, LE(word, cfg.dataBytes)))
    {
      OverheadFits(cfg, maxMessageSize);
      var size := CalcSize(0, 1, 0);
      if size.Err? { return Err(MessageSizeError); }
      var buf := MkBuffer(txn, msgType);
      buf.AppendInteger(word, cfg.dataBytes);
      var b := Finish(buf, LE(word, cfg.dataBytes), txn, msgType, size.value);
      return Ok(b);
    }

    /** What the two acknowledges that carry a data array do after their guards. */
    method EncodeArray(txn: byte, msgType: byte, values: seq<nat>) returns (r: Result<seq<byte>>)
      requires Valid()
      ensures r == if Size(cfg, 0, |values|, 1) > maxMessageSize then Err(MessageSizeError)
                   else Ok(Frame(cfg, txn, msgType, LE(|values|, cfg.lenBytes) + Ser(cfg, Each(Data, values))))
    {
      SerEachSize(cfg, Data, values);
      var size := CalcSize(0, |values|, 1);
      if size.Err? { return Err(MessageSizeError); }
      var buf := MkBuffer(txn, msgType);
      AppendLength(buf, |values|);
      AppendArray(buf, Data, values);
      ghost var payload := LE(|values|, cfg.lenBytes) + Ser(cfg, Each(Data, values));
      var b := Finish(buf, payload, txn, msgType, size.value);
      return Ok(b);
    }

    method EncodeReadSeqAck(resp: Response) returns (r: Result<seq<byte>>)
      requires Valid() && resp.ReadSeqAck?
      ensures r == EncodedResponse(cfg, maxMessageSize, resp)
    {
      var limit := GetMaxSeqReadCount();
      if |resp.values| > limit {
        return Err(MessageSizeError);
      }
      CountedPayload(cfg, |resp.values|, Each(Data, resp.values));
      ArrayResponseFits(cfg, maxMessageSize, resp);
      r := EncodeArray(resp.txn, 0x85, resp.values);
    }

    method EncodeReadCompAck(resp: Response) returns (r: Result<seq<byte>>)
      requires Valid() && resp.ReadCompAck?
      ensures r == EncodedResponse(cfg, maxMessageSize, resp)
    {
      var limit := GetMaxCompReadCount();
      if |resp.values| > limit {
        return Err(MessageSizeError);
      }
      CountedPayload(cfg, |resp.values|, Each(Data, resp.values));
      ArrayResponseFits(cfg, maxMessageSize, resp);
      r := EncodeArray(resp.txn, 0x89, resp.values);
    }

    method EncodeResponse(resp: Response) returns (r: Result<seq<byte>>)
      requires Valid()
      ensures r == EncodedResponse(cfg, maxMessageSize, resp)
    {
      if resp.ReadSeqAck? {
        r := EncodeReadSeqAck(resp);
      } else if resp.ReadCompAck? {
        r := EncodeReadCompAck(resp);
      } else if resp.ReadSingleAck? {
        Ser1(cfg, Field(Data, resp.data));
        r := EncodeWord(resp.txn, 0x80, resp.data);
      } else if resp.WriteSingleAck? || resp.WriteSeqAck? || resp.WriteCompAck? || resp.ReadModifyWriteAck? {
        r := EncodeEmpty(resp.txn, ResponseType(resp));
      } else {
        Ser1(cfg, Field(Status, resp.status));
        r := EncodeWord(resp.txn, ResponseType(resp), resp.status);
      }
    }

    // -------------------------------------------------------------- decoders

    method DecodeReadSingle(buf: BufferView, txn: byte) returns (r: Result<Command>)
      modifies buf
      ensures r == DecodedReadSingle(cfg, txn, old(buf.bytes))
    {
      var addr :- buf.ExtractInteger(cfg.addrBytes);
      if |buf.bytes| != 0 { return Err(Malformed); }
      return Ok(ReadSingle(txn, addr));
    }

    method DecodeWriteSingle(buf: BufferView, txn: byte, posted: bool) returns (r: Result<Command>)
      modifies buf
      ensures r == DecodedWriteSingle(cfg, txn, posted, old(buf.bytes))
    {
      ghost var p := buf.bytes;
      var addr :- buf.ExtractInteger(cfg.addrBytes);
      if |buf.bytes| >= cfg.dataBytes { AtSuffix(p, cfg.addrBytes, 0, cfg.dataBytes); }
      var data :- buf.ExtractInteger(cfg.dataBytes);
      if |buf.bytes| != 0 { return Err(Malformed); }
      return Ok(WriteSingle(txn, posted, addr, data));
    }

    /** Address, increment and count, which both sequential commands start with. */
    method ExtractSeqHeader(buf: BufferView) returns (r: Result<(nat, nat, nat)>)
      modifies buf
      ensures var (p, A, L) := (old(buf.bytes), cfg.addrBytes, cfg.lenBytes);
        && (r.Err? <==> |p| < A + L + L) && (r.Err? ==> r == Err(Malformed))
        && (r.Ok? ==> r.value == (At(p, 0, A), At(p, A, L), At(p, A + L, L)) && buf.bytes == p[A + L + L..])
    {
      ghost var p, A, L := buf.bytes, cfg.addrBytes, cfg.lenBytes;
      if |p| >= A + L + L { SecondAndThird(p, A, L, L); }
      var addr :- buf.ExtractInteger(cfg.addrBytes);
      var increment :- buf.ExtractInteger(cfg.lenBytes);
      var count :- buf.ExtractInteger(cfg.lenBytes);
      return Ok((addr, increment, count));
    }

    method DecodeReadSeq(buf: BufferView, txn: byte) returns (r: Result<Command>)
      modifies buf
      ensures r == DecodedReadSeq(cfg, txn, old(buf.bytes))
    {
      var header :- ExtractSeqHeader(buf);
      var (addr, increment, count) := header;
      if |buf.bytes| != 0 { return Err(Malformed); }
      return Ok(ReadSeq(txn, addr, increment, count));
    }

    method DecodeWriteSeq(buf: BufferView, txn: byte, posted: bool) returns (r: Result<Command>)
      modifies buf
      ensures r == DecodedWriteSeq(cfg, txn, posted, old(buf.bytes))
    {
      ghost var p, off := buf.bytes, cfg.addrBytes + cfg.lenBytes + cfg.lenBytes;
      var header :- ExtractSeqHeader(buf);
      var (addr, increment, count) := header;
      var expected := ElementBytes(count, cfg.dataBytes);
      if |buf.bytes| != expected { return Err(BufferSizeError); }
      ValuesSuffix(p, off, 0, count, cfg.dataBytes);
      var values := buf.ExtractArray(count, cfg.dataBytes);
      if values.Err? || |buf.bytes| != 0 { return Err(Malformed); }
      return Ok(WriteSeq(txn, posted, addr, increment, values.value));
    }

    method DecodeReadComp(buf: BufferView, txn: byte) returns (r: Result<Command>)
      modifies buf
      ensures r == DecodedReadComp(cfg, txn, old(buf.bytes))
    {
      ghost var p := buf.bytes;
      var count :- buf.ExtractInteger(cfg.lenBytes);
      var expected := ElementBytes(count, cfg.addrBytes);
      if |buf.bytes| != expected { return Err(BufferSizeError); }
      ValuesSuffix(p, cfg.lenBytes, 0, count, cfg.addrBytes);
      var addresses := buf.ExtractArray(count, cfg.addrBytes);
      if addresses.Err? || |buf.bytes| != 0 { return Err(Malformed); }
      return Ok(ReadComp(txn, addresses.value));
    }

    method DecodeWriteComp(buf: BufferView, txn: byte, posted: bool) returns (r: Result<Command>)
      modifies buf
      ensures r == DecodedWriteComp(cfg, txn, posted, old(buf.bytes))
    {
      ghost var p := buf.bytes;
      var count :- buf.ExtractInteger(cfg.lenBytes);
      var expected := ElementBytes(count, cfg.addrBytes + cfg.dataBytes);
      if |buf.bytes| != expected { return Err(BufferSizeError); }
      PairsSuffix(p, cfg.lenBytes, 0, count, cfg.addrBytes, cfg.dataBytes);
      var pairs := buf.ExtractPairs(count, cfg.addrBytes, cfg.dataBytes);
      if pairs.Err? || |buf.bytes| != 0 { return Err(Malformed); }
      return Ok(WriteComp(txn, posted, pairs.value));
    }

    method DecodeReadModifyWrite(buf: BufferView, txn: byte, posted: bool) returns (r: Result<Command>)
      modifies buf
      ensures r == DecodedReadModifyWrite(cfg, txn, posted, old(buf.bytes))
    {
      ghost var p, A, D := buf.bytes, cfg.addrBytes, cfg.dataBytes;
      if |p| >= A + D + D { SecondAndThird(p, A, D, D); }
      var addr :- buf.ExtractInteger(cfg.addrBytes);
      var data :- buf.ExtractInteger(cfg.dataBytes);
      var mask :- buf.ExtractInteger(cfg.dataBytes);
      if |buf.bytes| != 0 { return Err(Malformed); }
      return Ok(ReadModifyWrite(txn, posted, addr, data, mask));
    }

    method ExtractCrc(buf: BufferView) returns (r: Result<nat>)
      modifies buf
      ensures r == if |old(buf.bytes)| < cfg.crcBytes then Err(Malformed) else Ok(WireCrc(cfg, old(buf.bytes)))
      ensures buf.bytes == if r.Err? then old(buf.bytes) else Body(cfg, old(buf.bytes))
    {
      if |buf.bytes| < cfg.crcBytes { return Err(Malformed); }
      var tail := new BufferView(buf.bytes[|buf.bytes| - cfg.crcBytes..]);
      assert tail.bytes[0..cfg.crcBytes] == tail.bytes;
      r := tail.ExtractInteger(cfg.crcBytes);
      buf.bytes := buf.bytes[..|buf.bytes| - cfg.crcBytes];
    }

    method ExtractByte(buf: BufferView) returns (r: Result<byte>)
      modifies buf
      ensures r == if old(buf.bytes) == [] then Err(Malformed) else Ok(old(buf.bytes)[0])
      ensures buf.bytes == if old(buf.bytes) == [] then [] else old(buf.bytes)[1..]
    {
      if |buf.bytes| < 1 { return Err(Malformed); }
      var v := buf.bytes[0];
      buf.bytes := buf.bytes[1..];
      return Ok(v);
    }

    /** The opening of both decoders: cut the CRC off the end, check it, and take the two header bytes. */
    method OpenFrame(buf: BufferView) returns (r: Result<(byte, byte)>)
      requires Valid()
      modifies buf
      ensures r.Err? ==> Unseal(cfg, old(buf.bytes)) == Err(r.error)
      ensures r.Ok? ==> Unseal(cfg, old(buf.bytes)) == Ok(buf.bytes)
      ensures r.Ok? ==> r.value == (old(buf.bytes)[0], old(buf.bytes)[1])
    {
      ghost var b := buf.bytes;
      if |buf.bytes| < 2 + cfg.crcBytes { return Err(Malformed); }
      var wire := ExtractCrc(buf);
      if wire.Err? { return Err(Malformed); }
      var expected := Crc.Calculate(cfg.crcBytes, buf.bytes);
      if wire.value != expected { return Err(CrcMismatch(expected, wire.value)); }
      var txn := ExtractByte(buf);
      var msgType := ExtractByte(buf);
      if txn.Err? || msgType.Err? { return Err(Malformed); }
      assert buf.bytes == Payload(cfg, b);
      return Ok((txn.value, msgType.value));
    }

    method DecodeCommand(b: seq<byte>) returns (r: Result<Command>)
      requires Valid()
      ensures r == DecodedCommand(cfg, b)
    {
      var buf := new BufferView(b);
      var header :- OpenFrame(buf);
      var (txn, t) := header;
      if t == 0x01 { r := DecodeReadSingle(buf, txn); }
      else if t == 0x10 || t == 0x51 { r := DecodeWriteSingle(buf, txn, t == 0x51); }
      else if t == 0x04 { r := DecodeReadSeq(buf, txn); }
      else if t == 0x15 || t == 0x54 { r := DecodeWriteSeq(buf, txn, t == 0x54); }
      else if t == 0x08 { r := DecodeReadComp(buf, txn); }
      else if t == 0x19 || t == 0x58 { r := DecodeWriteComp(buf, txn, t == 0x58); }
      else if t == 0x20 || t == 0x61 { r := DecodeReadModifyWrite(buf, txn, t == 0x61); }
      else { r := Err(UnexpectedMessageType); }
    }

    method DecodeWord(buf: BufferView) returns (r: Result<nat>)
      modifies buf
      ensures r == DecodedWord(cfg, old(buf.bytes))
    {
      var v :- buf.ExtractInteger(cfg.dataBytes);
      if |buf.bytes| != 0 { return Err(Malformed); }
      return Ok(v);
    }

    method DecodeArray(buf: BufferView) returns (r: Result<seq<nat>>)
      modifies buf
      ensures r == DecodedArray(cfg, old(buf.bytes))
    {
      ghost var p := buf.bytes;
      var count :- buf.ExtractInteger(cfg.lenBytes);
      if |p| >= cfg.lenBytes + Span(count, cfg.dataBytes) { ValuesSuffix(p, cfg.lenBytes, 0, count, cfg.dataBytes); }
      var values := buf.ExtractArray(count, cfg.dataBytes);
      if values.Err? || |buf.bytes| != 0 { return Err(Malformed); }
      return values;
    }

    method DecodeEmpty(buf: BufferView) returns (r: Result<()>)
      ensures r == DecodedEmpty(buf.bytes)
    {
      if |buf.bytes| != 0 { return Err(Malformed); }
      return Ok(());
    }

    method DecodeResponse(b: seq<byte>) returns (r: Result<Response>)
      requires Valid()
      ensures r == DecodedResponse(cfg, b)
    {
      var buf := new BufferView(b);
      var header :- OpenFrame(buf);
      var (txn, t) := header;
      if t == 0x80 { var d :- DecodeWord(buf); return Ok(ReadSingleAck(txn, d)); }
      else if t == 0xC1 { var s :- DecodeWord(buf); return Ok(ReadSingleNak(txn, s)); }
      else if t == 0x91 { var _ :- DecodeEmpty(buf); return Ok(WriteSingleAck(txn)); }
      else if t == 0xD0 { var s :- DecodeWord(buf); return Ok(WriteSingleNak(txn, s)); }
      else if t == 0x85 { var vs :- DecodeArray(buf); return Ok(ReadSeqAck(txn, vs)); }
      else if t == 0xC4 { var s :- DecodeWord(buf); return Ok(ReadSeqNak(txn, s)); }
      else if t == 0x94 { var _ :- DecodeEmpty(buf); return Ok(WriteSeqAck(txn)); }
      else if t == 0xD5 { var s :- DecodeWord(buf); return Ok(WriteSeqNak(txn, s)); }
      else if t == 0x89 { var vs :- DecodeArray(buf); return Ok(ReadCompAck(txn, vs)); }
      else if t == 0xC8 { var s :- DecodeWord(buf); return Ok(ReadCompNak(txn, s)); }
      else if t == 0x98 { var _ :- DecodeEmpty(buf); return Ok(WriteCompAck(txn)); }
      else if t == 0xD9 { var s :- DecodeWord(buf); return Ok(WriteCompNak(txn, s)); }
      else if t == 0xA1 { var _ :- DecodeEmpty(buf); return Ok(ReadModifyWriteAck(txn)); }
      else if t == 0xE0 { var s :- DecodeWord(buf); return Ok(ReadModifyWriteNak(txn, s)); }
      else if t == 0xB0 { var s :- DecodeWord(buf); return Ok(Interrupt(txn, s)); }
      return Err(UnexpectedMessageType);
    }
  }
}
