/** What the two decoders accept and return, stated by positions in the buffer, and the exact-inverse theorem. */
module Codec {
  import opened Bytes
  import opened Messages
  import Crc

  /** The integer of `w` bytes at offset `off`. */
  function At(p: seq<byte>, off: nat, w: nat): nat
    requires off + w <= |p|
  {
    FromLE(p[off..off + w])
  }

  function Values(p: seq<byte>, off: nat, n: nat, w: nat): (vs: seq<nat>)
    requires off + Span(n, w) <= |p|
    ensures |vs| == n
    decreases n
  {
    if n == 0 then [] else [At(p, off, w)] + Values(p, off + w, n - 1, w)
  }

  function Pairs(p: seq<byte>, off: nat, n: nat, a: nat, d: nat): (ps: seq<(nat, nat)>)
    requires off + Span(n, a + d) <= |p|
    ensures |ps| == n
    decreases n
  {
    if n == 0 then [] else [(At(p, off, a), At(p, off + a, d))] + Pairs(p, off + a + d, n - 1, a, d)
  }

  function WireCrc(cfg: Config, b: seq<byte>): nat
    requires cfg.crcBytes <= |b|
  {
    FromLE(b[|b| - cfg.crcBytes..])
  }

  function Body(cfg: Config, b: seq<byte>): seq<byte>
    requires cfg.crcBytes <= |b|
  {
    b[..|b| - cfg.crcBytes]
  }

  function Payload(cfg: Config, b: seq<byte>): seq<byte>
    requires 2 + cfg.crcBytes <= |b|
  {
    b[2..|b| - cfg.crcBytes]
  }

  /** The checks both decoders share: enough bytes, then a matching CRC. */
  function Unseal(cfg: Config, b: seq<byte>): Result<seq<byte>>
    requires cfg.Valid()
  {
    if |b| < 2 + cfg.crcBytes then Err(Malformed)
    else if WireCrc(cfg, b) != Crc.Calculate(cfg.crcBytes, Body(cfg, b)) then
      Err(CrcMismatch(Crc.Calculate(cfg.crcBytes, Body(cfg, b)), WireCrc(cfg, b)))
    else Ok(Payload(cfg, b))
  }

  function DecodedCommand(cfg: Config, b: seq<byte>): Result<Command>
    requires cfg.Valid()
  {
    var p :- Unseal(cfg, b);
    DecodedCommandPayload(cfg, b[0], b[1], p)
  }

  function DecodedResponse(cfg: Config, b: seq<byte>): Result<Response>
    requires cfg.Valid()
  {
    var p :- Unseal(cfg, b);
    DecodedResponsePayload(cfg, b[0], b[1], p)
  }

  function DecodedReadSingle(cfg: Config, txn: byte, p: seq<byte>): (r: Result<Command>) {
    if |p| != cfg.addrBytes then Err(Malformed) else Ok(ReadSingle(txn, At(p, 0, cfg.addrBytes)))
  }

  function DecodedWriteSingle(cfg: Config, txn: byte, posted: bool, p: seq<byte>): (r: Result<Command>) {
    var A, D := cfg.addrBytes, cfg.dataBytes;
    if |p| != A + D then Err(Malformed) else Ok(WriteSingle(txn, posted, At(p, 0, A), At(p, A, D)))
  }

  function DecodedReadSeq(cfg: Config, txn: byte, p: seq<byte>): (r: Result<Command>) {
    var A, L := cfg.addrBytes, cfg.lenBytes;
    if |p| != A + L + L then Err(Malformed) else Ok(ReadSeq(txn, At(p, 0, A), At(p, A, L), At(p, A + L, L)))
  }

  function DecodedWriteSeq(cfg: Config, txn: byte, posted: bool, p: seq<byte>): (r: Result<Command>) {
    var A, D, L := cfg.addrBytes, cfg.dataBytes, cfg.lenBytes;
    if |p| < A + L + L then Err(Malformed) else
      var n := At(p, A + L, L);
      if |p| != A + L + L + Span(n, D) then Err(BufferSizeError)
      else Ok(WriteSeq(txn, posted, At(p, 0, A), At(p, A, L), Values(p, A + L + L, n, D)))
  }

  function DecodedReadComp(cfg: Config, txn: byte, p: seq<byte>): (r: Result<Command>) {
    var A, L := cfg.addrBytes, cfg.lenBytes;
    if |p| < L then Err(Malformed) else
      var n := At(p, 0, L);
      if |p| != L + Span(n, A) then Err(BufferSizeError) else Ok(ReadComp(txn, Values(p, L, n, A)))
  }

  function DecodedWriteComp(cfg: Config, txn: byte, posted: bool, p: seq<byte>): (r: Result<Command>) {
    var A, D, L := cfg.addrBytes, cfg.dataBytes, cfg.lenBytes;
    if |p| < L then Err(Malformed) else
      var n := At(p, 0, L);
      if |p| != L + Span(n, A + D) then Err(BufferSizeError) else Ok(WriteComp(txn, posted, Pairs(p, L, n, A, D)))
  }

  function DecodedReadModifyWrite(cfg: Config, txn: byte, posted: bool, p: seq<byte>): (r: Result<Command>) {
    var A, D := cfg.addrBytes, cfg.dataBytes;
    if |p| != A + D + D then Err(Malformed)
    else Ok(ReadModifyWrite(txn, posted, At(p, 0, A), At(p, A, D), At(p, A + D, D)))
  }

  function DecodedCommandPayload(cfg: Config, txn: byte, t: byte, p: seq<byte>): Result<Command> {
    if t == 0x01 then DecodedReadSingle(cfg, txn, p)
    else if t == 0x10 || t == 0x51 then DecodedWriteSingle(cfg, txn, t == 0x51, p)
    else if t == 0x04 then DecodedReadSeq(cfg, txn, p)
    else if t == 0x15 || t == 0x54 then DecodedWriteSeq(cfg, txn, t == 0x54, p)
    else if t == 0x08 then DecodedReadComp(cfg, txn, p)
    else if t == 0x19 || t == 0x58 then DecodedWriteComp(cfg, txn, t == 0x58, p)
    else if t == 0x20 || t == 0x61 then DecodedReadModifyWrite(cfg, txn, t == 0x61, p)
    else Err(UnexpectedMessageType)
  }

  /** The data array of an acknowledge, whose length is not checked before the elements are cut. */
  function DecodedArray(cfg: Config, p: seq<byte>): (r: Result<seq<nat>>) {
    if |p| < cfg.lenBytes then Err(Malformed) else
      var n := At(p, 0, cfg.lenBytes);
      if |p| != cfg.lenBytes + Span(n, cfg.dataBytes) then Err(Malformed) else Ok(Values(p, cfg.lenBytes, n, cfg.dataBytes))
  }

  function DecodedWord(cfg: Config, p: seq<byte>): Result<nat> {
    if |p| != cfg.dataBytes then Err(Malformed) else Ok(At(p, 0, cfg.dataBytes))
  }

  function DecodedEmpty(p: seq<byte>): Result<()> {
    if p != [] then Err(Malformed) else Ok(())
  }

  function DecodedResponsePayload(cfg: Config, txn: byte, t: byte, p: seq<byte>): Result<Response> {
    if t == 0x80 then var d :- DecodedWord(cfg, p); Ok(ReadSingleAck(txn, d))
    else if t == 0xC1 then var s :- DecodedWord(cfg, p); Ok(ReadSingleNak(txn, s))
    else if t == 0x91 then var _ :- DecodedEmpty(p); Ok(WriteSingleAck(txn))
    else if t == 0xD0 then var s :- DecodedWord(cfg, p); Ok(WriteSingleNak(txn, s))
    else if t == 0x85 then var vs :- DecodedArray(cfg, p); Ok(ReadSeqAck(txn, vs))
    else if t == 0xC4 then var s :- DecodedWord(cfg, p); Ok(ReadSeqNak(txn, s))
    else if t == 0x94 then var _ :- DecodedEmpty(p); Ok(WriteSeqAck(txn))
    else if t == 0xD5 then var s :- DecodedWord(cfg, p); Ok(WriteSeqNak(txn, s))
    else if t == 0x89 then var vs :- DecodedArray(cfg, p); Ok(ReadCompAck(txn, vs))
    else if t == 0xC8 then var s :- DecodedWord(cfg, p); Ok(ReadCompNak(txn, s))
    else if t == 0x98 then var _ :- DecodedEmpty(p); Ok(WriteCompAck(txn))
    else if t == 0xD9 then var s :- DecodedWord(cfg, p); Ok(WriteCompNak(txn, s))
    else if t == 0xA1 then var _ :- DecodedEmpty(p); Ok(ReadModifyWriteAck(txn))
    else if t == 0xE0 then var s :- DecodedWord(cfg, p); Ok(ReadModifyWriteNak(txn, s))
    else if t == 0xB0 then var s :- DecodedWord(cfg, p); Ok(Interrupt(txn, s))
    else Err(UnexpectedMessageType)
  }

  // ---------------------------------------------------------------- cutting fields and writing fields

  /** From `off` to its end, `p` holds exactly the fields `fs`. */
  ghost predicate Reads(cfg: Config, fs: seq<Field>, p: seq<byte>, off: nat)
    decreases |fs|
  {
    if fs == [] then off == |p| else
      var w := Width(cfg, fs[0].kind);
      off + w <= |p| && At(p, off, w) == fs[0].value && Reads(cfg, fs[1..], p, off + w)
  }

  lemma InRangeCons(cfg: Config, fs: seq<Field>)
    requires fs != []
    ensures InRange(cfg, fs) <==> fs[0].value < Pow256(Width(cfg, fs[0].kind)) && InRange(cfg, fs[1..])
  {
    if fs[0].value < Pow256(Width(cfg, fs[0].kind)) && InRange(cfg, fs[1..]) {
      forall i | 0 <= i < |fs| ensures fs[i].value < Pow256(Width(cfg, fs[i].kind)) {
        if i > 0 { assert fs[1..][i - 1] == fs[i]; }
      }
    }
  }

  lemma {:induction false} ReadsIsSer(cfg: Config, fs: seq<Field>, p: seq<byte>, off: nat)
    requires off <= |p| && Reads(cfg, fs, p, off)
    ensures p[off..] == Ser(cfg, fs) && InRange(cfg, fs)
    decreases |fs|
  {
    if fs != [] {
      var w := Width(cfg, fs[0].kind);
      ReadsIsSer(cfg, fs[1..], p, off + w);
      FromLEBound(p[off..off + w]);
      LEOfFromLE(p[off..off + w]);
      assert p[off..] == p[off..off + w] + p[off + w..];
      InRangeCons(cfg, fs);
    }
  }

  lemma {:induction false} SerReads(cfg: Config, fs: seq<Field>, p: seq<byte>, off: nat)
    requires off <= |p| && p[off..] == Ser(cfg, fs) && InRange(cfg, fs)
    ensures Reads(cfg, fs, p, off)
    decreases |fs|
  {
    if fs != [] {
      var v, w, rest := fs[0].value, Width(cfg, fs[0].kind), Ser(cfg, fs[1..]);
      assert p[off..] == LE(v, w) + rest;
      assert |p| - off == w + |rest|;
      assert p[off..off + w] == p[off..][..w] == LE(v, w);
      assert p[off + w..] == p[off..][w..] == rest;
      InRangeCons(cfg, fs);
      FromLEOfLE(v, w);
      ModUnique(v, Pow256(w), 0, v);
      SerReads(cfg, fs[1..], p, off + w);
    }
  }

  /** Cutting is the exact inverse of writing in-range fields. */
  lemma ReadsIffSer(cfg: Config, fs: seq<Field>, p: seq<byte>, off: nat)
    requires off <= |p|
    ensures Reads(cfg, fs, p, off) <==> p[off..] == Ser(cfg, fs) && InRange(cfg, fs)
  {
    if Reads(cfg, fs, p, off) { ReadsIsSer(cfg, fs, p, off); }
    if p[off..] == Ser(cfg, fs) && InRange(cfg, fs) { SerReads(cfg, fs, p, off); }
  }

  lemma ValuesCons(p: seq<byte>, off: nat, vs: seq<nat>, w: nat)
    requires vs != [] && off + Span(|vs|, w) <= |p|
    ensures vs == Values(p, off, |vs|, w) <==> vs[0] == At(p, off, w) && vs[1..] == Values(p, off + w, |vs| - 1, w)
  {
    var rest := Values(p, off + w, |vs| - 1, w);
    assert vs == [vs[0]] + vs[1..];
    assert ([At(p, off, w)] + rest)[1..] == rest;
  }

  lemma {:induction false} ReadsEach(cfg: Config, k: Kind, vs: seq<nat>, p: seq<byte>, off: nat)
    requires off <= |p|
    ensures var w := Width(cfg, k);
            Reads(cfg, Each(k, vs), p, off) <==> |p| == off + Span(|vs|, w) && vs == Values(p, off, |vs|, w)
    decreases |vs|
  {
    var w := Width(cfg, k);
    if vs != [] {
      Reads1(cfg, Field(k, vs[0]), Each(k, vs[1..]), p, off);
      assert Span(|vs|, w) == w + Span(|vs[1..]|, w);
      if off + w <= |p| {
        ReadsEach(cfg, k, vs[1..], p, off + w);
        if |p| == off + Span(|vs|, w) { ValuesCons(p, off, vs, w); }
      }
    }
  }

  lemma PairsCons(p: seq<byte>, off: nat, ps: seq<(nat, nat)>, a: nat, d: nat)
    requires ps != [] && off + Span(|ps|, a + d) <= |p|
    ensures ps == Pairs(p, off, |ps|, a, d)
            <==> ps[0] == (At(p, off, a), At(p, off + a, d)) && ps[1..] == Pairs(p, off + a + d, |ps| - 1, a, d)
  {
    var rest := Pairs(p, off + a + d, |ps| - 1, a, d);
    assert ps == [ps[0]] + ps[1..];
    assert ([(At(p, off, a), At(p, off + a, d))] + rest)[1..] == rest;
  }

  lemma SpanAtLeast(n: nat, w: nat)
    requires n >= 1
    ensures Span(n, w) >= w
  {
    assert Span(n, w) == w + Span(n - 1, w);
  }

  lemma PairsStep(p: seq<byte>, off: nat, ps: seq<(nat, nat)>, a: nat, d: nat)
    requires ps != [] && off + a + d <= |p|
    ensures |p| == off + Span(|ps|, a + d) && ps == Pairs(p, off, |ps|, a, d)
            <==> && ps[0] == (At(p, off, a), At(p, off + a, d))
                 && |p| == off + a + d + Span(|ps| - 1, a + d) && ps[1..] == Pairs(p, off + a + d, |ps| - 1, a, d)
  {
    assert Span(|ps|, a + d) == a + d + Span(|ps| - 1, a + d);
    if |p| == off + Span(|ps|, a + d) { PairsCons(p, off, ps, a, d); }
  }

  lemma ReadsPair(cfg: Config, ps: seq<(nat, nat)>, p: seq<byte>, off: nat)
    requires ps != []
    ensures var a, d := cfg.addrBytes, cfg.dataBytes;
            Reads(cfg, EachPair(ps), p, off) <==>
            off + a + d <= |p| && ps[0] == (At(p, off, a), At(p, off + a, d)) && Reads(cfg, EachPair(ps[1..]), p, off + a + d)
  {
    var x, y, rest := Field(Addr, ps[0].0), Field(Data, ps[0].1), EachPair(ps[1..]);
    assert EachPair(ps) == [x] + ([y] + rest);
    Reads1(cfg, x, [y] + rest, p, off);
    Reads1(cfg, y, rest, p, off + cfg.addrBytes);
  }

  lemma {:induction false} ReadsEachPair(cfg: Config, ps: seq<(nat, nat)>, p: seq<byte>, off: nat)
    requires off <= |p|
    ensures var a, d := cfg.addrBytes, cfg.dataBytes;
            Reads(cfg, EachPair(ps), p, off) <==> |p| == off + Span(|ps|, a + d) && ps == Pairs(p, off, |ps|, a, d)
    decreases |ps|
  {
    var a, d := cfg.addrBytes, cfg.dataBytes;
    if ps != [] {
      ReadsPair(cfg, ps, p, off);
      if off + a + d <= |p| {
        ReadsEachPair(cfg, ps[1..], p, off + a + d);
        PairsStep(p, off, ps, a, d);
      } else {
        SpanAtLeast(|ps|, a + d);
      }
    }
  }

  lemma Reads1(cfg: Config, f: Field, rest: seq<Field>, p: seq<byte>, off: nat)
    ensures Reads(cfg, [f] + rest, p, off) <==>
            off + Width(cfg, f.kind) <= |p| && At(p, off, Width(cfg, f.kind)) == f.value
            && Reads(cfg, rest, p, off + Width(cfg, f.kind))
  {
    assert ([f] + rest)[1..] == rest;
  }

  lemma TwoFirst<T>(x: T, y: T, rest: seq<T>)
    ensures [x, y] + rest == [x] + ([y] + rest)
  {
  }

  lemma Reads2(cfg: Config, f: Field, g: Field, rest: seq<Field>, p: seq<byte>)
    ensures var a, b := Width(cfg, f.kind), Width(cfg, g.kind);
            Reads(cfg, [f, g] + rest, p, 0) <==>
            a + b <= |p| && At(p, 0, a) == f.value && At(p, a, b) == g.value && Reads(cfg, rest, p, a + b)
  {
    TwoFirst(f, g, rest);
    Reads1(cfg, f, [g] + rest, p, 0);
    Reads1(cfg, g, rest, p, Width(cfg, f.kind));
  }

  lemma Reads3(cfg: Config, f: Field, g: Field, h: Field, rest: seq<Field>, p: seq<byte>)
    ensures var a, b, c := Width(cfg, f.kind), Width(cfg, g.kind), Width(cfg, h.kind);
            Reads(cfg, [f, g, h] + rest, p, 0) <==>
            a + b + c <= |p| && At(p, 0, a) == f.value && At(p, a, b) == g.value && At(p, a + b, c) == h.value
            && Reads(cfg, rest, p, a + b + c)
  {
    var tail := [h] + rest;
    assert [f, g, h] + rest == [f, g] + tail;
    Reads2(cfg, f, g, tail, p);
    var off := Width(cfg, f.kind) + Width(cfg, g.kind);
    Reads1(cfg, h, rest, p, off);
  }

  lemma ReadSingleExact(cfg: Config, p: seq<byte>, c: Command)
    requires c.ReadSingle?
    ensures DecodedReadSingle(cfg, c.txn, p) == Ok(c) <==> Reads(cfg, CommandFields(c), p, 0)
  {
    Reads1(cfg, Field(Addr, c.addr), [], p, 0);
  }

  lemma WriteSingleExact(cfg: Config, p: seq<byte>, c: Command)
    requires c.WriteSingle?
    ensures DecodedWriteSingle(cfg, c.txn, c.posted, p) == Ok(c) <==> Reads(cfg, CommandFields(c), p, 0)
  {
    assert CommandFields(c) + [] == CommandFields(c);
    Reads2(cfg, Field(Addr, c.addr), Field(Data, c.data), [], p);
  }

  lemma ReadSeqExact(cfg: Config, p: seq<byte>, c: Command)
    requires c.ReadSeq?
    ensures DecodedReadSeq(cfg, c.txn, p) == Ok(c) <==> Reads(cfg, CommandFields(c), p, 0)
  {
    assert CommandFields(c) + [] == CommandFields(c);
    Reads3(cfg, Field(Addr, c.addr), Field(Incr, c.increment), Field(Count, c.count), [], p);
  }

  lemma WriteSeqExact(cfg: Config, p: seq<byte>, c: Command)
    requires c.WriteSeq?
    ensures DecodedWriteSeq(cfg, c.txn, c.posted, p) == Ok(c) <==> Reads(cfg, CommandFields(c), p, 0)
  {
    Reads3(cfg, Field(Addr, c.addr), Field(Incr, c.increment), Field(Count, |c.values|), Each(Data, c.values), p);
    var off := cfg.addrBytes + cfg.lenBytes + cfg.lenBytes;
    if off <= |p| { ReadsEach(cfg, Data, c.values, p, off); }
  }

  lemma ReadCompExact(cfg: Config, p: seq<byte>, c: Command)
    requires c.ReadComp?
    ensures DecodedReadComp(cfg, c.txn, p) == Ok(c) <==> Reads(cfg, CommandFields(c), p, 0)
  {
    Reads1(cfg, Field(Count, |c.addresses|), Each(Addr, c.addresses), p, 0);
    if cfg.lenBytes <= |p| { ReadsEach(cfg, Addr, c.addresses, p, cfg.lenBytes); }
  }

  lemma WriteCompExact(cfg: Config, p: seq<byte>, c: Command)
    requires c.WriteComp?
    ensures DecodedWriteComp(cfg, c.txn, c.posted, p) == Ok(c) <==> Reads(cfg, CommandFields(c), p, 0)
  {
    Reads1(cfg, Field(Count, |c.pairs|), EachPair(c.pairs), p, 0);
    if cfg.lenBytes <= |p| { ReadsEachPair(cfg, c.pairs, p, cfg.lenBytes); }
  }

  lemma ReadModifyWriteExact(cfg: Config, p: seq<byte>, c: Command)
    requires c.ReadModifyWrite?
    ensures DecodedReadModifyWrite(cfg, c.txn, c.posted, p) == Ok(c) <==> Reads(cfg, CommandFields(c), p, 0)
  {
    assert CommandFields(c) + [] == CommandFields(c);
    Reads3(cfg, Field(Addr, c.addr), Field(Data, c.data), Field(Mask, c.mask), [], p);
  }

  /** Cutting by position and reading the fields in order are the same, for all seven commands. */
  lemma FixedPayloadExact(cfg: Config, txn: byte, t: byte, p: seq<byte>, c: Command)
    requires !c.WriteSeq? && !c.ReadComp? && !c.WriteComp?
    ensures DecodedCommandPayload(cfg, txn, t, p) == Ok(c)
            <==> txn == c.txn && t == CommandType(c) && Reads(cfg, CommandFields(c), p, 0)
  {
    match c
    case ReadSingle(_, _) => ReadSingleExact(cfg, p, c);
    case WriteSingle(_, _, _, _) => WriteSingleExact(cfg, p, c);
    case ReadSeq(_, _, _, _) => ReadSeqExact(cfg, p, c);
    case ReadModifyWrite(_, _, _, _, _) => ReadModifyWriteExact(cfg, p, c);
  }

  lemma CountedPayloadExact(cfg: Config, txn: byte, t: byte, p: seq<byte>, c: Command)
    requires c.WriteSeq? || c.ReadComp? || c.WriteComp?
    ensures DecodedCommandPayload(cfg, txn, t, p) == Ok(c)
            <==> txn == c.txn && t == CommandType(c) && Reads(cfg, CommandFields(c), p, 0)
  {
    match c
    case WriteSeq(_, _, _, _, _) => WriteSeqExact(cfg, p, c);
    case ReadComp(_, _) => ReadCompExact(cfg, p, c);
    case WriteComp(_, _, _) => WriteCompExact(cfg, p, c);
  }

  lemma CommandPayloadExact(cfg: Config, txn: byte, t: byte, p: seq<byte>, c: Command)
    ensures DecodedCommandPayload(cfg, txn, t, p) == Ok(c)
            <==> txn == c.txn && t == CommandType(c) && Reads(cfg, CommandFields(c), p, 0)
  {
    if c.WriteSeq? || c.ReadComp? || c.WriteComp? {
      CountedPayloadExact(cfg, txn, t, p, c);
    } else {
      FixedPayloadExact(cfg, txn, t, p, c);
    }
  }

  lemma DecodedArrayExact(cfg: Config, p: seq<byte>, vs: seq<nat>)
    ensures DecodedArray(cfg, p) == Ok(vs) <==> Reads(cfg, [Field(Count, |vs|)] + Each(Data, vs), p, 0)
  {
    Reads1(cfg, Field(Count, |vs|), Each(Data, vs), p, 0);
    if cfg.lenBytes <= |p| { ReadsEach(cfg, Data, vs, p, cfg.lenBytes); }
  }

  lemma DecodedWordExact(cfg: Config, p: seq<byte>, v: nat, k: Kind)
    requires Width(cfg, k) == cfg.dataBytes
    ensures DecodedWord(cfg, p) == Ok(v) <==> Reads(cfg, [Field(k, v)], p, 0)
  {
    Reads1(cfg, Field(k, v), [], p, 0);
  }

  lemma ArrayPayloadExact(cfg: Config, txn: byte, t: byte, p: seq<byte>, r: Response)
    requires r.ReadSeqAck? || r.ReadCompAck?
    ensures DecodedResponsePayload(cfg, txn, t, p) == Ok(r)
            <==> txn == r.txn && t == ResponseType(r) && Reads(cfg, ResponseFields(r), p, 0)
  {
    DecodedArrayExact(cfg, p, r.values);
  }

  lemma ResponsePayloadExact(cfg: Config, txn: byte, t: byte, p: seq<byte>, r: Response)
    ensures DecodedResponsePayload(cfg, txn, t, p) == Ok(r)
            <==> txn == r.txn && t == ResponseType(r) && Reads(cfg, ResponseFields(r), p, 0)
  {
    if r.ReadSeqAck? || r.ReadCompAck? {
      ArrayPayloadExact(cfg, txn, t, p, r);
    } else if r.ReadSingleAck? {
      DecodedWordExact(cfg, p, r.data, Data);
    } else if !r.WriteSingleAck? && !r.WriteSeqAck? && !r.WriteCompAck? && !r.ReadModifyWriteAck? {
      DecodedWordExact(cfg, p, r.status, Status);
    }
  }

  // ---------------------------------------------------------------- the exact-inverse theorem

  lemma FrameUnseals(cfg: Config, txn: byte, t: byte, p: seq<byte>)
    requires cfg.Valid()
    ensures var b := Frame(cfg, txn, t, p); Unseal(cfg, b) == Ok(p) && b[0] == txn && b[1] == t
  {
    var k, body, b := cfg.crcBytes, [txn, t] + p, Frame(cfg, txn, t, p);
    var crc := Crc.Calculate(k, body);
    Crc.CalculateFits(k, body);
    FromLEOfLE(crc, k);
    ModUnique(crc, Pow256(k), 0, crc);
    assert Body(cfg, b) == body && b[|b| - k..] == LE(crc, k);
    assert Payload(cfg, b) == p;
  }

  lemma SplitFrame(b: seq<byte>, n: nat)
    requires 2 <= n <= |b|
    ensures b[..n] == [b[0], b[1]] + b[2..n] && b == b[..n] + b[n..]
  {
  }

  lemma UnsealedFrame(cfg: Config, b: seq<byte>)
    requires cfg.Valid() && Unseal(cfg, b).Ok?
    ensures b == Frame(cfg, b[0], b[1], Unseal(cfg, b).value)
  {
    LEOfFromLE(b[|b| - cfg.crcBytes..]);
    SplitFrame(b, |b| - cfg.crcBytes);
  }

  lemma FrameExact(cfg: Config, b: seq<byte>, txn: byte, t: byte, p: seq<byte>)
    requires cfg.Valid()
    ensures b == Frame(cfg, txn, t, p) <==> Unseal(cfg, b) == Ok(p) && b[0] == txn && b[1] == t
  {
    FrameUnseals(cfg, txn, t, p);
    if Unseal(cfg, b) == Ok(p) { UnsealedFrame(cfg, b); }
  }

  /** decodeCommand returns `c` on exactly one buffer, the bytes of `c`, and only for in-range `c`. */
  lemma DecodeCommandExact(cfg: Config, b: seq<byte>, c: Command)
    requires cfg.Valid()
    ensures DecodedCommand(cfg, b) == Ok(c) <==> b == CommandWire(cfg, c) && InRange(cfg, CommandFields(c))
  {
    var s := Ser(cfg, CommandFields(c));
    FrameExact(cfg, b, c.txn, CommandType(c), s);
    match Unseal(cfg, b)
    case Ok(p) =>
      CommandPayloadExact(cfg, b[0], b[1], p, c);
      ReadsIffSer(cfg, CommandFields(c), p, 0);
      assert p[0..] == p;
    case Err(_) =>
  }

  /** The same for decodeResponse and all fifteen kinds of response. */
  lemma DecodeResponseExact(cfg: Config, b: seq<byte>, r: Response)
    requires cfg.Valid()
    ensures DecodedResponse(cfg, b) == Ok(r) <==> b == ResponseWire(cfg, r) && InRange(cfg, ResponseFields(r))
  {
    var s := Ser(cfg, ResponseFields(r));
    FrameExact(cfg, b, r.txn, ResponseType(r), s);
    match Unseal(cfg, b)
    case Ok(p) =>
      ResponsePayloadExact(cfg, b[0], b[1], p, r);
      ReadsIffSer(cfg, ResponseFields(r), p, 0);
      assert p[0..] == p;
    case Err(_) =>
  }

  // ---------------------------------------------------------------- refusals

  lemma FixedRefusal(cfg: Config, txn: byte, t: byte, p: seq<byte>)
    requires t in {0x01, 0x10, 0x51, 0x04, 0x20, 0x61} && DecodedCommandPayload(cfg, txn, t, p).Err?
    ensures DecodedCommandPayload(cfg, txn, t, p) == Err(Malformed)
  {
  }

  lemma WriteSeqRefusal(cfg: Config, txn: byte, posted: bool, p: seq<byte>)
    requires DecodedWriteSeq(cfg, txn, posted, p).Err?
    ensures DecodedWriteSeq(cfg, txn, posted, p)
         == Err(if |p| < cfg.addrBytes + 2 * cfg.lenBytes then Malformed else BufferSizeError)
  {
  }

  lemma ReadCompRefusal(cfg: Config, txn: byte, p: seq<byte>)
    requires DecodedReadComp(cfg, txn, p).Err?
    ensures DecodedReadComp(cfg, txn, p) == Err(if |p| < cfg.lenBytes then Malformed else BufferSizeError)
  {
  }

  lemma WriteCompRefusal(cfg: Config, txn: byte, posted: bool, p: seq<byte>)
    requires DecodedWriteComp(cfg, txn, posted, p).Err?
    ensures DecodedWriteComp(cfg, txn, posted, p) == Err(if |p| < cfg.lenBytes then Malformed else BufferSizeError)
  {
  }

  lemma PayloadRefusal(cfg: Config, txn: byte, t: byte, p: seq<byte>)
    requires DecodedCommandPayload(cfg, txn, t, p).Err?
    ensures DecodedCommandPayload(cfg, txn, t, p)
         == Err(if t !in {0x01, 0x10, 0x51, 0x04, 0x15, 0x54, 0x08, 0x19, 0x58, 0x20, 0x61} then UnexpectedMessageType
                else if t in {0x15, 0x54} && |p| >= cfg.addrBytes + 2 * cfg.lenBytes then BufferSizeError
                else if t in {0x08, 0x19, 0x58} && |p| >= cfg.lenBytes then BufferSizeError
                else Malformed)
  {
    if t in {0x01, 0x10, 0x51, 0x04, 0x20, 0x61} { FixedRefusal(cfg, txn, t, p); }
    else if t in {0x15, 0x54} { WriteSeqRefusal(cfg, txn, t == 0x54, p); }
    else if t == 0x08 { ReadCompRefusal(cfg, txn, p); }
    else if t in {0x19, 0x58} { WriteCompRefusal(cfg, txn, t == 0x58, p); }
  }

  lemma ResponsePayloadRefusal(cfg: Config, txn: byte, t: byte, p: seq<byte>)
    requires DecodedResponsePayload(cfg, txn, t, p).Err?
    ensures DecodedResponsePayload(cfg, txn, t, p)
         == Err(if t in {0x80, 0xC1, 0x91, 0xD0, 0x85, 0xC4, 0x94, 0xD5, 0x89, 0xC8, 0x98, 0xD9, 0xA1, 0xE0, 0xB0}
                then Malformed else UnexpectedMessageType)
  {
  }

  lemma UnsealRefusal(cfg: Config, b: seq<byte>, expected: nat, actual: nat)
    requires cfg.Valid() && |b| >= 2 + cfg.crcBytes
    requires expected == Crc.Calculate(cfg.crcBytes, Body(cfg, b)) && actual == WireCrc(cfg, b)
    ensures Unseal(cfg, b) == if expected != actual then Err(CrcMismatch(expected, actual)) else Ok(Payload(cfg, b))
  {
  }

  lemma OpenedCommand(cfg: Config, b: seq<byte>)
    requires cfg.Valid() && |b| >= 2 + cfg.crcBytes
    ensures Unseal(cfg, b).Err? ==> DecodedCommand(cfg, b) == Err(Unseal(cfg, b).error)
    ensures Unseal(cfg, b).Ok? ==> DecodedCommand(cfg, b) == DecodedCommandPayload(cfg, b[0], b[1], Payload(cfg, b))
  {
  }

  lemma OpenedResponse(cfg: Config, b: seq<byte>)
    requires cfg.Valid() && |b| >= 2 + cfg.crcBytes
    ensures Unseal(cfg, b).Err? ==> DecodedResponse(cfg, b) == Err(Unseal(cfg, b).error)
    ensures Unseal(cfg, b).Ok? ==> DecodedResponse(cfg, b) == DecodedResponsePayload(cfg, b[0], b[1], Payload(cfg, b))
  {
  }

  /** Which error decodeCommand throws on each buffer that it refuses. A payload of the wrong length is malformed, except
      that a command with an array is a buffer size error once the header with its count is there. */
  lemma CommandRefusals(cfg: Config, b: seq<byte>)
    requires cfg.Valid()
    ensures |b| < 2 + cfg.crcBytes ==> DecodedCommand(cfg, b) == Err(Malformed)
    ensures |b| >= 2 + cfg.crcBytes ==>
              var n := |b| - cfg.crcBytes;
              var (expected, actual) := (Crc.Calculate(cfg.crcBytes, b[..n]), FromLE(b[n..]));
              var (t, p) := (b[1], n - 2);
              var r := DecodedCommand(cfg, b);
              && (expected != actual ==> r == Err(CrcMismatch(expected, actual)))
              && (expected == actual && r.Err? ==>
                    r == Err(if t !in {0x01, 0x10, 0x51, 0x04, 0x15, 0x54, 0x08, 0x19, 0x58, 0x20, 0x61}
                               then UnexpectedMessageType
                             else if t in {0x15, 0x54} && p >= cfg.addrBytes + 2 * cfg.lenBytes then BufferSizeError
                             else if t in {0x08, 0x19, 0x58} && p >= cfg.lenBytes then BufferSizeError
                             else Malformed))
  {
    if |b| < 2 + cfg.crcBytes { return; }
    UnsealRefusal(cfg, b, Crc.Calculate(cfg.crcBytes, Body(cfg, b)), WireCrc(cfg, b));
    OpenedCommand(cfg, b);
    var p := Payload(cfg, b);
    if DecodedCommandPayload(cfg, b[0], b[1], p).Err? { PayloadRefusal(cfg, b[0], b[1], p); }
  }

  /** The same for decodeResponse, which knows no buffer size error. */
  lemma ResponseRefusals(cfg: Config, b: seq<byte>)
    requires cfg.Valid()
    ensures |b| < 2 + cfg.crcBytes ==> DecodedResponse(cfg, b) == Err(Malformed)
    ensures |b| >= 2 + cfg.crcBytes ==>
              var n := |b| - cfg.crcBytes;
              var (expected, actual) := (Crc.Calculate(cfg.crcBytes, b[..n]), FromLE(b[n..]));
              var r := DecodedResponse(cfg, b);
              && (expected != actual ==> r == Err(CrcMismatch(expected, actual)))
              && (expected == actual && r.Err? ==>
                    r == Err(if b[1] in {0x80, 0xC1, 0x91, 0xD0, 0x85, 0xC4, 0x94, 0xD5, 0x89, 0xC8, 0x98, 0xD9, 0xA1, 0xE0,
                                         0xB0}
                             then Malformed else UnexpectedMessageType))
  {
    if |b| < 2 + cfg.crcBytes { return; }
    UnsealRefusal(cfg, b, Crc.Calculate(cfg.crcBytes, Body(cfg, b)), WireCrc(cfg, b));
    OpenedResponse(cfg, b);
    var p := Payload(cfg, b);
    if DecodedResponsePayload(cfg, b[0], b[1], p).Err? { ResponsePayloadRefusal(cfg, b[0], b[1], p); }
  }
}
