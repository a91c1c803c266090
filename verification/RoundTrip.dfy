/** Round trips in both directions, with the truncation and the count overflow that the code allows. */
module RoundTrip {
  import opened Bytes
  import opened Messages
  import opened Codec
  import opened Limits

  lemma CutIsInRange(cfg: Config, k: Kind, v: nat)
    ensures Cut(cfg, k, v) < Pow256(Width(cfg, k))
    ensures v < Pow256(Width(cfg, k)) ==> Cut(cfg, k, v) == v
    ensures LE(Cut(cfg, k, v), Width(cfg, k)) == LE(v, Width(cfg, k))
  {
    SameLE(v, Width(cfg, k));
    if v < Pow256(Width(cfg, k)) {
      ModUnique(v, Pow256(Width(cfg, k)), 0, v);
    }
  }

  /** The reference notion of truncation: every field of `gs` is the field of `fs` cut to its width. */
  ghost predicate CutFields(cfg: Config, fs: seq<Field>, gs: seq<Field>) {
    |fs| == |gs| && forall i :: 0 <= i < |fs| ==> gs[i] == Field(fs[i].kind, Cut(cfg, fs[i].kind, fs[i].value))
  }

  lemma {:induction false} CutFieldsSer(cfg: Config, fs: seq<Field>, gs: seq<Field>)
    requires CutFields(cfg, fs, gs)
    ensures Ser(cfg, fs) == Ser(cfg, gs) && InRange(cfg, gs)
    decreases |fs|
  {
    if fs != [] {
      assert CutFields(cfg, fs[1..], gs[1..]);
      CutFieldsSer(cfg, fs[1..], gs[1..]);
      CutIsInRange(cfg, fs[0].kind, fs[0].value);
      InRangeCons(cfg, gs);
    }
  }

  lemma CutFieldsConcat(cfg: Config, a: seq<Field>, b: seq<Field>, a': seq<Field>, b': seq<Field>)
    requires CutFields(cfg, a, a') && CutFields(cfg, b, b')
    ensures CutFields(cfg, a + b, a' + b')
  {
  }

  lemma {:induction false} CutEach(cfg: Config, k: Kind, vs: seq<nat>)
    ensures CutFields(cfg, Each(k, vs), Each(k, CutAll(cfg, k, vs)))
  {
    if vs != [] {
      CutEach(cfg, k, vs[1..]);
      CutFieldsConcat(cfg, [Field(k, vs[0])], Each(k, vs[1..]),
                      [Field(k, Cut(cfg, k, vs[0]))], Each(k, CutAll(cfg, k, vs[1..])));
      assert CutAll(cfg, k, vs)[1..] == CutAll(cfg, k, vs[1..]);
    }
  }

  lemma {:induction false} CutEachPair(cfg: Config, ps: seq<(nat, nat)>)
    ensures CutFields(cfg, EachPair(ps), EachPair(CutPairs(cfg, ps)))
  {
    if ps != [] {
      CutEachPair(cfg, ps[1..]);
      var (a, d) := ps[0];
      CutFieldsConcat(cfg, [Field(Addr, a), Field(Data, d)], EachPair(ps[1..]),
                      [Field(Addr, Cut(cfg, Addr, a)), Field(Data, Cut(cfg, Data, d))], EachPair(CutPairs(cfg, ps[1..])));
      assert CutPairs(cfg, ps)[1..] == CutPairs(cfg, ps[1..]);
    }
  }

  /** `Truncated` cuts every field, as long as the array count fits the wire. */
  lemma TruncatedCutsFields(cfg: Config, c: Command)
    requires ArrayCount(c) < Pow256(cfg.lenBytes)
    ensures CutFields(cfg, CommandFields(c), CommandFields(Truncated(cfg, c)))
  {
    match c
    case WriteSeq(_, _, a, incr, vs) =>
      CutEach(cfg, Data, vs);
      CutIsInRange(cfg, Count, |vs|);
      CutFieldsConcat(cfg, [Field(Addr, a), Field(Incr, incr), Field(Count, |vs|)], Each(Data, vs),
                      [Field(Addr, Cut(cfg, Addr, a)), Field(Incr, Cut(cfg, Incr, incr)), Field(Count, |vs|)],
                      Each(Data, CutAll(cfg, Data, vs)));
    case ReadComp(_, addrs) =>
      CutEach(cfg, Addr, addrs);
      CutIsInRange(cfg, Count, |addrs|);
    case WriteComp(_, _, ps) =>
      CutEachPair(cfg, ps);
      CutIsInRange(cfg, Count, |ps|);
    case _ =>
  }

  lemma TruncatedResponseCutsFields(cfg: Config, r: Response)
    requires ResponseCount(r) < Pow256(cfg.lenBytes)
    ensures CutFields(cfg, ResponseFields(r), ResponseFields(TruncatedResponse(cfg, r)))
    ensures TruncatedResponse(cfg, r).txn == r.txn && ResponseType(TruncatedResponse(cfg, r)) == ResponseType(r)
  {
    if r.ReadSeqAck? || r.ReadCompAck? {
      CutEach(cfg, Data, r.values);
      CutIsInRange(cfg, Count, |r.values|);
    }
  }

  // ---------------------------------------------------------------- decode after encode

  /** The count field that the bytes of an array of `n` elements show, and the length that it announces. */
  lemma CutCount(cfg: Config, n: nat, w: nat)
    requires n >= Pow256(cfg.lenBytes) && w >= 1
    ensures var m := FromLE(LE(n, cfg.lenBytes)); m < n && Span(m, w) < Span(n, w)
  {
    FromLEOfLE(n, cfg.lenBytes);
    SpanStrict(n % Pow256(cfg.lenBytes), n, w);
  }

  lemma WriteSeqOverflow(cfg: Config, c: Command)
    requires cfg.Valid() && c.WriteSeq? && |c.values| >= Pow256(cfg.lenBytes)
    ensures DecodedWriteSeq(cfg, c.txn, c.posted, Ser(cfg, CommandFields(c))) == Err(BufferSizeError)
  {
    var A, L, n := cfg.addrBytes, cfg.lenBytes, |c.values|;
    var p := Ser(cfg, CommandFields(c));
    var prefix := [Field(Addr, c.addr), Field(Incr, c.increment), Field(Count, n)];
    Ser3(cfg, prefix[0], prefix[1], prefix[2]);
    ArraySize(cfg, prefix, Data, c.values);
    SerConcat(cfg, prefix, Each(Data, c.values));
    ThirdPart(LE(c.addr, A), LE(c.increment, L), LE(n, L), Ser(cfg, Each(Data, c.values)));
    CutCount(cfg, n, cfg.dataBytes);
  }

  lemma ThirdPart(a: seq<byte>, b: seq<byte>, c: seq<byte>, d: seq<byte>)
    ensures ((a + (b + c)) + d)[|a| + |b|..|a| + |b| + |c|] == c
  {
  }

  lemma ReadCompOverflow(cfg: Config, c: Command)
    requires cfg.Valid() && c.ReadComp? && |c.addresses| >= Pow256(cfg.lenBytes)
    ensures DecodedReadComp(cfg, c.txn, Ser(cfg, CommandFields(c))) == Err(BufferSizeError)
  {
    var L, n := cfg.lenBytes, |c.addresses|;
    var p := Ser(cfg, CommandFields(c));
    Ser1(cfg, Field(Count, n));
    ArraySize(cfg, [Field(Count, n)], Addr, c.addresses);
    SerConcat(cfg, [Field(Count, n)], Each(Addr, c.addresses));
    assert p[0..L] == LE(n, L);
    CutCount(cfg, n, cfg.addrBytes);
  }

  lemma WriteCompOverflow(cfg: Config, c: Command)
    requires cfg.Valid() && c.WriteComp? && |c.pairs| >= Pow256(cfg.lenBytes)
    ensures DecodedWriteComp(cfg, c.txn, c.posted, Ser(cfg, CommandFields(c))) == Err(BufferSizeError)
  {
    var L, n := cfg.lenBytes, |c.pairs|;
    var p := Ser(cfg, CommandFields(c));
    Ser1(cfg, Field(Count, n));
    PairsSize(cfg, [Field(Count, n)], c.pairs);
    SerConcat(cfg, [Field(Count, n)], EachPair(c.pairs));
    assert p[0..L] == LE(n, L);
    CutCount(cfg, n, cfg.addrBytes + cfg.dataBytes);
    SpanSum(n, cfg.addrBytes, cfg.dataBytes);
  }

  /** An array count that does not fit its field is cut on the wire, and the size check then refuses the message. */
  lemma OverflowPayload(cfg: Config, c: Command)
    requires cfg.Valid() && ArrayCount(c) >= Pow256(cfg.lenBytes)
    ensures DecodedCommandPayload(cfg, c.txn, CommandType(c), Ser(cfg, CommandFields(c))) == Err(BufferSizeError)
  {
    if c.WriteSeq? {
      WriteSeqOverflow(cfg, c);
    } else if c.ReadComp? {
      ReadCompOverflow(cfg, c);
    } else {
      WriteCompOverflow(cfg, c);
    }
  }

  lemma CountOverflow(cfg: Config, c: Command)
    requires cfg.Valid() && ArrayCount(c) >= Pow256(cfg.lenBytes)
    ensures DecodedCommand(cfg, CommandWire(cfg, c)) == Err(BufferSizeError)
  {
    FrameUnseals(cfg, c.txn, CommandType(c), Ser(cfg, CommandFields(c)));
    OverflowPayload(cfg, c);
  }

  /** What the server decodes from the bytes of any command, in range or not. */
  lemma CommandRoundTrip(cfg: Config, c: Command)
    requires cfg.Valid()
    ensures DecodedCommand(cfg, CommandWire(cfg, c))
         == if ArrayCount(c) < Pow256(cfg.lenBytes) then Ok(Truncated(cfg, c)) else Err(BufferSizeError)
  {
    if ArrayCount(c) < Pow256(cfg.lenBytes) {
      TruncatedCutsFields(cfg, c);
      CutFieldsSer(cfg, CommandFields(c), CommandFields(Truncated(cfg, c)));
      DecodeCommandExact(cfg, CommandWire(cfg, c), Truncated(cfg, c));
    } else {
      CountOverflow(cfg, c);
    }
  }

  lemma ArrayOverflow(cfg: Config, vs: seq<nat>)
    requires cfg.Valid() && |vs| >= Pow256(cfg.lenBytes)
    ensures DecodedArray(cfg, Ser(cfg, [Field(Count, |vs|)] + Each(Data, vs))) == Err(Malformed)
  {
    var p, n, L := Ser(cfg, [Field(Count, |vs|)] + Each(Data, vs)), |vs|, cfg.lenBytes;
    Ser1(cfg, Field(Count, n));
    ArraySize(cfg, [Field(Count, n)], Data, vs);
    SerConcat(cfg, [Field(Count, n)], Each(Data, vs));
    assert p[0..L] == LE(n, L);
    CutCount(cfg, n, cfg.dataBytes);
  }

  lemma ResponseCountOverflow(cfg: Config, r: Response)
    requires cfg.Valid() && ResponseCount(r) >= Pow256(cfg.lenBytes)
    ensures DecodedResponse(cfg, ResponseWire(cfg, r)) == Err(Malformed)
  {
    var p := Ser(cfg, ResponseFields(r));
    FrameUnseals(cfg, r.txn, ResponseType(r), p);
    ArrayOverflow(cfg, r.values);
    assert DecodedResponsePayload(cfg, r.txn, ResponseType(r), p) == Err(Malformed);
  }

  lemma CutResponseDecodes(cfg: Config, r: Response, r': Response)
    requires cfg.Valid() && r'.txn == r.txn && ResponseType(r') == ResponseType(r)
    requires CutFields(cfg, ResponseFields(r), ResponseFields(r'))
    ensures DecodedResponse(cfg, ResponseWire(cfg, r)) == Ok(r')
  {
    CutFieldsSer(cfg, ResponseFields(r), ResponseFields(r'));
    DecodeResponseExact(cfg, ResponseWire(cfg, r'), r');
  }

  /** The same for the fifteen responses. */
  lemma ResponseRoundTrip(cfg: Config, r: Response)
    requires cfg.Valid()
    ensures DecodedResponse(cfg, ResponseWire(cfg, r))
         == if ResponseCount(r) < Pow256(cfg.lenBytes) then Ok(TruncatedResponse(cfg, r)) else Err(Malformed)
  {
    if ResponseCount(r) < Pow256(cfg.lenBytes) {
      TruncatedResponseCutsFields(cfg, r);
      CutResponseDecodes(cfg, r, TruncatedResponse(cfg, r));
    } else {
      ResponseCountOverflow(cfg, r);
    }
  }

  /** A command whose fields fit the wire comes back unchanged. */
  lemma InRangeCommandUnchanged(cfg: Config, c: Command)
    requires cfg.Valid() && InRange(cfg, CommandFields(c))
    ensures DecodedCommand(cfg, CommandWire(cfg, c)) == Ok(c) && Truncated(cfg, c) == c
    ensures ArrayCount(c) < Pow256(cfg.lenBytes)
  {
    DecodeCommandExact(cfg, CommandWire(cfg, c), c);
    CommandRoundTrip(cfg, c);
  }

  lemma InRangeResponseUnchanged(cfg: Config, r: Response)
    requires cfg.Valid() && InRange(cfg, ResponseFields(r))
    ensures DecodedResponse(cfg, ResponseWire(cfg, r)) == Ok(r) && TruncatedResponse(cfg, r) == r
  {
    DecodeResponseExact(cfg, ResponseWire(cfg, r), r);
    ResponseRoundTrip(cfg, r);
  }

  // ---------------------------------------------------------------- encode after decode

  lemma {:induction false} Pow256Mono(a: nat, b: nat)
    requires a <= b
    ensures Pow256(a) <= Pow256(b)
    decreases b
  {
    if a < b {
      Pow256Mono(a, b - 1);
    }
  }

  /** The count of a decoded command fits LengthType. */
  lemma CountInRange(cfg: Config, c: Command)
    requires cfg.Valid() && InRange(cfg, CommandFields(c))
    ensures CommandCount(c) <= LengthMax(cfg)
  {
    Pow256Mono(cfg.lenBytes, cfg.lenSize);
    var fs := CommandFields(c);
    if c.ReadSeq? || c.WriteSeq? {
      assert fs[2] == Field(Count, CommandCount(c));
    } else if c.ReadComp? || c.WriteComp? {
      assert fs[0] == Field(Count, CommandCount(c));
    }
  }

  /** Canonical form: an accepted buffer re-encodes to itself unless it, or the answer it asks for, exceeds the transport. */
  lemma CommandCanonical(cfg: Config, max: nat, b: seq<byte>, c: Command)
    requires ValidCodec(cfg, max) && DecodedCommand(cfg, b) == Ok(c)
    ensures EncodedCommand(cfg, max, c) == if |b| <= max && AckSize(cfg, c) <= max then Ok(b) else Err(MessageSizeError)
  {
    DecodeCommandExact(cfg, b, c);
    CountInRange(cfg, c);
    CanonicalOf(cfg, max, b, c);
  }

  lemma CanonicalOf(cfg: Config, max: nat, b: seq<byte>, c: Command)
    requires ValidCodec(cfg, max) && b == CommandWire(cfg, c) && CommandCount(c) <= LengthMax(cfg)
    ensures EncodedCommand(cfg, max, c) == if |b| <= max && AckSize(cfg, c) <= max then Ok(b) else Err(MessageSizeError)
  {
    CommandEncodableExactly(cfg, max, c);
  }

  lemma ResponseCanonical(cfg: Config, max: nat, b: seq<byte>, r: Response)
    requires ValidCodec(cfg, max) && DecodedResponse(cfg, b) == Ok(r)
    ensures EncodedResponse(cfg, max, r)
         == if |b| <= max && (r.ReadCompAck? ==> Size(cfg, |r.values|, 0, 1) <= max) then Ok(b) else Err(MessageSizeError)
  {
    DecodeResponseExact(cfg, b, r);
    ResponseEncodableExactly(cfg, max, r);
    Pow256Mono(cfg.lenBytes, cfg.lenSize);
    if r.ReadSeqAck? || r.ReadCompAck? {
      assert ResponseFields(r)[0] == Field(Count, |r.values|);
    }
  }

  /** No buffer is both a command and a response: the type bytes differ in their top bit. */
  lemma DirectionsDisjoint(cfg: Config, b: seq<byte>, c: Command, r: Response)
    requires cfg.Valid() && DecodedCommand(cfg, b) == Ok(c)
    ensures DecodedResponse(cfg, b) != Ok(r)
  {
    CommandPayloadExact(cfg, b[0], b[1], Unseal(cfg, b).value, c);
    ResponsePayloadExact(cfg, b[0], b[1], Unseal(cfg, b).value, r);
    assert CommandType(c) < 0x80 <= ResponseType(r);
  }
}
