/** Which corruptions of a frame both decoders are certain to refuse. */
module Detection {
  import opened Bytes
  import opened Messages
  import opened Codec
  import opened Crc

  /** Both decoders stop at the CRC check. */
  ghost predicate Refused(cfg: Config, b: seq<byte>)
    requires cfg.Valid()
  {
    && DecodedCommand(cfg, b).Err? && DecodedCommand(cfg, b).error.CrcMismatch?
    && DecodedResponse(cfg, b).Err? && DecodedResponse(cfg, b).error.CrcMismatch?
  }

  /** The two bit strings differ, and only within `n` consecutive positions from `i`. */
  ghost predicate Burst(u: Bits, v: Bits, i: nat, n: nat) {
    && |u| == |v| && i + n <= |u| && u != v
    && u[..i] == v[..i] && u[i + n..] == v[i + n..]
  }

  ghost function BitsOf(cfg: Config, s: seq<byte>): (r: Bits)
    requires cfg.Valid()
    ensures |r| == 8 * |s|
  {
    MessageBits(ParamsFor(cfg.crcBytes).reflect, s)
  }

  /** A burst of at most CrcBytes * 8 bits anywhere in the body of an accepted frame is refused. */
  lemma BodyBurstRefused(cfg: Config, b: seq<byte>, b': seq<byte>, i: nat, n: nat)
    requires cfg.Valid() && Unseal(cfg, b).Ok? && |b'| == |b|
    requires WireCrc(cfg, b') == WireCrc(cfg, b)
    requires n <= 8 * cfg.crcBytes && Burst(BitsOf(cfg, Body(cfg, b)), BitsOf(cfg, Body(cfg, b')), i, n)
    ensures Refused(cfg, b')
  {
    BurstBits(cfg, Body(cfg, b), Body(cfg, b'), i, n);
  }

  lemma BurstBits(cfg: Config, s: seq<byte>, t: seq<byte>, i: nat, n: nat)
    requires cfg.Valid() && n <= 8 * cfg.crcBytes && Burst(BitsOf(cfg, s), BitsOf(cfg, t), i, n)
    ensures Calculate(cfg.crcBytes, s) != Calculate(cfg.crcBytes, t)
  {
    var u, v := BitsOf(cfg, s), BitsOf(cfg, t);
    assert u == u[..i] + u[i..i + n] + u[i + n..];
    assert v == v[..i] + v[i..i + n] + v[i + n..];
    BurstChangesCrc(cfg.crcBytes, s, t, u[..i], u[i..i + n], v[i..i + n], u[i + n..]);
  }

  lemma ReverseInjective(a: Bits, b: Bits)
    requires Reverse(a) == Reverse(b)
    ensures a == b
  {
    forall i | 0 <= i < |a| ensures a[i] == b[i] {
      assert Reverse(a)[|a| - 1 - i] == Reverse(b)[|a| - 1 - i];
    }
  }

  lemma {:induction false} MessageBitsInjective(reflect: bool, s: seq<byte>, t: seq<byte>)
    requires MessageBits(reflect, s) == MessageBits(reflect, t)
    ensures s == t
    decreases |s|
  {
    if s != [] {
      assert MessageBits(reflect, s)[..8] == ByteBits(reflect, s[0]);
      assert MessageBits(reflect, t)[..8] == ByteBits(reflect, t[0]);
      if reflect { ReverseInjective(MsbFirst(s[0], 8), MsbFirst(t[0], 8)); }
      Pow2Bytes(1);
      ValueOfMsbFirst(s[0], 8);
      ValueOfMsbFirst(t[0], 8);
      assert MessageBits(reflect, s)[8..] == MessageBits(reflect, s[1..]);
      assert MessageBits(reflect, t)[8..] == MessageBits(reflect, t[1..]);
      MessageBitsInjective(reflect, s[1..], t[1..]);
      assert s == [s[0]] + s[1..] && t == [t[0]] + t[1..];
    }
  }

  lemma {:induction false} MessageBitsConcat(reflect: bool, s: seq<byte>, t: seq<byte>)
    ensures MessageBits(reflect, s + t) == MessageBits(reflect, s) + MessageBits(reflect, t)
  {
    if s == [] {
      assert s + t == t;
    } else {
      assert (s + t)[1..] == s[1..] + t;
      MessageBitsConcat(reflect, s[1..], t);
    }
  }

  lemma SplitTail(b: seq<byte>, k: nat, v: nat)
    requires k <= |b| && FromLE(b[|b| - k..]) == v
    ensures b == b[..|b| - k] + LE(v, k)
  {
    LEOfFromLE(b[|b| - k..]);
  }

  lemma Reseal(cfg: Config, b: seq<byte>)
    requires cfg.Valid() && Unseal(cfg, b).Ok?
    ensures b == Sealed(cfg, Body(cfg, b))
  {
    SplitTail(b, cfg.crcBytes, WireCrc(cfg, b));
  }

  lemma ResealBody(cfg: Config, s: seq<byte>, field: seq<byte>)
    requires cfg.crcBytes == |field|
    ensures Body(cfg, s + field) == s && WireCrc(cfg, s + field) == FromLE(field)
  {
    assert (s + field)[|s|..] == field;
  }

  /** In bytes: changing at most CrcBytes consecutive body bytes of an accepted frame is refused. */
  lemma BodyBytesRefused(cfg: Config, b: seq<byte>, pre: seq<byte>, x: seq<byte>, y: seq<byte>, post: seq<byte>)
    requires cfg.Valid() && Unseal(cfg, b).Ok? && Body(cfg, b) == pre + x + post
    requires |x| == |y| <= cfg.crcBytes && x != y
    ensures Refused(cfg, pre + y + post + b[|b| - cfg.crcBytes..])
  {
    WindowChangesCrc(cfg.crcBytes, pre, x, y, post);
    OldCrcRefused(cfg, b, pre + y + post);
  }

  /** A body whose CRC differs, under the CRC of an accepted frame of the same length. */
  lemma OldCrcRefused(cfg: Config, b: seq<byte>, s: seq<byte>)
    requires cfg.Valid() && Unseal(cfg, b).Ok? && |s| == |b| - cfg.crcBytes
    requires Calculate(cfg.crcBytes, s) != Calculate(cfg.crcBytes, Body(cfg, b))
    ensures Refused(cfg, s + b[|b| - cfg.crcBytes..])
  {
    var field := b[|b| - cfg.crcBytes..];
    ResealBody(cfg, s, field);
    MismatchRefused(cfg, s + field);
  }

  lemma WindowChangesCrc(k: nat, pre: seq<byte>, x: seq<byte>, y: seq<byte>, post: seq<byte>)
    requires 1 <= k <= 4 && |x| == |y| <= k && x != y
    ensures Calculate(k, pre + x + post) != Calculate(k, pre + y + post)
  {
    var reflect := ParamsFor(k).reflect;
    MessageBitsConcat(reflect, pre + x, post);
    MessageBitsConcat(reflect, pre, x);
    MessageBitsConcat(reflect, pre + y, post);
    MessageBitsConcat(reflect, pre, y);
    if MessageBits(reflect, x) == MessageBits(reflect, y) {
      MessageBitsInjective(reflect, x, y);
    }
    BurstChangesCrc(k, pre + x + post, pre + y + post,
                    MessageBits(reflect, pre), MessageBits(reflect, x), MessageBits(reflect, y), MessageBits(reflect, post));
  }

  /** Any change confined to the CRC field is refused. */
  lemma FieldCorruptionRefused(cfg: Config, b: seq<byte>, field: seq<byte>)
    requires cfg.Valid() && Unseal(cfg, b).Ok?
    requires |field| == cfg.crcBytes && field != b[|b| - cfg.crcBytes..]
    ensures Refused(cfg, Body(cfg, b) + field)
  {
    ResealBody(cfg, Body(cfg, b), field);
    LEOfFromLE(field);
    LEOfFromLE(b[|b| - cfg.crcBytes..]);
    assert FromLE(field) != WireCrc(cfg, b);
    MismatchRefused(cfg, Body(cfg, b) + field);
  }

  lemma MismatchRefused(cfg: Config, b: seq<byte>)
    requires cfg.Valid() && |b| >= 2 + cfg.crcBytes
    requires WireCrc(cfg, b) != Calculate(cfg.crcBytes, Body(cfg, b))
    ensures Refused(cfg, b)
  {
    assert Unseal(cfg, b).Err?;
  }

  // ---------------------------------------------------------------- an odd number of flipped bits

  function Differences(u: Bits, v: Bits): nat
    requires |u| == |v|
  {
    if u == [] then 0 else (if u[0] != v[0] then 1 else 0) + Differences(u[1..], v[1..])
  }

  /** The number of bits in which two frames differ. */
  function BitErrors(a: seq<byte>, b: seq<byte>): nat
    requires |a| == |b|
  {
    if a == [] then 0 else Differences(MsbFirst(a[0], 8), MsbFirst(b[0], 8)) + BitErrors(a[1..], b[1..])
  }

  lemma {:induction false} DifferencesParity(u: Bits, v: Bits)
    requires |u| == |v|
    ensures Differences(u, v) % 2 == 1 <==> Parity(u) != Parity(v)
    decreases |u|
  {
    if u != [] {
      DifferencesParity(u[1..], v[1..]);
    }
  }

  lemma ByteErrorsParity(x: byte, y: byte)
    ensures Differences(MsbFirst(x, 8), MsbFirst(y, 8)) % 2 == 1 <==> NatParity(x) != NatParity(y)
  {
    DifferencesParity(MsbFirst(x, 8), MsbFirst(y, 8));
    Pow2Bytes(1);
    ParityMsbFirst(x, 8);
    ParityMsbFirst(y, 8);
  }

  lemma {:induction false} BitErrorsParity(a: seq<byte>, b: seq<byte>)
    requires |a| == |b|
    ensures BitErrors(a, b) % 2 == 1 <==> BytesParity(a) != BytesParity(b)
    decreases |a|
  {
    if a != [] {
      BitErrorsParity(a[1..], b[1..]);
      ByteErrorsParity(a[0], b[0]);
    }
  }

  /** Every accepted frame has an even number of one bits, whichever of the four CRCs it carries. */
  lemma AcceptedParity(cfg: Config, b: seq<byte>)
    requires cfg.Valid() && Unseal(cfg, b).Ok?
    ensures !BytesParity(b)
  {
    var s := Body(cfg, b);
    var f := LE(Calculate(cfg.crcBytes, s), cfg.crcBytes);
    Reseal(cfg, b);
    CrcParity(cfg.crcBytes, s);
    BytesParityConcat(s, f);
  }

  /** So flipping an odd number of bits, anywhere in the frame, is refused. */
  lemma OddErrorRefused(cfg: Config, b: seq<byte>, b': seq<byte>)
    requires cfg.Valid() && Unseal(cfg, b).Ok? && |b'| == |b| && BitErrors(b, b') % 2 == 1
    ensures Refused(cfg, b')
  {
    AcceptedParity(cfg, b);
    BitErrorsParity(b, b');
    if Unseal(cfg, b').Ok? {
      AcceptedParity(cfg, b');
    }
  }

  // ---------------------------------------------------------------- bursts across the CRC field

  lemma {:induction false} MsbJoin(q: nat, r: nat, a: nat, j: nat)
    requires r < Pow2(j)
    ensures MsbFirst(q * Pow2(j) + r, a + j) == MsbFirst(q, a) + MsbFirst(r, j)
    decreases j
  {
    if j > 0 {
      var p, h, bit := Pow2(j - 1), r / 2, r % 2;
      DoubleTimes(q, p);
      MsbJoin(q, h, a, j - 1);
      MsbStep(q * p + h, bit, a + j - 1);
      MsbStep(h, bit, j - 1);
      assert q * Pow2(j) + r == 2 * (q * p + h) + bit;
    }
  }

  lemma {:induction false} ReverseConcat(a: Bits, b: Bits)
    ensures Reverse(a + b) == Reverse(b) + Reverse(a)
  {
    if a == [] {
      assert a + b == b;
    } else {
      assert (a + b)[1..] == a[1..] + b;
      ReverseConcat(a[1..], b);
    }
  }

  lemma MsbJoinByte(q: nat, r: byte, n: nat)
    ensures MsbFirst(256 * q + r, n + 8) == MsbFirst(q, n) + MsbFirst(r, 8)
  {
    Pow2Bytes(1);
    var p := Pow2(8);
    assert p == 256;
    MsbJoin(q, r, n, 8);
  }

  lemma ReflectedByte(q: nat, r: byte, n: nat)
    ensures Reverse(MsbFirst(256 * q + r, n + 8)) == ByteBits(true, r) + Reverse(MsbFirst(q, n))
  {
    var low, high := MsbFirst(r, 8), MsbFirst(q, n);
    MsbJoinByte(q, r, n);
    ReverseConcat(high, low);
  }

  lemma MessageBitsCons(reflect: bool, b: byte, s: seq<byte>)
    ensures MessageBits(reflect, [b] + s) == ByteBits(reflect, b) + MessageBits(reflect, s)
  {
    assert ([b] + s)[1..] == s;
  }

  lemma {:induction false} ReflectedField(v: nat, k: nat)
    ensures MessageBits(true, LE(v, k)) == Reverse(MsbFirst(v, 8 * k))
  {
    if k > 0 {
      ReflectedField(v / 256, k - 1);
      MessageBitsCons(true, v % 256, LE(v / 256, k - 1));
      ReflectedByte(v / 256, v % 256, 8 * (k - 1));
    }
  }

  lemma {:induction false} ZeroBits(n: nat)
    ensures MsbFirst(0, n) == seq(n, _ => false)
  {
    if n > 0 {
      ZeroBits(n - 1);
    }
  }

  lemma OneByteBits(b: byte)
    ensures MessageBits(false, LE(b, 1)) == MsbFirst(b, 8)
  {
    assert LE(b, 1) == [b] && [b][1..] == [];
  }

  lemma FieldBits1(s: seq<byte>)
    ensures MessageBits(false, LE(Calculate(1, s), 1))
         == Xor(Register(ParamsFor(1), MessageBits(false, s)), seq(8, _ => false))
  {
    var reg := Register(ParamsFor(1), MessageBits(false, s));
    var out := Output(ParamsFor(1), reg);
    MsbFirstOfValue(out);
    CalculateFits(1, s);
    assert Pow256(1) == 256;
    OneByteBits(Calculate(1, s));
    ZeroBits(8);
  }

  lemma FieldBits4(s: seq<byte>)
    ensures MessageBits(true, LE(Calculate(4, s), 4))
         == Xor(Register(ParamsFor(4), MessageBits(true, s)), seq(32, _ => true))
  {
    var reg := Register(ParamsFor(4), MessageBits(true, s));
    var out := Output(ParamsFor(4), reg);
    MsbFirstOfValue(out);
    ReflectedField(Calculate(4, s), 4);
    AllOnes();
    forall i | 0 <= i < 32 ensures Reverse(out)[i] == (reg[i] != true) {
      assert out[31 - i] == (Reverse(reg)[31 - i] != true);
    }
  }

  /** For the CRC-8 and the CRC-32 the field carries the register bits in shift order, up to a constant. */
  lemma FieldBits(cfg: Config, s: seq<byte>)
    requires cfg.Valid() && (cfg.crcBytes == 1 || cfg.crcBytes == 4)
    ensures BitsOf(cfg, LE(Calculate(cfg.crcBytes, s), cfg.crcBytes))
         == Xor(Register(ParamsFor(cfg.crcBytes), BitsOf(cfg, s)), seq(8 * cfg.crcBytes, _ => cfg.crcBytes == 4))
  {
    if cfg.crcBytes == 1 {
      FieldBits1(s);
    } else {
      FieldBits4(s);
    }
  }

  lemma AllOnes()
    ensures MsbFirst(0xffffffff, 32) == seq(32, _ => true)
  {
    OnesStep(31);
    Pow2Bytes(4);
    assert Pow256(4) == 0x1_0000_0000;
  }

  lemma {:induction false} OnesStep(n: nat)
    ensures MsbFirst(Pow2(n + 1) - 1, n + 1) == seq(n + 1, _ => true)
  {
    if n > 0 {
      OnesStep(n - 1);
      assert (Pow2(n + 1) - 1) / 2 == Pow2(n) - 1;
    }
  }

  /** Registers that agree on the field bits after a burst cannot come from bodies that differ in it. */
  lemma StraddlingBurst(p: Params, u: Bits, v: Bits, i: nat, n: nat)
    requires p.width >= 1 && OddGenerator(MsbFirst(p.poly, p.width))
    requires |u| == |v| && i <= |u| && n <= p.width && u[..i] == v[..i]
    requires i + n <= |u| ==> u[i + n..] == v[i + n..]
    requires AgreeLow(Register(p, u), Register(p, v), if i + n <= |u| then p.width else p.width - (i + n - |u|))
    ensures u == v
  {
    var g, r0 := MsbFirst(p.poly, p.width), MsbFirst(p.init, p.width);
    var e := if i + n <= |u| then i + n else |u|;
    var x, y, post := u[i..e], v[i..e], u[e..];
    assert u == u[..i] + x + post && v == u[..i] + y + post;
    FeedConcat(g, r0, u[..i] + x, post);
    FeedConcat(g, r0, u[..i] + y, post);
    FeedConcat(g, r0, u[..i], x);
    FeedConcat(g, r0, u[..i], y);
    var r := Feed(g, r0, u[..i]);
    if e < |u| {
      assert Register(p, u) == Register(p, v);
      FeedInjective(g, Feed(g, r, x), Feed(g, r, y), post);
    }
    WindowInjective(g, r, x, y, if i + n <= |u| then p.width else p.width - (i + n - |u|));
  }

  lemma SealedBits(cfg: Config, s: seq<byte>)
    requires cfg.Valid() && (cfg.crcBytes == 1 || cfg.crcBytes == 4)
    ensures BitsOf(cfg, Sealed(cfg, s))
         == BitsOf(cfg, s) + Xor(Register(ParamsFor(cfg.crcBytes), BitsOf(cfg, s)),
                                 seq(8 * cfg.crcBytes, _ => cfg.crcBytes == 4))
  {
    MessageBitsConcat(ParamsFor(cfg.crcBytes).reflect, s, LE(Calculate(cfg.crcBytes, s), cfg.crcBytes));
    FieldBits(cfg, s);
  }

  /** On bits alone: a codeword is a message followed by its register, up to a constant. */
  lemma CodewordBurst(p: Params, c: Bits, u: Bits, v: Bits, i: nat, n: nat)
    requires p.width >= 1 && OddGenerator(MsbFirst(p.poly, p.width)) && |c| == p.width
    requires |u| == |v| && n <= p.width && i + n <= |u| + p.width
    requires AgreeOutside(u + Xor(Register(p, u), c), v + Xor(Register(p, v), c), i, n)
    ensures u == v
  {
    var r, r', B := Register(p, u), Register(p, v), |u|;
    var f, f' := u + Xor(r, c), v + Xor(r', c);
    forall j | 0 <= j < B && (j < i || j >= i + n) ensures u[j] == v[j] {
      assert f[j] == f'[j];
    }
    if i < B {
      var m := if i + n <= B then 0 else i + n - B;
      forall j | m <= j < p.width ensures r[j] == r'[j] {
        assert f[B + j] == f'[B + j];
      }
      StraddlingBurst(p, u, v, i, n);
    }
  }

  ghost predicate AgreeOutside(u: Bits, v: Bits, i: nat, n: nat) {
    |u| == |v| && forall j :: 0 <= j < |u| && (j < i || j >= i + n) ==> u[j] == v[j]
  }

  lemma BurstAgreesOutside(u: Bits, v: Bits, i: nat, n: nat)
    requires Burst(u, v, i, n)
    ensures AgreeOutside(u, v, i, n)
  {
    forall j | 0 <= j < |u| && (j < i || j >= i + n) ensures u[j] == v[j] {
      if j < i {
        assert u[..i][j] == v[..i][j];
      } else {
        assert u[i + n..][j - i - n] == v[i + n..][j - i - n];
      }
    }
  }

  /** Two accepted frames never differ by a burst of at most CrcBytes * 8 bits, wherever it falls in the frame. */
  lemma FrameBurstRefused(cfg: Config, b: seq<byte>, b': seq<byte>, i: nat, n: nat)
    requires cfg.Valid() && (cfg.crcBytes == 1 || cfg.crcBytes == 4)
    requires Unseal(cfg, b).Ok? && n <= 8 * cfg.crcBytes && Burst(BitsOf(cfg, b), BitsOf(cfg, b'), i, n)
    ensures Refused(cfg, b')
  {
    if Unseal(cfg, b').Ok? {
      var p, s, t := ParamsFor(cfg.crcBytes), Body(cfg, b), Body(cfg, b');
      Reseal(cfg, b);
      Reseal(cfg, b');
      SealedBits(cfg, s);
      SealedBits(cfg, t);
      BurstAgreesOutside(BitsOf(cfg, b), BitsOf(cfg, b'), i, n);
      PolyIsOdd(cfg.crcBytes);
      CodewordBurst(p, seq(8 * cfg.crcBytes, _ => cfg.crcBytes == 4), BitsOf(cfg, s), BitsOf(cfg, t), i, n);
      assert false;
    }
  }

  // ---------------------------------------------------------------- where the guarantee stops

  lemma LastBit(s: seq<byte>, n: nat)
    requires |s| == n + 1
    ensures MessageBits(false, s)[8 * n + 7] == (s[n] % 2 == 1)
  {
    var pre, last := s[..n], s[n];
    assert s == pre + [last];
    MessageBitsConcat(false, pre, [last]);
    assert [last] + [] == [last];
    MessageBitsCons(false, last, []);
    MsbStep(last / 2, last % 2, 7);
  }

  lemma HighByte(k: nat, h: nat, low: nat)
    requires (k == 2 || k == 3) && low < Pow256(k - 1)
    ensures LE(h * Pow256(k - 1) + low, k)[k - 1] == h % 256
  {
    assert Pow256(1) == 256 && Pow256(2) == 65536;
    var v := h * Pow256(k - 1) + low;
    if k == 2 {
      assert LE(v, 2)[1] == LE(v / 256, 1)[0] == v / 256 % 256;
    } else {
      assert LE(v, 3)[2] == LE(v / 256, 2)[1] == LE(v / 256 / 256, 1)[0] == v / 256 / 256 % 256;
    }
  }

  lemma HighBit(k: nat, h: nat, low: nat)
    requires (k == 2 || k == 3) && low < Pow256(k - 1)
    ensures MsbFirst(h * Pow256(k - 1) + low, 8 * k)[7] == (h % 2 == 1)
  {
    Pow2Bytes(k - 1);
    MsbJoin(h, low, 8, 8 * (k - 1));
    MsbStep(h / 2, h % 2, 7);
  }

  /** The last bit on the wire of a 2 or 3 byte CRC field is bit 7 of the CRC, counted from its top. */
  lemma LastFieldBit(k: nat, v: nat)
    requires k == 2 || k == 3
    ensures MessageBits(false, LE(v, k))[8 * k - 1] == MsbFirst(v, 8 * k)[7]
  {
    var p := Pow256(k - 1);
    var h, low := v / p, v % p;
    assert v == h * p + low;
    HighBit(k, h, low);
    var b := LE(v, k);
    assert b[k - 1] == h % 256 by { HighByte(k, h, low); }
    HighByteParity(b, k, h);
  }

  lemma HighByteParity(b: seq<byte>, k: nat, h: nat)
    requires |b| == k >= 1 && b[k - 1] == h % 256
    ensures MessageBits(false, b)[8 * k - 1] == (h % 2 == 1)
  {
    var last := b[k - 1];
    assert last % 2 == h % 2;
    LastBit(b, k - 1);
  }

  lemma FlipLastBit(s: seq<byte>, s': seq<byte>) returns (x: Bits)
    requires s != [] && s[|s| - 1] % 2 == 0 && s' == s[|s| - 1 := s[|s| - 1] + 1]
    ensures MessageBits(false, s) == x + [false] && MessageBits(false, s') == x + [true]
    ensures |x| == 8 * |s| - 1
  {
    var pre, a := s[..|s| - 1], s[|s| - 1];
    var q := MsbFirst(a / 2, 7);
    x := MessageBits(false, pre) + q;
    assert a / 2 == (a + 1) / 2;
    OneMore(pre, a, q, false);
    OneMore(pre, a + 1, q, true);
    assert s == pre + [a] && s' == pre + [a + 1];
  }

  lemma OneMore(pre: seq<byte>, a: byte, q: Bits, bit: bool)
    requires MsbFirst(a, 8) == q + [bit]
    ensures MessageBits(false, pre + [a]) == MessageBits(false, pre) + q + [bit]
  {
    MessageBitsConcat(false, pre, [a]);
    assert [a][1..] == [];
    assert MessageBits(false, [a]) == q + [bit];
  }

  /** Flipping the last message bit adds the polynomial to the CRC, and the four polynomials decide which bits that is. */
  lemma FlipLastCrc(k: nat, x: Bits)
    requires k == 2 || k == 3
    ensures var p := ParamsFor(k); Output(p, Register(p, x + [false]))[7] == Output(p, Register(p, x + [true]))[7]
  {
    var p := ParamsFor(k);
    var g, r0 := MsbFirst(p.poly, p.width), MsbFirst(p.init, p.width);
    FeedConcat(g, r0, x, [false]);
    FeedConcat(g, r0, x, [true]);
    var r := Feed(g, r0, x);
    assert [false][1..] == [] && [true][1..] == [];
    assert Register(p, x + [false]) == Shift(g, r, false) && Register(p, x + [true]) == Shift(g, r, true);
    PolyBit(k);
  }

  lemma PolyBit(k: nat)
    requires k == 2 || k == 3
    ensures !MsbFirst(ParamsFor(k).poly, 8 * k)[7]
  {
    assert Pow256(1) == 256 && Pow256(2) == 65536;
    if k == 2 {
      HighBit(2, 0x10, 0x21);
    } else {
      HighBit(3, 0x32, 0x8b63);
    }
  }

  lemma SealedAccepted(cfg: Config, s: seq<byte>)
    requires cfg.Valid() && |s| >= 2
    ensures Unseal(cfg, Sealed(cfg, s)).Ok?
  {
    FrameExact(cfg, Sealed(cfg, s), s[0], s[1], s[2..]);
    assert [s[0], s[1]] + s[2..] == s;
  }

  /** The 2 and 3 byte CRCs are sent low byte first but shifted high bit first. For every body that ends in an
      even byte, an accepted frame lies within a burst of CrcBytes * 8 bits that starts at the last body bit. */
  lemma StraddlingBurstAccepted(cfg: Config, s: seq<byte>, s': seq<byte>)
    requires cfg.Valid() && (cfg.crcBytes == 2 || cfg.crcBytes == 3)
    requires |s| >= 2 && s[|s| - 1] % 2 == 0 && s' == s[|s| - 1 := s[|s| - 1] + 1]
    ensures Unseal(cfg, Sealed(cfg, s)).Ok? && Unseal(cfg, Sealed(cfg, s')).Ok?
    ensures Burst(BitsOf(cfg, Sealed(cfg, s)), BitsOf(cfg, Sealed(cfg, s')), 8 * |s| - 1, 8 * cfg.crcBytes)
  {
    var k, p := cfg.crcBytes, ParamsFor(cfg.crcBytes);
    SealedAccepted(cfg, s);
    SealedAccepted(cfg, s');
    var x := FlipLastBit(s, s');
    FlipLastCrc(k, x);
    MsbFirstOfValue(Output(p, Register(p, x + [false])));
    MsbFirstOfValue(Output(p, Register(p, x + [true])));
    var f, f' := MessageBits(false, LE(Calculate(k, s), k)), MessageBits(false, LE(Calculate(k, s'), k));
    MessageBitsConcat(false, s, LE(Calculate(k, s), k));
    MessageBitsConcat(false, s', LE(Calculate(k, s'), k));
    LastFieldBit(k, Calculate(k, s));
    LastFieldBit(k, Calculate(k, s'));
    BurstFromLast(x, f, f');
  }

  lemma BurstFromLast(x: Bits, f: Bits, f': Bits)
    requires |f| == |f'| >= 1 && f[|f| - 1] == f'[|f| - 1]
    ensures Burst(x + [false] + f, x + [true] + f', |x|, |f|)
  {
    var u, v := x + [false] + f, x + [true] + f';
    assert u[|x|] != v[|x|];
    assert u[..|x|] == x == v[..|x|];
    assert u[|x| + |f|..] == [f[|f| - 1]] == v[|x| + |f|..];
  }

  /** Every burst of at most CrcBytes * 8 bits in an accepted frame, CRC field included, is refused. */
  ghost predicate RefusesFrameBursts(cfg: Config)
    requires cfg.Valid()
  {
    forall b, b', i, n :: FrameBurst(cfg, b, b', i, n) ==> Refused(cfg, b')
  }

  ghost predicate FrameBurst(cfg: Config, b: seq<byte>, b': seq<byte>, i: nat, n: nat)
    requires cfg.Valid()
  {
    Unseal(cfg, b).Ok? && n <= 8 * cfg.crcBytes && Burst(BitsOf(cfg, b), BitsOf(cfg, b'), i, n)
  }

  /** Which of the four CRCs give that guarantee. */
  lemma FrameBurstsExactly(cfg: Config)
    requires cfg.Valid()
    ensures RefusesFrameBursts(cfg) <==> cfg.crcBytes == 1 || cfg.crcBytes == 4
  {
    if cfg.crcBytes == 1 || cfg.crcBytes == 4 {
      forall b, b', i, n | FrameBurst(cfg, b, b', i, n) ensures Refused(cfg, b') {
        FrameBurstRefused(cfg, b, b', i, n);
      }
    } else {
      var s: seq<byte>, s': seq<byte> := [0, 0], [0, 1];
      StraddlingBurstAccepted(cfg, s, s');
      NotRefused(cfg, Sealed(cfg, s'));
      assert FrameBurst(cfg, Sealed(cfg, s), Sealed(cfg, s'), 8 * |s| - 1, 8 * cfg.crcBytes);
    }
  }

  /** A frame whose CRC matches and whose type is a single read is not refused for its CRC. */
  lemma NotRefused(cfg: Config, b: seq<byte>)
    requires cfg.Valid() && Unseal(cfg, b).Ok? && b[1] == 0x01
    ensures !Refused(cfg, b)
  {
    assert DecodedCommand(cfg, b) == DecodedReadSingle(cfg, b[0], Unseal(cfg, b).value);
  }
}
