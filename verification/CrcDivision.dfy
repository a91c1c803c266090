/**
 * The CRC as a remainder: bit strings are polynomials over GF(2), highest coefficient first, and a
 * generator of `w` bits stands for the polynomial of degree `w` whose low coefficients it lists.
 */
module CrcDivision {
  import opened Bytes
  import opened Crc

  /** The product of the polynomial `q` and the generator. */
  function Times(q: Bits, g: Bits): (r: Bits)
    ensures |r| == |q| + |g|
  {
    if q == [] then Zeros(|g|)
    else Xor(if q[0] then [true] + g + Zeros(|q| - 1) else Zeros(|q| + |g|), [false] + Times(q[1..], g))
  }

  /** `r` is what the division of `d` by the generator leaves, for some quotient. */
  ghost predicate IsRemainder(d: Bits, g: Bits, r: Bits)
    requires |g| == |r| <= |d|
  {
    exists q: Bits :: |q| + |g| == |d| && d == Xor(Times(q, g), Zeros(|q|) + r)
  }

  /** The dividend of a message: a register full of `init` is added to its first bits. */
  function Dividend(init: Bits, bits: Bits): (r: Bits)
    ensures |r| == |init| + |bits|
  {
    Xor(init + Zeros(|bits|), bits + Zeros(|init|))
  }

  /** The feedback bits of the register are the quotient. */
  function Quotient(g: Bits, reg: Bits, bits: Bits): (q: Bits)
    requires |g| == |reg| >= 1
    ensures |q| == |bits|
    decreases |bits|
  {
    if bits == [] then [] else [reg[0] != bits[0]] + Quotient(g, Shift(g, reg, bits[0]), bits[1..])
  }

  /** Taking one multiple of the generator off the dividend is one step of the register. */
  lemma DividendStep(g: Bits, reg: Bits, bits: Bits)
    requires |g| == |reg| >= 1 && bits != []
    ensures var m := if reg[0] != bits[0] then [true] + g + Zeros(|bits| - 1) else Zeros(|bits| + |g|);
            Dividend(reg, bits) == Xor(m, [false] + Dividend(Shift(g, reg, bits[0]), bits[1..]))
  {
    var w, n, bit := |g|, |bits|, bits[0];
    var m := if reg[0] != bit then [true] + g + Zeros(n - 1) else Zeros(n + w);
    var rest := Dividend(Shift(g, reg, bit), bits[1..]);
    forall i | 0 <= i < n + w ensures Dividend(reg, bits)[i] == Xor(m, [false] + rest)[i] {
      if i > 0 {
        assert rest[i - 1] == ((Shift(g, reg, bit) + Zeros(n - 1))[i - 1] != (bits[1..] + Zeros(w))[i - 1]);
      }
    }
  }

  lemma XorPrepend(m: Bits, a: Bits, b: Bits)
    requires |a| == |b| && |m| == |a| + 1
    ensures Xor(m, [false] + Xor(a, b)) == Xor(Xor(m, [false] + a), [false] + b)
  {
  }

  lemma ZerosPrepend(n: nat, r: Bits)
    ensures [false] + (Zeros(n) + r) == Zeros(n + 1) + r
  {
  }

  /** Dividend = quotient times generator + register. */
  lemma {:induction false} FeedDivides(g: Bits, reg: Bits, bits: Bits)
    requires |g| == |reg| >= 1
    ensures Dividend(reg, bits) == Xor(Times(Quotient(g, reg, bits), g), Zeros(|bits|) + Feed(g, reg, bits))
    decreases |bits|
  {
    if bits == [] {
      assert Zeros(0) + reg == reg && reg + Zeros(0) == reg;
      assert Xor(reg, Zeros(|g|)) == reg && Xor(Zeros(|g|), reg) == reg;
    } else {
      var next, q := Shift(g, reg, bits[0]), Quotient(g, reg, bits);
      var m := if q[0] then [true] + g + Zeros(|q| - 1) else Zeros(|q| + |g|);
      FeedDivides(g, next, bits[1..]);
      DividendStep(g, reg, bits);
      assert q[1..] == Quotient(g, next, bits[1..]);
      XorPrepend(m, Times(q[1..], g), Zeros(|bits| - 1) + Feed(g, next, bits[1..]));
      ZerosPrepend(|bits| - 1, Feed(g, next, bits[1..]));
    }
  }

  lemma TimesHead(q: Bits, g: Bits)
    requires q != [] && |g| >= 1
    ensures Times(q, g)[0] == q[0]
  {
  }

  lemma XorCancel(m: Bits, a: Bits, b: Bits, c: Bits, d: Bits)
    requires |a| == |b| == |c| == |d| && |m| == |a| + 1
    requires Xor(Xor(m, [false] + a), [false] + b) == Xor(Xor(m, [false] + c), [false] + d)
    ensures Xor(a, b) == Xor(c, d)
  {
    forall i | 0 <= i < |a| ensures Xor(a, b)[i] == Xor(c, d)[i] {
      assert Xor(Xor(m, [false] + a), [false] + b)[i + 1] == Xor(Xor(m, [false] + c), [false] + d)[i + 1];
    }
  }

  /** Quotient and remainder are unique. */
  lemma {:induction false} RemainderUnique(g: Bits, p: Bits, q: Bits, r: Bits, t: Bits)
    requires |p| == |q| && |g| == |r| == |t| >= 1
    requires Xor(Times(p, g), Zeros(|p|) + r) == Xor(Times(q, g), Zeros(|q|) + t)
    ensures r == t
    decreases |p|
  {
    if p == [] {
      forall i | 0 <= i < |r| ensures r[i] == t[i] {
        assert Xor(Zeros(|g|), Zeros(0) + r)[i] == Xor(Zeros(|g|), Zeros(0) + t)[i];
      }
    } else {
      var n := |p| - 1;
      TimesHead(p, g);
      TimesHead(q, g);
      assert Xor(Times(p, g), Zeros(|p|) + r)[0] == Xor(Times(q, g), Zeros(|q|) + t)[0];
      var m := if p[0] then [true] + g + Zeros(n) else Zeros(|p| + |g|);
      ZerosPrepend(n, r);
      ZerosPrepend(n, t);
      XorCancel(m, Times(p[1..], g), Zeros(n) + r, Times(q[1..], g), Zeros(n) + t);
      RemainderUnique(g, p[1..], q[1..], r, t);
    }
  }

  /** A register run leaves the remainder of its dividend, and nothing else is one. */
  lemma FeedIsRemainder(g: Bits, reg: Bits, bits: Bits, r: Bits)
    requires |g| == |reg| == |r| >= 1
    ensures IsRemainder(Dividend(reg, bits), g, r) <==> r == Feed(g, reg, bits)
  {
    var d := Dividend(reg, bits);
    FeedDivides(g, reg, bits);
    var q := Quotient(g, reg, bits);
    assert |q| + |g| == |d| && d == Xor(Times(q, g), Zeros(|q|) + Feed(g, reg, bits));
    if IsRemainder(d, g, r) {
      var p: Bits :| |p| + |g| == |d| && d == Xor(Times(p, g), Zeros(|p|) + r);
      RemainderUnique(g, p, q, r, Feed(g, reg, bits));
    }
  }

  // ---------------------------------------------------------------- the four parameter sets

  lemma XorTwice(a: Bits, b: Bits)
    requires |a| == |b|
    ensures Xor(Xor(a, b), b) == a
  {
  }

  lemma ReverseTwice(a: Bits)
    ensures Reverse(Reverse(a)) == a
  {
  }

  /** The register that comes out as `out`. */
  function Undone(p: Params, out: Bits): (r: Bits)
    requires |out| == p.width
    ensures |r| == p.width
  {
    var x := Xor(out, MsbFirst(p.xorOut, p.width));
    if p.reflect then Reverse(x) else x
  }

  lemma OutputUndone(p: Params, reg: Bits, out: Bits)
    requires |reg| == |out| == p.width
    ensures Output(p, reg) == out <==> reg == Undone(p, out)
  {
    XorTwice(out, MsbFirst(p.xorOut, p.width));
    XorTwice(if p.reflect then Reverse(reg) else reg, MsbFirst(p.xorOut, p.width));
    ReverseTwice(reg);
    ReverseTwice(Xor(out, MsbFirst(p.xorOut, p.width)));
  }

  lemma ValueIs(out: Bits, v: nat)
    ensures Value(out) == v <==> v < Pow2(|out|) && MsbFirst(v, |out|) == out
  {
    ValueBound(out);
    MsbFirstOfValue(out);
    if v < Pow2(|out|) {
      ValueOfMsbFirst(v, |out|);
    }
  }

  lemma CalculateDivides(crcBytes: nat, s: seq<byte>, v: nat)
    requires 1 <= crcBytes <= 4
    ensures var p := ParamsFor(crcBytes);
            Calculate(crcBytes, s) == v
            <==> && v < Pow256(crcBytes)
                 && IsRemainder(Dividend(MsbFirst(p.init, p.width), MessageBits(p.reflect, s)),
                                MsbFirst(p.poly, p.width), Undone(p, MsbFirst(v, p.width)))
  {
    var p := ParamsFor(crcBytes);
    var bits, w := MessageBits(p.reflect, s), p.width;
    var reg, out := Register(p, bits), MsbFirst(v, w);
    Pow2Bytes(crcBytes);
    ValueIs(Output(p, reg), v);
    OutputUndone(p, reg, out);
    FeedIsRemainder(MsbFirst(p.poly, w), MsbFirst(p.init, w), bits, Undone(p, out));
  }

  lemma PlainDividend(w: nat, bits: Bits)
    ensures Dividend(MsbFirst(0, w), bits) == bits + Zeros(w)
  {
    ZeroBits(w);
  }

  lemma PlainUndone(p: Params, out: Bits)
    requires |out| == p.width && p.xorOut == 0 && !p.reflect
    ensures Undone(p, out) == out
  {
    ZeroBits(p.width);
  }

  /** CRC-8/DVB-S2 is the remainder of the message. */
  lemma Crc8IsRemainder(s: seq<byte>, v: nat)
    ensures Calculate(1, s) == v
      <==> v < 0x100 && IsRemainder(MessageBits(false, s) + Zeros(8), MsbFirst(0xD5, 8), MsbFirst(v, 8))
  {
    CalculateDivides(1, s, v);
    PlainDividend(8, MessageBits(false, s));
    PlainUndone(ParamsFor(1), MsbFirst(v, 8));
    FourPowers();
  }

  /** CRC-16/XMODEM is the remainder of the message. */
  lemma Crc16IsRemainder(s: seq<byte>, v: nat)
    ensures Calculate(2, s) == v
      <==> v < 0x1_0000 && IsRemainder(MessageBits(false, s) + Zeros(16), MsbFirst(0x1021, 16), MsbFirst(v, 16))
  {
    CalculateDivides(2, s, v);
    PlainDividend(16, MessageBits(false, s));
    PlainUndone(ParamsFor(2), MsbFirst(v, 16));
    FourPowers();
  }

  /** CRC-24/INTERLAKEN adds ones to the first 24 bits of the message and to the remainder. */
  lemma Crc24IsRemainder(s: seq<byte>, v: nat)
    ensures Calculate(3, s) == v
      <==> && v < 0x100_0000
           && IsRemainder(Dividend(MsbFirst(0xFFFFFF, 24), MessageBits(false, s)), MsbFirst(0x328B63, 24),
                          Xor(MsbFirst(v, 24), MsbFirst(0xFFFFFF, 24)))
  {
    CalculateDivides(3, s, v);
    FourPowers();
  }

  /** CRC-32/INTERLAKEN does so too, and takes each byte and gives the remainder lowest bit first. */
  lemma Crc32IsRemainder(s: seq<byte>, v: nat)
    ensures Calculate(4, s) == v
      <==> && v < 0x1_0000_0000
           && IsRemainder(Dividend(MsbFirst(0xFFFFFFFF, 32), MessageBits(true, s)), MsbFirst(0x1EDC6F41, 32),
                          Reverse(Xor(MsbFirst(v, 32), MsbFirst(0xFFFFFFFF, 32))))
  {
    CalculateDivides(4, s, v);
    FourPowers();
  }
}
