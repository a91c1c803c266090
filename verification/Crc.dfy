/** The bit-serial CRC that the four parameter sets of Serdes define, and what it detects. */
module Crc {
  import opened Bytes

  type Bits = seq<bool>

  function Pow2(n: nat): (p: nat)
    ensures p >= 1
  {
    if n == 0 then 1 else 2 * Pow2(n - 1)
  }

  /** The low `w` bits of `v`, most significant first. */
  function MsbFirst(v: nat, w: nat): (r: Bits)
    ensures |r| == w
  {
    if w == 0 then [] else MsbFirst(v / 2, w - 1) + [v % 2 == 1]
  }

  function Value(r: Bits): nat {
    if r == [] then 0 else 2 * Value(r[..|r| - 1]) + if r[|r| - 1] then 1 else 0
  }

  function Reverse(r: Bits): (s: Bits)
    ensures |s| == |r|
    ensures forall i :: 0 <= i < |r| ==> s[i] == r[|r| - 1 - i]
  {
    if r == [] then [] else Reverse(r[1..]) + [r[0]]
  }

  function Xor(a: Bits, b: Bits): (c: Bits)
    requires |a| == |b|
    ensures |c| == |a|
  {
    seq(|a|, i requires 0 <= i < |a| => a[i] != b[i])
  }

  datatype Params = Params(width: nat, poly: nat, init: nat, xorOut: nat, reflect: bool)

  /** CRC-8/DVB-S2, CRC-16/XMODEM, CRC-24/INTERLAKEN and CRC-32/INTERLAKEN. */
  function ParamsFor(crcBytes: nat): (p: Params)
    requires 1 <= crcBytes <= 4
    ensures p.width == 8 * crcBytes
  {
    if crcBytes == 1 then Params(8, 0xd5, 0x00, 0x00, false)
    else if crcBytes == 2 then Params(16, 0x1021, 0x0000, 0x0000, false)
    else if crcBytes == 3 then Params(24, 0x328b63, 0xffffff, 0xffffff, false)
    else Params(32, 0x1edc6f41, 0xffffffff, 0xffffffff, true)
  }

  /** The bits of a message in the order in which they enter the register. */
  function MessageBits(reflect: bool, s: seq<byte>): (r: Bits)
    ensures |r| == 8 * |s|
  {
    if s == [] then [] else ByteBits(reflect, s[0]) + MessageBits(reflect, s[1..])
  }

  function ByteBits(reflect: bool, b: byte): (r: Bits)
    ensures |r| == 8
  {
    if reflect then Reverse(MsbFirst(b, 8)) else MsbFirst(b, 8)
  }

  /** One register step: shift out the top bit and subtract the generator when the feedback is set. */
  function Shift(g: Bits, reg: Bits, bit: bool): (r: Bits)
    requires |g| == |reg| >= 1
    ensures |r| == |reg|
  {
    Xor(reg[1..] + [false], if reg[0] != bit then g else Zeros(|g|))
  }

  function Zeros(n: nat): (r: Bits)
    ensures |r| == n && forall i :: 0 <= i < n ==> !r[i]
  {
    seq(n, _ => false)
  }

  function Feed(g: Bits, reg: Bits, bits: Bits): (r: Bits)
    requires |g| == |reg| >= 1
    ensures |r| == |reg|
    decreases |bits|
  {
    if bits == [] then reg else Feed(g, Shift(g, reg, bits[0]), bits[1..])
  }

  function Register(p: Params, bits: Bits): (r: Bits)
    requires p.width >= 1
    ensures |r| == p.width
  {
    Feed(MsbFirst(p.poly, p.width), MsbFirst(p.init, p.width), bits)
  }

  function Output(p: Params, reg: Bits): (r: Bits)
    requires |reg| == p.width
    ensures |r| == p.width
  {
    Xor(if p.reflect then Reverse(reg) else reg, MsbFirst(p.xorOut, p.width))
  }

  /** What calculateCrc returns for CrcBytes == crcBytes. */
  function Calculate(crcBytes: nat, s: seq<byte>): nat
    requires 1 <= crcBytes <= 4
  {
    var p := ParamsFor(crcBytes);
    Value(Output(p, Register(p, MessageBits(p.reflect, s))))
  }

  // ---------------------------------------------------------------- bits and values

  lemma {:induction false} MsbFirstOfValue(r: Bits)
    ensures MsbFirst(Value(r), |r|) == r
  {
    if r != [] {
      MsbFirstOfValue(r[..|r| - 1]);
      assert r == r[..|r| - 1] + [r[|r| - 1]];
    }
  }

  lemma {:induction false} ValueOfMsbFirst(v: nat, w: nat)
    requires v < Pow2(w)
    ensures Value(MsbFirst(v, w)) == v
  {
    if w > 0 {
      ValueOfMsbFirst(v / 2, w - 1);
      assert MsbFirst(v, w)[..w - 1] == MsbFirst(v / 2, w - 1);
    }
  }

  lemma {:induction false} ValueBound(r: Bits)
    ensures Value(r) < Pow2(|r|)
  {
    if r != [] {
      ValueBound(r[..|r| - 1]);
    }
  }

  lemma {:induction false} ZeroBits(w: nat)
    ensures MsbFirst(0, w) == Zeros(w)
  {
    if w > 0 {
      ZeroBits(w - 1);
    }
  }

  lemma FourPowers()
    ensures Pow256(1) == 256 && Pow256(2) == 0x1_0000 && Pow256(3) == 0x100_0000 && Pow256(4) == 0x1_0000_0000
  {
  }

  lemma {:induction false} Pow2Bytes(k: nat)
    ensures Pow2(8 * k) == Pow256(k)
  {
    if k > 0 {
      Pow2Bytes(k - 1);
      assert Pow2(8 * k) == 256 * Pow2(8 * k - 8) by {
        assert Pow2(8 * k) == 4 * Pow2(8 * k - 2);
        assert Pow2(8 * k - 2) == 4 * Pow2(8 * k - 4);
        assert Pow2(8 * k - 4) == 4 * Pow2(8 * k - 6);
        assert Pow2(8 * k - 6) == 4 * Pow2(8 * k - 8);
      }
    }
  }

  /** The CRC fits its field, so appendCrc and extractCrc lose nothing. */
  lemma CalculateFits(crcBytes: nat, s: seq<byte>)
    requires 1 <= crcBytes <= 4
    ensures Calculate(crcBytes, s) < Pow256(crcBytes)
  {
    var p := ParamsFor(crcBytes);
    ValueBound(Output(p, Register(p, MessageBits(p.reflect, s))));
    Pow2Bytes(crcBytes);
  }

  lemma OutputInjective(p: Params, u: Bits, v: Bits)
    requires |u| == |v| == p.width
    requires Value(Output(p, u)) == Value(Output(p, v))
    ensures u == v
  {
    MsbFirstOfValue(Output(p, u));
    MsbFirstOfValue(Output(p, v));
    var a := if p.reflect then Reverse(u) else u;
    var b := if p.reflect then Reverse(v) else v;
    forall i | 0 <= i < p.width ensures a[i] == b[i] {
      assert Output(p, u)[i] == Output(p, v)[i];
    }
    forall i | 0 <= i < p.width ensures u[i] == v[i] {
      if p.reflect {
        assert a[p.width - 1 - i] == b[p.width - 1 - i];
      }
    }
  }

  // ---------------------------------------------------------------- bursts

  /** Two registers agree on their low `n` bits. */
  ghost predicate AgreeLow(u: Bits, v: Bits, n: nat)
  {
    |u| == |v| && n <= |u| && forall i :: |u| - n <= i < |u| ==> u[i] == v[i]
  }

  ghost predicate OddGenerator(g: Bits) {
    |g| >= 1 && g[|g| - 1]
  }

  /** An odd generator makes the lowest bit of the next register equal to the feedback. */
  lemma ShiftBack(g: Bits, u: Bits, v: Bits, x: bool, y: bool, n: nat)
    requires OddGenerator(g) && |g| == |u| == |v|
    requires n >= 1 && AgreeLow(Shift(g, u, x), Shift(g, v, y), n)
    ensures (u[0] != x) == (v[0] != y)
    ensures AgreeLow(u, v, n - 1)
  {
    var w := |g|;
    var a, b := Shift(g, u, x), Shift(g, v, y);
    assert a[w - 1] == (u[0] != x) && b[w - 1] == (v[0] != y);
    forall i | w - (n - 1) <= i < w ensures u[i] == v[i] {
      assert a[i - 1] == b[i - 1];
    }
  }

  lemma {:induction false} FeedBack(g: Bits, u: Bits, v: Bits, xs: Bits, ys: Bits, n: nat)
    requires OddGenerator(g) && |g| == |u| == |v| && |xs| == |ys| <= n
    requires AgreeLow(Feed(g, u, xs), Feed(g, v, ys), n)
    ensures AgreeLow(u, v, n - |xs|)
    decreases |xs|
  {
    if xs != [] {
      FeedBack(g, Shift(g, u, xs[0]), Shift(g, v, ys[0]), xs[1..], ys[1..], n);
      ShiftBack(g, u, v, xs[0], ys[0], n - |xs| + 1);
    }
  }

  /** No two windows of at most `n` bits drive one register to states that agree on their low `n` bits. */
  lemma {:induction false} WindowInjective(g: Bits, u: Bits, xs: Bits, ys: Bits, n: nat)
    requires OddGenerator(g) && |g| == |u| && |xs| == |ys| <= n
    requires AgreeLow(Feed(g, u, xs), Feed(g, u, ys), n)
    ensures xs == ys
    decreases |xs|
  {
    if xs != [] {
      FeedBack(g, Shift(g, u, xs[0]), Shift(g, u, ys[0]), xs[1..], ys[1..], n);
      ShiftBack(g, u, u, xs[0], ys[0], n - |xs| + 1);
      WindowInjective(g, Shift(g, u, xs[0]), xs[1..], ys[1..], n);
      assert xs == [xs[0]] + xs[1..] && ys == [ys[0]] + ys[1..];
    }
  }

  /** Every register step is a bijection, so a difference never heals under equal input. */
  lemma {:induction false} FeedInjective(g: Bits, u: Bits, v: Bits, xs: Bits)
    requires OddGenerator(g) && |g| == |u| == |v|
    requires Feed(g, u, xs) == Feed(g, v, xs)
    ensures u == v
    decreases |xs|
  {
    if xs != [] {
      FeedInjective(g, Shift(g, u, xs[0]), Shift(g, v, xs[0]), xs[1..]);
      ShiftBack(g, u, v, xs[0], xs[0], |g|);
      assert forall i :: 0 <= i < |g| ==> u[i] == v[i];
    }
  }

  lemma {:induction false} FeedConcat(g: Bits, reg: Bits, a: Bits, b: Bits)
    requires |g| == |reg| >= 1
    ensures Feed(g, reg, a + b) == Feed(g, Feed(g, reg, a), b)
    decreases |a|
  {
    if a == [] {
      assert a + b == b;
    } else {
      assert (a + b)[1..] == a[1..] + b;
      FeedConcat(g, Shift(g, reg, a[0]), a[1..], b);
    }
  }

  lemma MsbStep(a: nat, bit: nat, w: nat)
    requires bit < 2
    ensures MsbFirst(2 * a + bit, w + 1) == MsbFirst(a, w) + [bit == 1]
  {
    assert (2 * a + bit) / 2 == a && (2 * a + bit) % 2 == bit;
  }

  lemma PolyIsOdd(crcBytes: nat)
    requires 1 <= crcBytes <= 4
    ensures OddGenerator(MsbFirst(ParamsFor(crcBytes).poly, 8 * crcBytes))
  {
    var poly, w := ParamsFor(crcBytes).poly, 8 * crcBytes;
    assert poly % 2 == 1;
    MsbStep(poly / 2, 1, w - 1);
  }

  /** A burst of at most 8 * crcBytes bits, at any bit position, changes the CRC. */
  lemma BurstChangesCrc(crcBytes: nat, s: seq<byte>, t: seq<byte>, pre: Bits, x: Bits, y: Bits, post: Bits)
    requires 1 <= crcBytes <= 4 && |x| == |y| <= 8 * crcBytes && x != y
    requires MessageBits(ParamsFor(crcBytes).reflect, s) == pre + x + post
    requires MessageBits(ParamsFor(crcBytes).reflect, t) == pre + y + post
    ensures Calculate(crcBytes, s) != Calculate(crcBytes, t)
  {
    if Calculate(crcBytes, s) == Calculate(crcBytes, t) {
      var p := ParamsFor(crcBytes);
      var g, r0 := MsbFirst(p.poly, p.width), MsbFirst(p.init, p.width);
      PolyIsOdd(crcBytes);
      OutputInjective(p, Register(p, pre + x + post), Register(p, pre + y + post));
      FeedConcat(g, r0, pre + x, post);
      FeedConcat(g, r0, pre + y, post);
      FeedConcat(g, r0, pre, x);
      FeedConcat(g, r0, pre, y);
      var r := Feed(g, r0, pre);
      FeedInjective(g, Feed(g, r, x), Feed(g, r, y), post);
      WindowInjective(g, r, x, y, p.width);
      assert false;
    }
  }

  // ---------------------------------------------------------------- parity

  function Parity(r: Bits): bool {
    if r == [] then false else r[0] != Parity(r[1..])
  }

  lemma {:induction false} ParityConcat(a: Bits, b: Bits)
    ensures Parity(a + b) == (Parity(a) != Parity(b))
  {
    if a == [] {
      assert a + b == b;
    } else {
      assert (a + b)[1..] == a[1..] + b;
      ParityConcat(a[1..], b);
    }
  }

  lemma {:induction false} ParityXor(a: Bits, b: Bits)
    requires |a| == |b|
    ensures Parity(Xor(a, b)) == (Parity(a) != Parity(b))
    decreases |a|
  {
    if a != [] {
      assert Xor(a, b)[1..] == Xor(a[1..], b[1..]);
      ParityXor(a[1..], b[1..]);
    }
  }

  lemma {:induction false} ParityReverse(a: Bits)
    ensures Parity(Reverse(a)) == Parity(a)
  {
    if a != [] {
      ParityReverse(a[1..]);
      ParityConcat(Reverse(a[1..]), [a[0]]);
    }
  }

  lemma {:induction false} ParityZeros(n: nat)
    ensures !Parity(Zeros(n))
  {
    if n > 0 {
      assert Zeros(n)[1..] == Zeros(n - 1);
      ParityZeros(n - 1);
    }
  }

  /** A generator with an odd number of low terms (divisible by x + 1) carries parity through the register. */
  lemma {:induction false} ParityFeed(g: Bits, reg: Bits, bits: Bits)
    requires |g| == |reg| >= 1 && Parity(g)
    ensures Parity(Feed(g, reg, bits)) == (Parity(reg) != Parity(bits))
    decreases |bits|
  {
    if bits != [] {
      ParityXor(reg[1..] + [false], if reg[0] != bits[0] then g else Zeros(|g|));
      ParityConcat(reg[1..], [false]);
      ParityZeros(|g|);
      ParityFeed(g, Shift(g, reg, bits[0]), bits[1..]);
    }
  }

  function NatParity(v: nat): bool {
    if v == 0 then false else (v % 2 == 1) != NatParity(v / 2)
  }

  lemma {:induction false} ParityMsbFirst(v: nat, w: nat)
    requires v < Pow2(w)
    ensures Parity(MsbFirst(v, w)) == NatParity(v)
  {
    if w > 0 {
      ParityMsbFirst(v / 2, w - 1);
      ParityConcat(MsbFirst(v / 2, w - 1), [v % 2 == 1]);
    }
  }

  /** The parity of all the bits of a byte string. */
  function BytesParity(s: seq<byte>): bool {
    if s == [] then false else NatParity(s[0]) != BytesParity(s[1..])
  }

  lemma {:induction false} BytesParityConcat(a: seq<byte>, b: seq<byte>)
    ensures BytesParity(a + b) == (BytesParity(a) != BytesParity(b))
  {
    if a == [] {
      assert a + b == b;
    } else {
      assert (a + b)[1..] == a[1..] + b;
      BytesParityConcat(a[1..], b);
    }
  }

  lemma {:induction false} ParityMessage(reflect: bool, s: seq<byte>)
    ensures Parity(MessageBits(reflect, s)) == BytesParity(s)
  {
    if s != [] {
      ParityMessage(reflect, s[1..]);
      assert Pow2(8) == 256 by { Pow2Bytes(1); }
      ParityMsbFirst(s[0], 8);
      ParityReverse(MsbFirst(s[0], 8));
      ParityConcat(ByteBits(reflect, s[0]), MessageBits(reflect, s[1..]));
    }
  }

  lemma ParityStep(a: nat, bit: nat)
    requires bit < 2
    ensures NatParity(2 * a + bit) == ((bit == 1) != NatParity(a))
  {
    assert (2 * a + bit) / 2 == a;
  }

  lemma ParityNibble(a: nat, b3: nat, b2: nat, b1: nat, b0: nat)
    requires b3 < 2 && b2 < 2 && b1 < 2 && b0 < 2
    ensures NatParity(16 * a + 8 * b3 + 4 * b2 + 2 * b1 + b0) == (NatParity(a) != ((b3 + b2 + b1 + b0) % 2 == 1))
  {
    var x1 := 2 * a + b3;
    var x2 := 2 * x1 + b2;
    var x3 := 2 * x2 + b1;
    ParityStep(a, b3);
    ParityStep(x1, b2);
    ParityStep(x2, b1);
    ParityStep(x3, b0);
    assert 2 * x3 + b0 == 16 * a + 8 * b3 + 4 * b2 + 2 * b1 + b0;
  }

  lemma DoubleTimes(q: nat, p: nat)
    ensures q * (2 * p) == 2 * (q * p)
  {
  }

  lemma {:induction false} NatParityJoin(q: nat, r: nat, n: nat)
    requires r < Pow2(n)
    ensures NatParity(q * Pow2(n) + r) == (NatParity(q) != NatParity(r))
    decreases n
  {
    if n > 0 {
      var h, bit := r / 2, r % 2;
      var x := q * Pow2(n - 1);
      DoubleTimes(q, Pow2(n - 1));
      NatParityJoin(q, h, n - 1);
      ParityStep(x + h, bit);
      ParityStep(h, bit);
      assert q * Pow2(n) + r == 2 * (x + h) + bit;
    }
  }

  lemma {:induction false} BytesParityLE(v: nat, k: nat)
    requires v < Pow256(k)
    ensures BytesParity(LE(v, k)) == NatParity(v)
  {
    if k > 0 {
      Pow2Bytes(1);
      NatParityJoin(v / 256, v % 256, 8);
      assert LE(v, k)[1..] == LE(v / 256, k - 1);
      BytesParityLE(v / 256, k - 1);
    }
  }

  lemma ParamParities(crcBytes: nat)
    requires 1 <= crcBytes <= 4
    ensures var p := ParamsFor(crcBytes); NatParity(p.poly) && !NatParity(p.init) && !NatParity(p.xorOut)
  {
    if crcBytes == 1 {
      ParityNibble(0x0, 1, 1, 0, 1);
      ParityNibble(0xd, 0, 1, 0, 1);
    } else if crcBytes == 2 {
      ParityNibble(0x0, 0, 0, 0, 1);
      ParityNibble(0x1, 0, 0, 0, 0);
      ParityNibble(0x10, 0, 0, 1, 0);
      ParityNibble(0x102, 0, 0, 0, 1);
    } else if crcBytes == 3 {
      ParityNibble(0x0, 0, 0, 1, 1);
      ParityNibble(0x3, 0, 0, 1, 0);
      ParityNibble(0x32, 1, 0, 0, 0);
      ParityNibble(0x328, 1, 0, 1, 1);
      ParityNibble(0x328b, 0, 1, 1, 0);
      ParityNibble(0x328b6, 0, 0, 1, 1);
      ParityNibble(0x0, 1, 1, 1, 1);
      ParityNibble(0xf, 1, 1, 1, 1);
      ParityNibble(0xff, 1, 1, 1, 1);
      ParityNibble(0xfff, 1, 1, 1, 1);
      ParityNibble(0xffff, 1, 1, 1, 1);
      ParityNibble(0xfffff, 1, 1, 1, 1);
    } else {
      ParityNibble(0x0, 0, 0, 0, 1);
      ParityNibble(0x1, 1, 1, 1, 0);
      ParityNibble(0x1e, 1, 1, 0, 1);
      ParityNibble(0x1ed, 1, 1, 0, 0);
      ParityNibble(0x1edc, 0, 1, 1, 0);
      ParityNibble(0x1edc6, 1, 1, 1, 1);
      ParityNibble(0x1edc6f, 0, 1, 0, 0);
      ParityNibble(0x1edc6f4, 0, 0, 0, 1);
      ParityNibble(0x0, 1, 1, 1, 1);
      ParityNibble(0xf, 1, 1, 1, 1);
      ParityNibble(0xff, 1, 1, 1, 1);
      ParityNibble(0xfff, 1, 1, 1, 1);
      ParityNibble(0xffff, 1, 1, 1, 1);
      ParityNibble(0xfffff, 1, 1, 1, 1);
      ParityNibble(0xffffff, 1, 1, 1, 1);
      ParityNibble(0xfffffff, 1, 1, 1, 1);
    }
  }

  lemma ParamsFit(crcBytes: nat)
    requires 1 <= crcBytes <= 4
    ensures var p := ParamsFor(crcBytes);
            p.poly < Pow2(p.width) && p.init < Pow2(p.width) && p.xorOut < Pow2(p.width)
  {
    Pow2Bytes(crcBytes);
    FourPowers();
  }

  /** The CRC has the parity of the message, for each of the four parameter sets. */
  lemma CrcParity(crcBytes: nat, s: seq<byte>)
    requires 1 <= crcBytes <= 4
    ensures BytesParity(LE(Calculate(crcBytes, s), crcBytes)) == BytesParity(s)
  {
    var p := ParamsFor(crcBytes);
    var bits := MessageBits(p.reflect, s);
    var reg := Register(p, bits);
    ParamParities(crcBytes);
    ParamsFit(crcBytes);
    ParityMsbFirst(p.poly, p.width);
    ParityMsbFirst(p.init, p.width);
    ParityMsbFirst(p.xorOut, p.width);
    ParityMessage(p.reflect, s);
    ParityFeed(MsbFirst(p.poly, p.width), MsbFirst(p.init, p.width), bits);
    ParityReverse(reg);
    ParityXor(if p.reflect then Reverse(reg) else reg, MsbFirst(p.xorOut, p.width));
    var out := Output(p, reg);
    ValueBound(out);
    MsbFirstOfValue(out);
    ParityMsbFirst(Value(out), p.width);
    CalculateFits(crcBytes, s);
    BytesParityLE(Calculate(crcBytes, s), crcBytes);
  }
}
