/** A CRC register kept in the highest bits of a machine word, for any word that obeys a few laws. */
module WordRegister {
  import opened Crc

  /** What a machine word offers to a register kept in its highest bits. */
  datatype Machine<!W> = Machine(top: W -> bool, double: W -> W, plus: (W, W) -> W, zero: W)

  ghost predicate Lawful<W(!new)>(m: Machine<W>) {
    && !m.top(m.zero) && m.double(m.zero) == m.zero && m.plus(m.zero, m.zero) == m.zero
    && (forall a, b :: m.top(m.plus(a, b)) == (m.top(a) != m.top(b)))
    && (forall a, b :: m.double(m.plus(a, b)) == m.plus(m.double(a), m.double(b)))
  }

  lemma MachineLawful<W(!new)>(m: Machine<W>, top: W -> bool, double: W -> W, plus: (W, W) -> W)
    requires m == Machine(top, double, plus, m.zero)
    requires !top(m.zero) && double(m.zero) == m.zero && plus(m.zero, m.zero) == m.zero
    requires forall a, b :: top(plus(a, b)) == (top(a) != top(b))
    requires forall a, b :: double(plus(a, b)) == plus(double(a), double(b))
    ensures Lawful(m)
  {
  }

  /** The `n` highest bits, highest first. */
  function High<W>(m: Machine<W>, x: W, n: nat): (r: Bits)
    ensures |r| == n
    decreases n
  {
    if n == 0 then [] else [m.top(x)] + High(m, m.double(x), n - 1)
  }

  function Shl<W>(m: Machine<W>, x: W, n: nat): W
    decreases n
  {
    if n == 0 then x else Shl(m, m.double(x), n - 1)
  }

  function Step<W>(m: Machine<W>, poly: W, x: W, bit: bool): W {
    if m.top(x) != bit then m.plus(m.double(x), poly) else m.double(x)
  }

  lemma {:induction false} HighPlus<W(!new)>(m: Machine<W>, a: W, b: W, n: nat)
    requires Lawful(m)
    ensures High(m, m.plus(a, b), n) == Xor(High(m, a, n), High(m, b, n))
    decreases n
  {
    if n > 0 {
      HighPlus(m, m.double(a), m.double(b), n - 1);
    }
  }

  lemma {:induction false} ShlPlus<W(!new)>(m: Machine<W>, a: W, b: W, n: nat)
    requires Lawful(m)
    ensures Shl(m, m.plus(a, b), n) == m.plus(Shl(m, a, n), Shl(m, b, n))
    decreases n
  {
    if n > 0 {
      ShlPlus(m, m.double(a), m.double(b), n - 1);
    }
  }

  lemma {:induction false} HighSnoc<W>(m: Machine<W>, x: W, n: nat)
    ensures High(m, x, n + 1) == High(m, x, n) + [m.top(Shl(m, x, n))]
    decreases n
  {
    if n > 0 {
      HighSnoc(m, m.double(x), n - 1);
    }
  }

  lemma {:induction false} ShlOnce<W>(m: Machine<W>, x: W, n: nat)
    ensures Shl(m, m.double(x), n) == m.double(Shl(m, x, n))
    decreases n
  {
    if n > 0 {
      ShlOnce(m, m.double(x), n - 1);
    }
  }

  lemma {:induction false} HighZero<W(!new)>(m: Machine<W>, n: nat)
    requires Lawful(m)
    ensures High(m, m.zero, n) == Zeros(n) && Shl(m, m.zero, n) == m.zero
    decreases n
  {
    if n > 0 {
      HighZero(m, n - 1);
    }
  }

  /** No bit below the `w` highest is set. */
  predicate Aligned<W(==)>(m: Machine<W>, x: W, w: nat) {
    Shl(m, x, w) == m.zero
  }

  lemma HighDouble<W(!new)>(m: Machine<W>, x: W, w: nat)
    requires Lawful(m) && w >= 1 && Aligned(m, x, w)
    ensures High(m, m.double(x), w) == High(m, x, w)[1..] + [false]
  {
    HighSnoc(m, x, w);
    assert High(m, x, w + 1)[1..] == High(m, m.double(x), w);
    assert (High(m, x, w) + [false])[1..] == High(m, x, w)[1..] + [false];
  }

  lemma XorZeros(a: Bits)
    ensures Xor(a, Zeros(|a|)) == a
  {
  }

  /** One step of the word is one step of the register. */
  lemma StepIs<W(!new)>(m: Machine<W>, poly: W, x: W, bit: bool, w: nat)
    requires Lawful(m) && w >= 1 && Aligned(m, x, w) && Aligned(m, poly, w)
    ensures Aligned(m, Step(m, poly, x, bit), w)
    ensures High(m, Step(m, poly, x, bit), w) == Shift(High(m, poly, w), High(m, x, w), bit)
  {
    HighDouble(m, x, w);
    ShlOnce(m, x, w);
    HighPlus(m, m.double(x), poly, w);
    ShlPlus(m, m.double(x), poly, w);
    XorZeros(High(m, x, w)[1..] + [false]);
  }

  function Steps<W>(m: Machine<W>, poly: W, x: W, bits: Bits): W
    decreases |bits|
  {
    if bits == [] then x else Steps(m, poly, Step(m, poly, x, bits[0]), bits[1..])
  }

  lemma {:induction false} StepsAre<W(!new)>(m: Machine<W>, poly: W, x: W, bits: Bits, w: nat)
    requires Lawful(m) && w >= 1 && Aligned(m, x, w) && Aligned(m, poly, w)
    ensures Aligned(m, Steps(m, poly, x, bits), w)
    ensures High(m, Steps(m, poly, x, bits), w) == Feed(High(m, poly, w), High(m, x, w), bits)
    decreases |bits|
  {
    if bits != [] {
      StepIs(m, poly, x, bits[0], w);
      StepsAre(m, poly, Step(m, poly, x, bits[0]), bits[1..], w);
    }
  }

  lemma {:induction false} StepsConcat<W>(m: Machine<W>, poly: W, x: W, a: Bits, b: Bits)
    ensures Steps(m, poly, x, a + b) == Steps(m, poly, Steps(m, poly, x, a), b)
    decreases |a|
  {
    if a == [] {
      assert a + b == b;
    } else {
      assert (a + b)[1..] == a[1..] + b;
      StepsConcat(m, poly, Step(m, poly, x, a[0]), a[1..], b);
    }
  }

  function Sixteenfold<W>(m: Machine<W>, x: W): W {
    m.double(m.double(m.double(m.double(x))))
  }

  function TopDigit<W>(m: Machine<W>, x: W): (r: Bits)
    ensures |r| == 4
  {
    [m.top(x), m.top(m.double(x)), m.top(m.double(m.double(x))), m.top(m.double(m.double(m.double(x))))]
  }

  lemma FourOff<W>(m: Machine<W>, x: W, n: nat)
    ensures High(m, x, n + 4) == TopDigit(m, x) + High(m, Sixteenfold(m, x), n)
    ensures Shl(m, x, n + 4) == Shl(m, Sixteenfold(m, x), n)
  {
    var y := m.double(x);
    var z := m.double(y);
    assert High(m, y, n + 3) == [m.top(y)] + High(m, z, n + 2) && Shl(m, y, n + 3) == Shl(m, z, n + 2);
    assert High(m, z, n + 2) == [m.top(z)] + High(m, m.double(z), n + 1);
    assert Shl(m, z, n + 2) == Shl(m, m.double(z), n + 1);
  }

  lemma {:induction false} HighConcat<W>(m: Machine<W>, x: W, a: nat, b: nat)
    ensures High(m, x, a + b) == High(m, x, a) + High(m, Shl(m, x, a), b)
    ensures Shl(m, x, a + b) == Shl(m, Shl(m, x, a), b)
    decreases a
  {
    if a > 0 {
      HighConcat(m, m.double(x), a - 1, b);
    }
  }

  lemma Unstep<W>(m: Machine<W>, poly: W, x: W, bit: bool, bits: Bits)
    ensures Steps(m, poly, x, [bit] + bits) == Steps(m, poly, Step(m, poly, x, bit), bits)
  {
    assert ([bit] + bits)[1..] == bits;
  }

  lemma FourSteps<W>(m: Machine<W>, poly: W, x: W, a: bool, b: bool, c: bool, d: bool)
    ensures Steps(m, poly, x, [a, b, c, d])
         == Step(m, poly, Step(m, poly, Step(m, poly, Step(m, poly, x, a), b), c), d)
  {
    var x1 := Step(m, poly, x, a);
    var x2 := Step(m, poly, x1, b);
    var x3 := Step(m, poly, x2, c);
    assert [a, b, c, d] == [a] + ([b] + ([c] + ([d] + [])));
    Unstep(m, poly, x, a, [b] + ([c] + ([d] + [])));
    Unstep(m, poly, x1, b, [c] + ([d] + []));
    Unstep(m, poly, x2, c, [d] + []);
    Unstep(m, poly, x3, d, []);
  }

  lemma FourAre<W(!new)>(m: Machine<W>, poly: W, step: (W, bool) -> W, x: W, bits: Bits)
    requires |bits| == 4 && forall y, b :: Step(m, poly, y, b) == step(y, b)
    ensures Steps(m, poly, x, bits) == step(step(step(step(x, bits[0]), bits[1]), bits[2]), bits[3])
  {
    FourSteps(m, poly, x, bits[0], bits[1], bits[2], bits[3]);
    assert bits == [bits[0], bits[1], bits[2], bits[3]];
  }

  lemma StepMeans<W>(m: Machine<W>, poly: W, x: W, bit: bool, top: bool, twice: W, sum: W)
    requires m.top(x) == top && m.double(x) == twice && m.plus(twice, poly) == sum
    ensures Step(m, poly, x, bit) == if top != bit then sum else twice
  {
  }

  lemma HighByte<W>(m: Machine<W>, x: W)
    ensures High(m, x, 8) == TopDigit(m, x) + TopDigit(m, Sixteenfold(m, x))
  {
    FourOff(m, x, 4);
    FourOff(m, Sixteenfold(m, x), 0);
  }

  lemma FourBytes<W>(m: Machine<W>, x: W, x1: W, x2: W, x3: W)
    requires x1 == Shl(m, x, 8) && x2 == Shl(m, x1, 8) && x3 == Shl(m, x2, 8)
    ensures High(m, x, 32) == High(m, x, 8) + (High(m, x1, 8) + (High(m, x2, 8) + High(m, x3, 8)))
  {
    HighConcat(m, x, 8, 24);
    HighConcat(m, x1, 8, 16);
    HighConcat(m, x2, 8, 8);
  }

  lemma RegisterOf<W(!new)>(m: Machine<W>, p: Params, bits: Bits, poly: W, before: W)
    requires Lawful(m) && p.width >= 1
    requires High(m, poly, p.width) == MsbFirst(p.poly, p.width) && Aligned(m, poly, p.width)
    requires High(m, before, p.width) == MsbFirst(p.init, p.width) && Aligned(m, before, p.width)
    ensures Register(p, bits) == High(m, Steps(m, poly, before, bits), p.width)
  {
    StepsAre(m, poly, before, bits, p.width);
  }
}
