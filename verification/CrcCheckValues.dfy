/** The published check values of the four CRCs: what each makes of the nine ASCII digits "123456789". */
module CrcCheckValues {
  import opened Bytes
  import opened Crc
  import opened WordRegister
  import opened Words

  // ---------------------------------------------------------------- hexadecimal digits and bits

  function Nibble(n: nat): (r: Bits)
    requires n < 16
    ensures |r| == 4
  {
    [n >= 8, n % 8 >= 4, n % 4 >= 2, n % 2 == 1]
  }

  lemma FourBits(q: nat, b3: nat, b2: nat, b1: nat, b0: nat, w: nat)
    requires b3 < 2 && b2 < 2 && b1 < 2 && b0 < 2
    ensures MsbFirst(16 * q + 8 * b3 + 4 * b2 + 2 * b1 + b0, w + 4)
         == MsbFirst(q, w) + [b3 == 1, b2 == 1, b1 == 1, b0 == 1]
  {
    MsbStep(q, b3, w);
    MsbStep(2 * q + b3, b2, w + 1);
    MsbStep(4 * q + 2 * b3 + b2, b1, w + 2);
    MsbStep(8 * q + 4 * b3 + 2 * b2 + b1, b0, w + 3);
  }

  lemma NibbleBits(q: nat, n: nat, w: nat)
    requires n < 16
    ensures MsbFirst(16 * q + n, w + 4) == MsbFirst(q, w) + Nibble(n)
  {
    FourBits(q, n / 8, n % 8 / 4, n % 4 / 2, n % 2, w);
  }

  lemma {:induction false} ReverseConcat(a: Bits, b: Bits)
    ensures Reverse(a + b) == Reverse(b) + Reverse(a)
  {
    forall i | 0 <= i < |a| + |b| ensures Reverse(a + b)[i] == (Reverse(b) + Reverse(a))[i] {
    }
  }

  // ---------------------------------------------------------------- nine digits

  function Flip(d: Bits): (r: Bits)
    requires |d| == 4
  {
    [d[3], d[2], d[1], d[0]]
  }

  lemma ReverseFour(d: Bits)
    requires |d| == 4
    ensures Reverse(d) == Flip(d)
  {
    var r := Reverse(d);
    assert r[0] == d[3] && r[1] == d[2] && r[2] == d[1] && r[3] == d[0];
  }

  /** The bits of a digit, in the order in which they enter the register. */
  function DigitBits(reflect: bool, d: nat): (r: Bits)
    requires d < 10
    ensures |r| == 8
  {
    if reflect then Flip(Nibble(d)) + Flip(Nibble(3)) else Nibble(3) + Nibble(d)
  }

  lemma HalvesOf(reflect: bool, v: byte, a: Bits, b: Bits)
    requires MsbFirst(v, 8) == a + b
    ensures ByteBits(reflect, v) == if reflect then Reverse(b) + Reverse(a) else a + b
  {
    ReverseConcat(a, b);
  }

  lemma JoinTwo(m0: Bits, m1: Bits, m2: Bits, a: Bits, b: Bits)
    requires m0 == [] && m1 == m0 + a && m2 == m1 + b
    ensures m2 == a + b
  {
  }

  lemma DigitMsbFirst(d: nat)
    requires d < 10
    ensures MsbFirst(48 + d, 8) == Nibble(3) + Nibble(d)
  {
    NibbleBits(0, 3, 0);
    NibbleBits(3, d, 4);
    JoinTwo(MsbFirst(0, 0), MsbFirst(3, 4), MsbFirst(48 + d, 8), Nibble(3), Nibble(d));
  }

  lemma DigitByte(reflect: bool, d: nat)
    requires d < 10
    ensures ByteBits(reflect, 48 + d) == DigitBits(reflect, d)
  {
    DigitMsbFirst(d);
    HalvesOf(reflect, 48 + d, Nibble(3), Nibble(d));
    ReverseFour(Nibble(3));
    ReverseFour(Nibble(d));
  }

  const WORD: Machine<bv32> := Machine(WordTop, WordDouble, WordPlus, 0)

  lemma WordTopIs(x: bv32)
    ensures WORD.top(x) == WordTop(x)
  {
  }

  lemma WordDoubleIs(x: bv32)
    ensures WORD.double(x) == WordDouble(x)
  {
  }

  lemma WordPlusIs(x: bv32, y: bv32)
    ensures WORD.plus(x, y) == WordPlus(x, y)
  {
  }

  lemma WordLawful()
    ensures Lawful(WORD)
  {
    forall a, b ensures WordTop(WordPlus(a, b)) == (WordTop(a) != WordTop(b)) {
      WordTopPlus(a, b);
    }
    forall a, b ensures WordDouble(WordPlus(a, b)) == WordPlus(WordDouble(a), WordDouble(b)) {
      WordDoublePlus(a, b);
    }
    MachineLawful(WORD, WordTop, WordDouble, WordPlus);
  }

  function WordStep(poly: bv32, x: bv32, bit: bool): bv32 {
    if WordTop(x) != bit then WordPlus(WordDouble(x), poly) else WordDouble(x)
  }

  lemma WordStepIs(poly: bv32, x: bv32, bit: bool)
    ensures Step(WORD, poly, x, bit) == WordStep(poly, x, bit)
  {
    WordTopIs(x);
    WordDoubleIs(x);
    WordPlusIs(WordDouble(x), poly);
    StepMeans(WORD, poly, x, bit, WordTop(x), WordDouble(x), WordPlus(WordDouble(x), poly));
  }

  function WordNibble(poly: bv32, x: bv32, bits: Bits): bv32
    requires |bits| == 4
  {
    WordStep(poly, WordStep(poly, WordStep(poly, WordStep(poly, x, bits[0]), bits[1]), bits[2]), bits[3])
  }

  lemma WordNibbleIs(poly: bv32, x: bv32, bits: Bits)
    requires |bits| == 4
    ensures Steps(WORD, poly, x, bits) == WordNibble(poly, x, bits)
  {
    forall y, b ensures Step(WORD, poly, y, b) == WordStep(poly, y, b) {
      WordStepIs(poly, y, b);
    }
    FourAre(WORD, poly, (y, b) => WordStep(poly, y, b), x, bits);
  }

  /** The word after the eight bits of one digit. */
  function WordDigit(poly: bv32, x: bv32, reflect: bool, d: nat): bv32
    requires d < 10
  {
    if reflect then WordNibble(poly, WordNibble(poly, x, Flip(Nibble(d))), Flip(Nibble(3)))
    else WordNibble(poly, WordNibble(poly, x, Nibble(3)), Nibble(d))
  }

  lemma TwoNibbles(poly: bv32, x: bv32, a: Bits, b: Bits)
    requires |a| == |b| == 4
    ensures Steps(WORD, poly, x, a + b) == WordNibble(poly, WordNibble(poly, x, a), b)
  {
    StepsConcat(WORD, poly, x, a, b);
    WordNibbleIs(poly, x, a);
    WordNibbleIs(poly, WordNibble(poly, x, a), b);
  }

  lemma WordDigitIs(poly: bv32, x: bv32, reflect: bool, d: nat)
    requires d < 10
    ensures Steps(WORD, poly, x, DigitBits(reflect, d)) == WordDigit(poly, x, reflect, d)
  {
    if reflect {
      TwoNibbles(poly, x, Flip(Nibble(d)), Flip(Nibble(3)));
    } else {
      TwoNibbles(poly, x, Nibble(3), Nibble(d));
    }
  }

  // ---------------------------------------------------------------- numbers held by words

  function WordTopDigit(x: bv32): (r: Bits)
    ensures |r| == 4
  {
    [WordTop(x), WordTop(WordDouble(x)), WordTop(WordDouble(WordDouble(x))),
     WordTop(WordDouble(WordDouble(WordDouble(x))))]
  }

  function WordSixteenfold(x: bv32): bv32 {
    WordDouble(WordDouble(WordDouble(WordDouble(x))))
  }

  lemma WordTopDigitIs(x: bv32)
    ensures TopDigit(WORD, x) == WordTopDigit(x) && Sixteenfold(WORD, x) == WordSixteenfold(x)
  {
    var y := WordDouble(x);
    var z := WordDouble(y);
    WordTopIs(x);
    WordTopIs(y);
    WordTopIs(z);
    WordTopIs(WordDouble(z));
    WordDoubleIs(x);
    WordDoubleIs(y);
    WordDoubleIs(z);
    WordDoubleIs(WordDouble(z));
  }

  /** The `w` highest bits of `x` are the number `v`, and `rest` is what remains of it. */
  ghost predicate Holds(x: bv32, v: nat, w: nat, rest: bv32) {
    High(WORD, x, w) == MsbFirst(v, w) && Shl(WORD, x, w) == rest
  }

  lemma HoldsNothing(x: bv32)
    ensures Holds(x, 0, 0, x)
  {
  }

  lemma HoldsMore(x: bv32, v: nat, w: nat, y: bv32, d: nat, z: bv32)
    requires Holds(x, v, w, y) && d < 16 && WordTopDigit(y) == Nibble(d) && z == WordSixteenfold(y)
    ensures Holds(x, 16 * v + d, w + 4, z)
  {
    HighConcat(WORD, x, w, 4);
    FourOff(WORD, y, 0);
    WordTopDigitIs(y);
    NibbleBits(v, d, w);
  }

  lemma HoldsByte(x: bv32, v: nat, w: nat, y: bv32, b: byte, z: bv32)
    requires Holds(x, v, w, y) && z == WordSixteenfold(WordSixteenfold(y))
    requires WordTopDigit(y) == Nibble(b / 16) && WordTopDigit(WordSixteenfold(y)) == Nibble(b % 16)
    ensures Holds(x, 256 * v + b, w + 8, z)
  {
    HoldsMore(x, v, w, y, b / 16, WordSixteenfold(y));
    HoldsMore(x, 16 * v + b / 16, w + 4, WordSixteenfold(y), b % 16, z);
  }

  lemma Generator8()
    ensures Holds(0xd500_0000, 0xd5, 8, 0)
  {
    HoldsNothing(0xd500_0000);
    HoldsByte(0xd500_0000, 0x0, 0, 0xd500_0000, 0xd5, 0);
  }

  lemma Generator16()
    ensures Holds(0x1021_0000, 0x1021, 16, 0)
  {
    HoldsNothing(0x1021_0000);
    HoldsByte(0x1021_0000, 0x0, 0, 0x1021_0000, 0x10, 0x2100_0000);
    HoldsByte(0x1021_0000, 0x10, 8, 0x2100_0000, 0x21, 0);
  }

  lemma Generator24()
    ensures Holds(0x328b_6300, 0x328b63, 24, 0)
  {
    HoldsNothing(0x328b_6300);
    HoldsByte(0x328b_6300, 0x0, 0, 0x328b_6300, 0x32, 0x8b63_0000);
    HoldsByte(0x328b_6300, 0x32, 8, 0x8b63_0000, 0x8b, 0x6300_0000);
    HoldsByte(0x328b_6300, 0x328b, 16, 0x6300_0000, 0x63, 0);
  }

  lemma Generator32()
    ensures Holds(0x1edc_6f41, 0x1edc6f41, 32, 0)
  {
    HoldsNothing(0x1edc_6f41);
    HoldsByte(0x1edc_6f41, 0x0, 0, 0x1edc_6f41, 0x1e, 0xdc6f_4100);
    HoldsByte(0x1edc_6f41, 0x1e, 8, 0xdc6f_4100, 0xdc, 0x6f41_0000);
    HoldsByte(0x1edc_6f41, 0x1edc, 16, 0x6f41_0000, 0x6f, 0x4100_0000);
    HoldsByte(0x1edc_6f41, 0x1edc6f, 24, 0x4100_0000, 0x41, 0);
  }

  lemma Ones24()
    ensures Holds(0xffff_ff00, 0xffffff, 24, 0)
  {
    HoldsNothing(0xffff_ff00);
    HoldsByte(0xffff_ff00, 0x0, 0, 0xffff_ff00, 0xff, 0xffff_0000);
    HoldsByte(0xffff_ff00, 0xff, 8, 0xffff_0000, 0xff, 0xff00_0000);
    HoldsByte(0xffff_ff00, 0xffff, 16, 0xff00_0000, 0xff, 0);
  }

  lemma Ones32()
    ensures Holds(0xffff_ffff, 0xffffffff, 32, 0)
  {
    HoldsNothing(0xffff_ffff);
    HoldsByte(0xffff_ffff, 0x0, 0, 0xffff_ffff, 0xff, 0xffff_ff00);
    HoldsByte(0xffff_ffff, 0xff, 8, 0xffff_ff00, 0xff, 0xffff_0000);
    HoldsByte(0xffff_ffff, 0xffff, 16, 0xffff_0000, 0xff, 0xff00_0000);
    HoldsByte(0xffff_ffff, 0xffffff, 24, 0xff00_0000, 0xff, 0);
  }

  lemma Final8()
    ensures Holds(0xbc00_0000, 0xbc, 8, 0)
  {
    HoldsNothing(0xbc00_0000);
    HoldsByte(0xbc00_0000, 0x0, 0, 0xbc00_0000, 0xbc, 0);
  }

  lemma Final16()
    ensures Holds(0x31c3_0000, 0x31c3, 16, 0)
  {
    HoldsNothing(0x31c3_0000);
    HoldsByte(0x31c3_0000, 0x0, 0, 0x31c3_0000, 0x31, 0xc300_0000);
    HoldsByte(0x31c3_0000, 0x31, 8, 0xc300_0000, 0xc3, 0);
  }

  lemma Final24()
    ensures Holds(0xb4f3_e600, 0xb4f3e6, 24, 0)
  {
    HoldsNothing(0xb4f3_e600);
    HoldsByte(0xb4f3_e600, 0x0, 0, 0xb4f3_e600, 0xb4, 0xf3e6_0000);
    HoldsByte(0xb4f3_e600, 0xb4, 8, 0xf3e6_0000, 0xf3, 0xe600_0000);
    HoldsByte(0xb4f3_e600, 0xb4f3, 16, 0xe600_0000, 0xe6, 0);
  }

  lemma Register24()
    ensures Holds(0x4b0c_1900, 0x4b0c19, 24, 0)
  {
    HoldsNothing(0x4b0c_1900);
    HoldsByte(0x4b0c_1900, 0x0, 0, 0x4b0c_1900, 0x4b, 0x0c19_0000);
    HoldsByte(0x4b0c_1900, 0x4b, 8, 0x0c19_0000, 0xc, 0x1900_0000);
    HoldsByte(0x4b0c_1900, 0x4b0c, 16, 0x1900_0000, 0x19, 0);
  }

  lemma Reversed32()
    ensures Holds(0x1cf9_6d7c, 0x1cf96d7c, 32, 0)
  {
    HoldsNothing(0x1cf9_6d7c);
    HoldsByte(0x1cf9_6d7c, 0x0, 0, 0x1cf9_6d7c, 0x1c, 0xf96d_7c00);
    HoldsByte(0x1cf9_6d7c, 0x1c, 8, 0xf96d_7c00, 0xf9, 0x6d7c_0000);
    HoldsByte(0x1cf9_6d7c, 0x1cf9, 16, 0x6d7c_0000, 0x6d, 0x7c00_0000);
    HoldsByte(0x1cf9_6d7c, 0x1cf96d, 24, 0x7c00_0000, 0x7c, 0);
  }

  lemma Final32()
    ensures Holds(0xe306_9283, 0xe3069283, 32, 0)
  {
    HoldsNothing(0xe306_9283);
    HoldsByte(0xe306_9283, 0x0, 0, 0xe306_9283, 0xe3, 0x0692_8300);
    HoldsByte(0xe306_9283, 0xe3, 8, 0x0692_8300, 0x6, 0x9283_0000);
    HoldsByte(0xe306_9283, 0xe306, 16, 0x9283_0000, 0x92, 0x8300_0000);
    HoldsByte(0xe306_9283, 0xe30692, 24, 0x8300_0000, 0x83, 0);
  }

  lemma HoldsZero(w: nat)
    ensures Holds(0, 0, w, 0)
  {
    WordLawful();
    HighZero(WORD, w);
    ZeroBits(w);
  }

  lemma HoldsPlus(x: bv32, u: nat, y: bv32, v: nat, w: nat)
    requires Holds(x, u, w, 0) && Holds(y, v, w, 0)
    ensures High(WORD, WordPlus(x, y), w) == Xor(MsbFirst(u, w), MsbFirst(v, w))
  {
    WordLawful();
    WordPlusIs(x, y);
    HighPlus(WORD, x, y, w);
  }

  // ---------------------------------------------------------------- a word backwards

  /** The highest byte of `y` is that of `x` backwards. */
  predicate Mirrored(x: bv32, y: bv32) {
    && WordTopDigit(y) == Flip(WordTopDigit(WordSixteenfold(x)))
    && WordTopDigit(WordSixteenfold(y)) == Flip(WordTopDigit(x))
  }

  lemma MirroredByte(x: bv32, y: bv32)
    requires Mirrored(x, y)
    ensures High(WORD, y, 8) == Reverse(High(WORD, x, 8))
  {
    HighByte(WORD, x);
    HighByte(WORD, y);
    WordTopDigitIs(x);
    WordTopDigitIs(WordSixteenfold(x));
    WordTopDigitIs(y);
    WordTopDigitIs(WordSixteenfold(y));
    ReverseConcat(WordTopDigit(x), WordTopDigit(WordSixteenfold(x)));
    ReverseFour(WordTopDigit(x));
    ReverseFour(WordTopDigit(WordSixteenfold(x)));
  }

  lemma Regroup<T>(a: seq<T>, b: seq<T>, c: seq<T>, d: seq<T>)
    ensures ((a + b) + c) + d == a + (b + (c + d))
  {
  }

  lemma ReverseBytes(a: Bits, b: Bits, c: Bits, d: Bits)
    ensures Reverse(a + (b + (c + d))) == Reverse(d) + (Reverse(c) + (Reverse(b) + Reverse(a)))
  {
    ReverseConcat(a, b + (c + d));
    ReverseConcat(b, c + d);
    ReverseConcat(c, d);
    Regroup(Reverse(d), Reverse(c), Reverse(b), Reverse(a));
  }

  function Next(x: bv32): bv32 {
    WordSixteenfold(WordSixteenfold(x))
  }

  lemma NextIs(x: bv32)
    ensures Next(x) == Shl(WORD, x, 8)
  {
    FourOff(WORD, x, 4);
    WordTopDigitIs(x);
    FourOff(WORD, WordSixteenfold(x), 0);
    WordTopDigitIs(WordSixteenfold(x));
  }

  lemma MirroredWord(x: bv32, x1: bv32, x2: bv32, x3: bv32, y: bv32, y1: bv32, y2: bv32, y3: bv32)
    requires x1 == Next(x) && x2 == Next(x1) && x3 == Next(x2)
    requires y1 == Next(y) && y2 == Next(y1) && y3 == Next(y2)
    requires Mirrored(x, y3) && Mirrored(x1, y2) && Mirrored(x2, y1) && Mirrored(x3, y)
    ensures High(WORD, y, 32) == Reverse(High(WORD, x, 32))
  {
    NextIs(x);
    NextIs(x1);
    NextIs(x2);
    NextIs(y);
    NextIs(y1);
    NextIs(y2);
    FourBytes(WORD, x, x1, x2, x3);
    FourBytes(WORD, y, y1, y2, y3);
    MirroredByte(x, y3);
    MirroredByte(x1, y2);
    MirroredByte(x2, y1);
    MirroredByte(x3, y);
    ReverseBytes(High(WORD, x, 8), High(WORD, x1, 8), High(WORD, x2, 8), High(WORD, x3, 8));
  }

  lemma BackwardsWord()
    ensures High(WORD, 0x1cf9_6d7c, 32) == Reverse(High(WORD, 0x3eb6_9f38, 32))
  {
    MirroredWord(0x3eb6_9f38, 0xb69f_3800, 0x9f38_0000, 0x3800_0000,
                 0x1cf9_6d7c, 0xf96d_7c00, 0x6d7c_0000, 0x7c00_0000);
  }

  // ---------------------------------------------------------------- the four check values

  /** Feeding the digit that follows the first `i` ones. */
  lemma DigitFed(poly: bv32, reflect: bool, s: seq<byte>, i: nat, x: bv32, half: bv32, y: bv32)
    requires i < |s| && i < 9 && s[i] == 49 + i
    requires half == WordNibble(poly, x, if reflect then Flip(Nibble(i + 1)) else Nibble(3))
    requires y == WordNibble(poly, half, if reflect then Flip(Nibble(3)) else Nibble(i + 1))
    ensures Steps(WORD, poly, x, MessageBits(reflect, s[i..])) == Steps(WORD, poly, y, MessageBits(reflect, s[i + 1..]))
  {
    assert s[i..][1..] == s[i + 1..];
    DigitByte(reflect, i + 1);
    StepsConcat(WORD, poly, x, ByteBits(reflect, s[i]), MessageBits(reflect, s[i + 1..]));
    WordDigitIs(poly, x, reflect, i + 1);
  }

  lemma NineInARow(s: seq<byte>)
    requires s == [0x31, 0x32, 0x33, 0x34, 0x35, 0x36, 0x37, 0x38, 0x39]
    ensures |s| == 9 && forall i :: 0 <= i < 9 ==> s[i] == 49 + i
  {
  }

  lemma Digits8(s: seq<byte>)
    requires |s| == 9 && forall i :: 0 <= i < 9 ==> s[i] == 49 + i
    ensures Steps(WORD, 0xd500_0000, 0, MessageBits(false, s)) == 0xbc00_0000
  {
    DigitFed(0xd500_0000, false, s, 0, 0, 0xaa00_0000, 0x2300_0000);
    DigitFed(0xd500_0000, false, s, 1, 0x2300_0000, 0xe500_0000, 0x8700_0000);
    DigitFed(0xd500_0000, false, s, 2, 0x8700_0000, 0xf300_0000, 0xe700_0000);
    DigitFed(0xd500_0000, false, s, 3, 0xe700_0000, 0x7200_0000, 0x8a00_0000);
    DigitFed(0xd500_0000, false, s, 4, 0x8a00_0000, 0x2300_0000, 0x6400_0000);
    DigitFed(0xd500_0000, false, s, 5, 0x6400_0000, 0x6b00_0000, 0xb000_0000);
    DigitFed(0xd500_0000, false, s, 6, 0xb000_0000, 0x2900_0000, 0xbb00_0000);
    DigitFed(0xd500_0000, false, s, 7, 0xbb00_0000, 0x9900_0000, 0x4500_0000);
    DigitFed(0xd500_0000, false, s, 8, 0x4500_0000, 0x0400_0000, 0xbc00_0000);
    assert s[0..] == s && s[9..] == [];
  }

  lemma Digits16(s: seq<byte>)
    requires |s| == 9 && forall i :: 0 <= i < 9 ==> s[i] == 49 + i
    ensures Steps(WORD, 0x1021_0000, 0, MessageBits(false, s)) == 0x31c3_0000
  {
    DigitFed(0x1021_0000, false, s, 0, 0, 0x3063_0000, 0x2672_0000);
    DigitFed(0x1021_0000, false, s, 1, 0x2672_0000, 0x7701_0000, 0x20b5_0000);
    DigitFed(0x1021_0000, false, s, 2, 0x20b5_0000, 0x1b71_0000, 0x9752_0000);
    DigitFed(0x1021_0000, false, s, 3, 0x9752_0000, 0xd46a_0000, 0xd789_0000);
    DigitFed(0x1021_0000, false, s, 4, 0xd789_0000, 0x995e_0000, 0x546c_0000);
    DigitFed(0x1021_0000, false, s, 5, 0x546c_0000, 0x2606_0000, 0x20e4_0000);
    DigitFed(0x1021_0000, false, s, 6, 0x20e4_0000, 0x1e61_0000, 0x86d6_0000);
    DigitFed(0x1021_0000, false, s, 7, 0x86d6_0000, 0xdc0b_0000, 0x9015_0000);
    DigitFed(0x1021_0000, false, s, 8, 0x9015_0000, 0xa01a_0000, 0x31c3_0000);
    assert s[0..] == s && s[9..] == [];
  }

  lemma Digits24(s: seq<byte>)
    requires |s| == 9 && forall i :: 0 <= i < 9 ==> s[i] == 49 + i
    ensures Steps(WORD, 0x328b_6300, 0xffff_ff00, MessageBits(false, s)) == 0x4b0c_1900
  {
    DigitFed(0x328b_6300, false, s, 0, 0xffff_ff00, 0x9302_0700, 0x96f0_0b00);
    DigitFed(0x328b_6300, false, s, 1, 0x96f0_0b00, 0xacc6_0d00, 0x6ab0_ab00);
    DigitFed(0x328b_6300, false, s, 2, 0x6ab0_ab00, 0x53ac_5f00, 0x95fe_ba00);
    DigitFed(0x328b_6300, false, s, 3, 0x95fe_ba00, 0x9c2d_1d00, 0x9ca7_4400);
    DigitFed(0x328b_6300, false, s, 4, 0x9ca7_4400, 0x09b2_fd00, 0x6389_3f00);
    DigitFed(0x328b_6300, false, s, 5, 0x6389_3f00, 0xc035_1f00, 0xc097_4d00);
    DigitFed(0x328b_6300, false, s, 6, 0xc097_4d00, 0x3214_8200, 0xeb65_ac00);
    DigitFed(0x328b_6300, false, s, 7, 0xeb65_ac00, 0xe82c_5400, 0x2dfe_0a00);
    DigitFed(0x328b_6300, false, s, 8, 0x2dfe_0a00, 0xed6b_c300, 0x4b0c_1900);
    assert s[0..] == s && s[9..] == [];
  }

  lemma Digits32(s: seq<byte>)
    requires |s| == 9 && forall i :: 0 <= i < 9 ==> s[i] == 49 + i
    ensures Steps(WORD, 0x1edc_6f41, 0xffff_ffff, MessageBits(true, s)) == 0x3eb6_9f38
  {
    DigitFed(0x1edc_6f41, true, s, 0, 0xffff_ffff, 0xa7ea_f337, 0x3866_50f6);
    DigitFed(0x1edc_6f41, true, s, 1, 0x3866_50f6, 0xde70_03a7, 0xf9dc_5531);
    DigitFed(0x1edc_6f41, true, s, 2, 0xf9dc_5531, 0xbea1_e2d3, 0xb20b_21f7);
    DigitFed(0x1edc_6f41, true, s, 3, 0xb20b_21f7, 0xc88d_0a39, 0x88d0_a390);
    DigitFed(0x1edc_6f41, true, s, 4, 0x88d0_a390, 0xb0b2_e782, 0x533b_74e7);
    DigitFed(0x1edc_6f41, true, s, 5, 0x533b_74e7, 0x10d3_ffb3, 0x9e71_537d);
    DigitFed(0x1edc_6f41, true, s, 6, 0x9e71_537d, 0xbf00_3b17, 0xa816_bdb7);
    DigitFed(0x1edc_6f41, true, s, 7, 0xa816_bdb7, 0x54ec_10bb, 0xa6fe_1ef9);
    DigitFed(0x1edc_6f41, true, s, 8, 0xa6fe_1ef9, 0x4c85_5e53, 0x3eb6_9f38);
    assert s[0..] == s && s[9..] == [];
  }

  lemma RegisterIs(p: Params, s: seq<byte>, poly: bv32, before: bv32, after: bv32)
    requires p.width >= 1 && Holds(poly, p.poly, p.width, 0) && Holds(before, p.init, p.width, 0)
    requires Steps(WORD, poly, before, MessageBits(p.reflect, s)) == after
    ensures Register(p, MessageBits(p.reflect, s)) == High(WORD, after, p.width)
  {
    var bits := MessageBits(p.reflect, s);
    assert Lawful(WORD) by { WordLawful(); }
    RegisterOf(WORD, p, bits, poly, before);
  }

  lemma CalculateIs(crcBytes: nat, s: seq<byte>, reg: Bits, v: nat)
    requires 1 <= crcBytes <= 4 && |reg| == 8 * crcBytes && v < Pow256(crcBytes)
    requires var p := ParamsFor(crcBytes); Register(p, MessageBits(p.reflect, s)) == reg
    requires Output(ParamsFor(crcBytes), reg) == MsbFirst(v, 8 * crcBytes)
    ensures Calculate(crcBytes, s) == v
  {
    Pow2Bytes(crcBytes);
    ValueOfMsbFirst(v, 8 * crcBytes);
  }

  /** CRC-8/DVB-S2. */
  lemma CheckValue8(s: seq<byte>)
    requires s == [0x31, 0x32, 0x33, 0x34, 0x35, 0x36, 0x37, 0x38, 0x39]
    ensures Calculate(1, s) == 0xBC
  {
    var p := ParamsFor(1);
    NineInARow(s);
    Digits8(s);
    Generator8();
    HoldsZero(8);
    RegisterIs(p, s, 0xd500_0000, 0, 0xbc00_0000);
    Final8();
    ZeroBits(8);
    XorZeros(High(WORD, 0xbc00_0000, 8));
    FourPowers();
    CalculateIs(1, s, High(WORD, 0xbc00_0000, 8), 0xbc);
  }

  /** CRC-16/XMODEM. */
  lemma CheckValue16(s: seq<byte>)
    requires s == [0x31, 0x32, 0x33, 0x34, 0x35, 0x36, 0x37, 0x38, 0x39]
    ensures Calculate(2, s) == 0x31C3
  {
    var p := ParamsFor(2);
    NineInARow(s);
    Digits16(s);
    Generator16();
    HoldsZero(16);
    RegisterIs(p, s, 0x1021_0000, 0, 0x31c3_0000);
    Final16();
    ZeroBits(16);
    XorZeros(High(WORD, 0x31c3_0000, 16));
    FourPowers();
    CalculateIs(2, s, High(WORD, 0x31c3_0000, 16), 0x31c3);
  }

  /** CRC-24/INTERLAKEN. */
  lemma CheckValue24(s: seq<byte>)
    requires s == [0x31, 0x32, 0x33, 0x34, 0x35, 0x36, 0x37, 0x38, 0x39]
    ensures Calculate(3, s) == 0xB4F3E6
  {
    var p := ParamsFor(3);
    NineInARow(s);
    Digits24(s);
    Generator24();
    Ones24();
    RegisterIs(p, s, 0x328b_6300, 0xffff_ff00, 0x4b0c_1900);
    Register24();
    HoldsPlus(0x4b0c_1900, 0x4b0c19, 0xffff_ff00, 0xffffff, 24);
    Final24();
    FourPowers();
    CalculateIs(3, s, High(WORD, 0x4b0c_1900, 24), 0xb4f3e6);
  }

  /** CRC-32/INTERLAKEN. */
  lemma CheckValue32(s: seq<byte>)
    requires s == [0x31, 0x32, 0x33, 0x34, 0x35, 0x36, 0x37, 0x38, 0x39]
    ensures Calculate(4, s) == 0xE306_9283
  {
    var p := ParamsFor(4);
    NineInARow(s);
    Digits32(s);
    Generator32();
    Ones32();
    RegisterIs(p, s, 0x1edc_6f41, 0xffff_ffff, 0x3eb6_9f38);
    BackwardsWord();
    Reversed32();
    HoldsPlus(0x1cf9_6d7c, 0x1cf96d7c, 0xffff_ffff, 0xffffffff, 32);
    Final32();
    FourPowers();
    CalculateIs(4, s, High(WORD, 0x3eb6_9f38, 32), 0xe3069283);
  }

  lemma XorSelf(a: Bits)
    ensures Xor(a, a) == Zeros(|a|)
  {
  }

  function Ones(n: nat): Bits {
    seq(n, _ => true)
  }

  lemma {:induction false} OnesBits(w: nat)
    ensures MsbFirst(Pow2(w) - 1, w) == Ones(w)
  {
    if w > 0 {
      OnesBits(w - 1);
      assert (Pow2(w) - 1) / 2 == Pow2(w - 1) - 1;
    }
  }

  lemma ReverseOnes(n: nat)
    ensures Reverse(Ones(n)) == Ones(n)
  {
  }

  /** The CRC of no bytes. */
  lemma EmptyMessage(crcBytes: nat)
    requires 1 <= crcBytes <= 4
    ensures Calculate(crcBytes, []) == 0
  {
    var p := ParamsFor(crcBytes);
    var start := MsbFirst(p.init, p.width);
    FourPowers();
    Pow2Bytes(crcBytes);
    if crcBytes == 4 {
      OnesBits(32);
      ReverseOnes(32);
    }
    XorSelf(start);
    ZeroBits(p.width);
    ValueOfMsbFirst(0, p.width);
  }
}
