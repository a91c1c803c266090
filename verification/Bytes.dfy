/** Little-endian integers, as Serdes writes and reads them. */
module Bytes {

  type byte = x: nat | x < 256

  function Pow256(n: nat): (p: nat)
    ensures p >= 1
  {
    if n == 0 then 1 else 256 * Pow256(n - 1)
  }

  /** The low `w` bytes of `v`, least significant first. */
  function LE(v: nat, w: nat): (b: seq<byte>)
    ensures |b| == w
  {
    if w == 0 then [] else [v % 256] + LE(v / 256, w - 1)
  }

  function FromLE(b: seq<byte>): nat {
    if b == [] then 0 else b[0] + 256 * FromLE(b[1..])
  }

  lemma ModStep(v: nat, p: nat)
    requires p >= 1
    ensures v % (256 * p) == v % 256 + 256 * ((v / 256) % p)
  {
    var q, r := (v / 256) / p, (v / 256) % p;
    assert v / 256 == q * p + r;
    assert v == 256 * (q * p + r) + v % 256;
    ModUnique(v, 256 * p, q, 256 * r + v % 256);
  }

  lemma MulAtLeast(a: int, m: nat)
    requires a >= 1
    ensures a * m >= m
  {
    assert a * m == (a - 1) * m + m;
  }

  lemma ModUnique(v: int, m: nat, q: int, r: nat)
    requires v == q * m + r && r < m
    ensures v % m == r && v / m == q
  {
    var d := v / m - q;
    assert d * m == (v / m) * m - q * m;
    assert d * m == r - v % m;
    assert d < 1 by {
      if d >= 1 {
        MulAtLeast(d, m);
      }
    }
    assert d > -1 by {
      if d <= -1 {
        MulAtLeast(-d, m);
      }
    }
  }

  lemma DivStep(v: nat, p: nat)
    requires p >= 1
    ensures v / (256 * p) == (v / 256) / p
  {
    var q, r := (v / 256) / p, (v / 256) % p;
    assert v / 256 == q * p + r;
    assert v == 256 * (q * p + r) + v % 256;
    ModUnique(v, 256 * p, q, 256 * r + v % 256);
  }

  /** The byte at index `i` is the digit of 256^i: low byte first. */
  lemma {:induction false} LEAt(v: nat, w: nat, i: nat)
    requires i < w
    ensures LE(v, w)[i] == v / Pow256(i) % 256
  {
    if i > 0 {
      LEAt(v / 256, w - 1, i - 1);
      DivStep(v, Pow256(i - 1));
    }
  }

  /** Reading back what was written gives the value reduced to the width. */
  lemma {:induction false} FromLEOfLE(v: nat, w: nat)
    ensures FromLE(LE(v, w)) == v % Pow256(w)
  {
    if w > 0 {
      FromLEOfLE(v / 256, w - 1);
      ModStep(v, Pow256(w - 1));
      assert LE(v, w)[1..] == LE(v / 256, w - 1);
    }
  }

  lemma {:induction false} FromLEBound(b: seq<byte>)
    ensures FromLE(b) < Pow256(|b|)
  {
    if b != [] {
      FromLEBound(b[1..]);
    }
  }

  /** Writing back what was read gives the bytes. */
  lemma {:induction false} LEOfFromLE(b: seq<byte>)
    ensures LE(FromLE(b), |b|) == b
  {
    if b != [] {
      LEOfFromLE(b[1..]);
      assert FromLE(b) / 256 == FromLE(b[1..]);
      assert b == [b[0]] + b[1..];
    }
  }

  lemma SameLE(v: nat, w: nat)
    ensures LE(v % Pow256(w), w) == LE(v, w)
  {
    FromLEOfLE(v, w);
    LEOfFromLE(LE(v, w));
  }

  /** `n` elements of `w` bytes; a sum, so that proofs can follow it element by element. */
  function Span(n: nat, w: nat): nat {
    if n == 0 then 0 else w + Span(n - 1, w)
  }

  lemma {:induction false} SpanIsProduct(n: nat, w: nat)
    ensures Span(n, w) == n * w
  {
    if n > 0 {
      SpanIsProduct(n - 1, w);
      assert n * w == (n - 1) * w + w;
    }
  }

  /** Division as repeated subtraction, for the same reason. */
  function Quotient(x: nat, w: nat): nat
    requires w >= 1
    decreases x
  {
    if x < w then 0 else 1 + Quotient(x - w, w)
  }

  lemma {:induction false} QuotientIsDivision(x: nat, w: nat)
    requires w >= 1
    ensures Quotient(x, w) == x / w
    decreases x
  {
    if x < w {
      ModUnique(x, w, 0, x);
    } else {
      QuotientIsDivision(x - w, w);
      var q, r := (x - w) / w, (x - w) % w;
      assert x == (q + 1) * w + r;
      ModUnique(x, w, q + 1, r);
    }
  }

  lemma {:induction false} QuotientBound(n: nat, x: nat, w: nat)
    requires w >= 1
    ensures n <= Quotient(x, w) <==> Span(n, w) <= x
    decreases n
  {
    if n > 0 && x >= w {
      QuotientBound(n - 1, x - w, w);
    }
  }

  lemma {:induction false} SpanSum(n: nat, a: nat, d: nat)
    ensures Span(n, a + d) == Span(n, a) + Span(n, d)
  {
    if n > 0 {
      SpanSum(n - 1, a, d);
    }
  }

  lemma {:induction false} SpanStrict(m: nat, n: nat, w: nat)
    requires m < n && w >= 1
    ensures Span(m, w) < Span(n, w)
    decreases n
  {
    if m < n - 1 {
      SpanStrict(m, n - 1, w);
    }
  }
}
