/** Powers of two and the position of the highest set bit. */
module Powers {

  function Pow2(n: nat): (p: nat)
    ensures p > n
  {
    if n == 0 then 1 else 2 * Pow2(n - 1)
  }

  lemma Twice(z: nat)
    ensures Pow2(z + 1) == 2 * Pow2(z)
  {}

  lemma TwiceProduct(x: int, y: int)
    ensures x * (2 * y) == 2 * (x * y)
  {}

  lemma {:induction false} Pow2Add(a: nat, b: nat)
    ensures Pow2(a + b) == Pow2(a) * Pow2(b)
  {
    if b != 0 {
      Pow2Add(a, b - 1);
      assert Pow2(a + b) == 2 * Pow2(a + (b - 1));
      TwiceProduct(Pow2(a), Pow2(b - 1));
    }
  }

  lemma {:induction false} Pow2Mono(a: nat, b: nat)
    requires a <= b
    ensures Pow2(a) <= Pow2(b)
    decreases b
  {
    if a < b {
      Pow2Mono(a, b - 1);
    }
  }

  lemma Pow2Constants()
    ensures Pow2(0) == 1 && Pow2(1) == 2 && Pow2(2) == 4 && Pow2(3) == 8 && Pow2(4) == 16
    ensures Pow2(5) == 32 && Pow2(7) == 0x80 && Pow2(8) == 0x100
    ensures Pow2(14) == 0x4000 && Pow2(15) == 0x8000 && Pow2(16) == 0x1_0000
    ensures Pow2(26) == 0x400_0000 && Pow2(29) == 0x2000_0000 && Pow2(31) == 0x8000_0000
    ensures Pow2(32) == 0x1_0000_0000 && Pow2(48) == 0x1_0000_0000_0000
  {
    assert Pow2(4) == 16 && Pow2(8) == 0x100 by {
      assert Pow2(2) == 4;
      Pow2Add(2, 2);
      Pow2Add(4, 4);
    }
    Pow2Add(8, 8);
    Pow2Add(16, 16);
    Pow2Add(32, 16);
    assert Pow2(5) == 2 * Pow2(4) && Pow2(8) == 2 * Pow2(7);
    assert Pow2(16) == 2 * Pow2(15) && Pow2(15) == 2 * Pow2(14);
    assert Pow2(32) == 2 * Pow2(31);
    Pow2Add(16, 8);
    Pow2Add(24, 2);
    Pow2Add(24, 5);
  }

  /** The position of the highest set bit: floor(log2(n)). */
  function Msb(n: nat): (l: nat)
    requires n > 0
    ensures Pow2(l) <= n < Pow2(l + 1)
  {
    if n == 1 then 0 else 1 + Msb(n / 2)
  }

  lemma MsbUnique(n: nat, l: nat)
    requires n > 0 && Pow2(l) <= n < Pow2(l + 1)
    ensures Msb(n) == l
  {
    if l < Msb(n) {
      Pow2Mono(l + 1, Msb(n));
    } else if Msb(n) < l {
      Pow2Mono(Msb(n) + 1, l);
    }
  }

  /** A number below 2^w has its highest bit below w. */
  lemma MsbBound(n: nat, w: nat)
    requires 0 < n < Pow2(w)
    ensures Msb(n) < w
  {}

  /** Quotient and remainder are determined by the number they divide. */
  lemma QuotientUnique(d: int, q: int, r: int, q': int, r': int)
    requires d * q + r == d * q' + r'
    requires 0 <= r < d && 0 <= r' < d
    ensures q == q' && r == r'
  {
    var k := q - q';
    assert d * k == r' - r by {
      assert d * k == d * q - d * q';
    }
    if k > 0 {
      MulMono(1, k, d);
      assert false;
    }
    if k < 0 {
      MulMono(k, -1, d);
      assert false;
    }
  }

  lemma DivUnique(v: int, d: int, q: int, r: int)
    requires v == d * q + r && 0 <= r < d
    ensures v / d == q && v % d == r
  {
    QuotientUnique(d, q, r, v / d, v % d);
  }

  lemma QuotientNonneg(q: int, r: int, d: int)
    requires 0 <= d * q + r && 0 <= r < d
    ensures q >= 0
  {}

  /** v shifted left by k bits. */
  function Shl(v: nat, k: nat): nat {
    v * Pow2(k)
  }

  /** v shifted right by k bits. */
  function Shr(v: nat, k: nat): (q: nat)
    ensures v == Pow2(k) * q + v % Pow2(k)
  {
    QuotientNonneg(v / Pow2(k), v % Pow2(k), Pow2(k));
    v / Pow2(k)
  }

  /** Dividing twice is dividing once by the product. */
  lemma DivDiv(v: int, a: int, b: int)
    requires a > 0 && b > 0
    ensures a * b > 0 && (v / a) / b == v / (a * b)
  {
    MulMonoStrict(0, a, b);
    var q, r := v / a, v % a;
    DivSplit(v, a, b, q, r, q / b, q % b);
  }

  lemma DivSplit(v: int, a: int, b: int, q: int, r: int, q': int, r': int)
    requires a > 0 && b > 0 && a * b > 0
    requires v == a * q + r && q == b * q' + r' && 0 <= r < a && 0 <= r' < b
    ensures v / (a * b) == q'
  {
    var ab := a * b;
    var low := a * r' + r;
    assert v == ab * q' + low by {
      assert a * q == a * (b * q') + a * r';
      assert a * (b * q') == ab * q';
    }
    MulMono(0, r', a);
    MulMono(r', b - 1, a);
    assert (b - 1) * a == ab - a;
    DivUnique(v, ab, q', low);
  }

  /** v / 2^i, taken one bit further. */
  lemma ShiftStep(v: int, i: nat)
    ensures v / Pow2(i + 1) == (v / Pow2(i)) / 2
  {
    DivDiv(v, Pow2(i), 2);
  }

  lemma MinusProduct(x: int, y: int, p: int)
    ensures x * p - y * p == (x - y) * p
  {}

  lemma MulMono(x: int, y: int, k: nat)
    requires x <= y
    ensures x * k <= y * k
  {}

  lemma MulMonoStrict(x: int, y: int, k: nat)
    requires x < y && k > 0
    ensures x * k < y * k
  {}

  /** A common positive factor does not change a comparison. */
  lemma MulCancel(x: int, y: int, k: nat)
    requires k > 0
    ensures x <= y <==> x * k <= y * k
    ensures x < y <==> x * k < y * k
  {
    if x < y { MulMonoStrict(x, y, k); } else { MulMono(y, x, k); }
    if x <= y { MulMono(x, y, k); } else { MulMonoStrict(y, x, k); }
  }
}
