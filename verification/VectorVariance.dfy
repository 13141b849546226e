/**
 The variance of a projection vector (avm_dsp/avg.c, avm_vector_var_c): the
 integer formula and its 32-bit arithmetic.
 */
module VectorVariance {
  import opened MachineInts
  import opened Powers

  const WORD := 0x1_0000_0000
  const MAX_DIFF := 46340

  function Sum(s: seq<int>): int {
    if s == [] then 0 else Sum(s[..|s| - 1]) + s[|s| - 1]
  }

  function Square(x: int): (y: nat) {
    SquareNonneg(x);
    x * x
  }

  lemma SquareNonneg(x: int)
    ensures x * x >= 0
  {}

  function SumSquares(s: seq<int>): nat {
    if s == [] then 0 else SumSquares(s[..|s| - 1]) + Square(s[|s| - 1])
  }

  predicate AllEqual(s: seq<int>) {
    forall i, j :: 0 <= i < |s| && 0 <= j < |s| ==> s[i] == s[j]
  }

  /** The sum of squares minus the squared sum over the length, the quotient rounded down. */
  function Variance(s: seq<int>): int
    requires |s| > 0
  {
    SumSquares(s) - Square(Sum(s)) / |s|
  }

  // ---- Cauchy-Schwarz ----

  /** The squared distances to x. */
  function Spread(s: seq<int>, x: int): nat {
    if s == [] then 0 else Spread(s[..|s| - 1], x) + Square(s[|s| - 1] - x)
  }

  lemma SquareOfDifference(a: int, x: int)
    ensures Square(a - x) == Square(a) - 2 * (a * x) + Square(x)
  {}

  lemma SumStep(n: int, sum: int, last: int, x: int)
    ensures (sum + last) * x == sum * x + last * x
    ensures (n + 1) * Square(x) == n * Square(x) + Square(x)
  {}

  lemma {:induction false} SpreadIs(s: seq<int>, x: int)
    ensures Spread(s, x) == SumSquares(s) - 2 * (Sum(s) * x) + |s| * Square(x)
  {
    hide Square;
    if s != [] {
      var n := |s| - 1;
      SpreadIs(s[..n], x);
      SquareOfDifference(s[n], x);
      SumStep(n, Sum(s[..n]), s[n], x);
    }
  }

  lemma {:induction false} SpreadZeroIff(s: seq<int>, x: int)
    ensures Spread(s, x) == 0 <==> forall i :: 0 <= i < |s| ==> s[i] == x
  {
    hide Square;
    if s != [] {
      var n := |s| - 1;
      SpreadZeroIff(s[..n], x);
      SquareZeroIff(s[n] - x);
      assert forall i :: 0 <= i < n ==> s[i] == s[..n][i];
    }
  }

  lemma SquareZeroIff(x: int)
    ensures Square(x) == 0 <==> x == 0
  {}

  /** How far the squared sum is from its largest possible value. */
  function Deficit(s: seq<int>): int {
    |s| * SumSquares(s) - Square(Sum(s))
  }

  /** One more value adds its squared distances to the others. */
  lemma DeficitGrows(s: seq<int>)
    requires s != []
    ensures Deficit(s) == Deficit(s[..|s| - 1]) + Spread(s[..|s| - 1], s[|s| - 1])
  {
    hide Square;
    var n: nat, x := |s| - 1, s[|s| - 1];
    SpreadIs(s[..n], x);
    SquareOfSum(Sum(s[..n]), x);
    DeficitAlgebra(n, SumSquares(s[..n]), Square(x));
  }

  lemma SquareOfSum(a: int, x: int)
    ensures Square(a + x) == Square(a) + 2 * (a * x) + Square(x)
  {}

  lemma DeficitAlgebra(n: int, q: int, x2: int)
    ensures (n + 1) * (q + x2) == n * q + q + n * x2 + x2
  {}

  /** The squared sum is at most the length times the sum of squares, with equality for equal values only. */
  lemma {:induction false} CauchySchwarz(s: seq<int>)
    ensures Square(Sum(s)) <= |s| * SumSquares(s)
    ensures Square(Sum(s)) == |s| * SumSquares(s) <==> AllEqual(s)
  {
    hide Square;
    if s == [] {
      SquareZeroIff(0);
    } else {
      var n: nat := |s| - 1;
      CauchySchwarz(s[..n]);
      DeficitGrows(s);
      SpreadZeroIff(s[..n], s[n]);
      assert forall i :: 0 <= i < n ==> s[i] == s[..n][i];
    }
  }

  // ---- The variance ----

  lemma QuotientOf(a: nat, n: nat)
    requires n > 0
    ensures a - n < n * (a / n) <= a
  {}

  lemma FromProduct(n: nat, v: int, w: int)
    requires n > 0
    ensures n * (w - v) == n * w - n * v
    ensures n * (w - v) > -(n as int) ==> w - v >= 0
    ensures w == v <==> n * w == n * v
  {
    if w - v <= -1 {
      assert n * (w - v + 1) <= 0;
    }
    if n * w == n * v {
      assert n * (w - v) == 0;
    }
  }

  /** Never negative, at most one above the exact variance and never below it, and 0 exactly for equal values. */
  lemma VarianceProperties(s: seq<int>)
    requires |s| > 0
    ensures Variance(s) >= 0
    ensures |s| * SumSquares(s) - Square(Sum(s)) <= |s| * Variance(s) < |s| * SumSquares(s) - Square(Sum(s)) + |s|
    ensures Variance(s) == 0 <==> AllEqual(s)
  {
    hide Square;
    var n := |s|;
    CauchySchwarz(s);
    QuotientOf(Square(Sum(s)), n);
    FromProduct(n, Square(Sum(s)) / n, SumSquares(s));
    if AllEqual(s) {
      MultipleDivides(n, SumSquares(s));
    }
  }

  lemma MultipleDivides(n: nat, q: nat)
    requires n > 0
    ensures n * q / n == q
  {
    QuotientOf(n * q, n);
    FromProduct(n, n * q / n, q);
    SmallMultiple(n, q - n * q / n);
  }

  lemma SmallMultiple(w: nat, d: int)
    requires -(w as int) < w * d < w
    ensures d == 0
  {}

  // ---- 32-bit arithmetic ----

  function ToInt32(x: int): int {
    (x + 0x8000_0000) % WORD - 0x8000_0000
  }

  predicate LegalWidth(bwl: nat) {
    bwl == 2 || bwl == 3 || bwl == 4 || bwl == 5
  }

  function Width(bwl: nat): nat
    requires LegalWidth(bwl)
  {
    if bwl == 2 then 16 else if bwl == 3 then 32 else if bwl == 4 then 64 else 128
  }

  lemma LegalWidths(bwl: nat)
    ensures LegalWidth(bwl) <==> 2 <= bwl <= 5
  {}

  /** 4 << bwl */
  lemma WidthIs(bwl: nat)
    requires LegalWidth(bwl)
    ensures Width(bwl) == 4 * Pow2(bwl)
  {
    Pow2Constants();
  }

  /** What the code returns: the sums modulo 2^32. */
  function WrappedVariance(s: seq<int>): int
    requires |s| > 0
  {
    ToInt32(SumSquares(s) % WORD - Square(Sum(s)) % WORD / |s|)
  }

  function Diffs(ref: seq<int>, src: seq<int>, n: nat): (s: seq<int>)
    requires n <= |ref| && n <= |src|
    ensures |s| == n
  {
    seq(n, i requires 0 <= i < n => ref[i] - src[i])
  }

  /** |x| * |x| == x * x */
  lemma SquareOfAbs(x: int)
    ensures Square(if x < 0 then -x else x) == Square(x)
  {}

  lemma SquareBounded(x: int)
    requires -MAX_DIFF <= x <= MAX_DIFF
    ensures Square(x) < 0x8000_0000
  {
    var y: nat := if x < 0 then -x else x;
    SquareOfAbs(x);
    MulMono(y, MAX_DIFF, y);
  }

  lemma NoSums(s: seq<int>)
    ensures Sum(s[..0]) == 0 && SumSquares(s[..0]) == 0
  {}

  /** What one more difference adds, also modulo 2^32. */
  lemma OneMore(s: seq<int>, i: nat)
    requires i < |s|
    ensures Sum(s[..i + 1]) == Sum(s[..i]) + s[i]
    ensures SumSquares(s[..i + 1]) % WORD == (SumSquares(s[..i]) % WORD + Square(s[i])) % WORD
  {
    hide Square;
    assert s[..i + 1][..i] == s[..i];
  }

  /** avm_vector_var_c */
  method VectorVar(ref: array<Int16>, src: array<Int16>, bwl: nat) returns (v: int)
    requires LegalWidth(bwl) && Width(bwl) <= ref.Length && Width(bwl) <= src.Length
    requires forall i :: 0 <= i < Width(bwl) ==> -MAX_DIFF <= ref[i] - src[i] <= MAX_DIFF
    ensures v == WrappedVariance(Diffs(ref[..], src[..], Width(bwl)))
  {
    hide Square, Sum, SumSquares;
    var width := Width(bwl);
    ghost var s := Diffs(ref[..], src[..], width);
    NoSums(s);
    var mean, sse: nat := 0, 0;
    for i := 0 to width
      invariant mean == Sum(s[..i]) && -MAX_DIFF * i <= mean <= MAX_DIFF * i
      invariant sse == SumSquares(s[..i]) % WORD
    {
      var a: int, b: int := ref[i], src[i];
      var diff := a - b;
      OneMore(s, i);
      SquareBounded(diff);
      mean := mean + diff;
      sse := (sse + Square(diff)) % WORD;
    }
    assert s[..width] == s;
    SquareOfAbs(mean);
    var meansq := Square(if mean < 0 then -mean else mean) % WORD;
    v := ToInt32(sse - meansq / width);
  }

  // ---- When the wrapping is harmless ----

  lemma WidthDivides(bwl: nat)
    requires LegalWidth(bwl)
    ensures Width(bwl) * (WORD / Width(bwl)) == WORD && WORD / Width(bwl) > 0
  {}

  /** With m = 2^32 * q + r, the quotients by a width that divides 2^32 differ by q times 2^32 / width. */
  lemma WrappedQuotient(m: nat, w: nat, p: nat)
    requires w > 0 && w * p == WORD
    ensures m / w == p * (m / WORD) + m % WORD / w
  {
    var q, r := m / WORD, m % WORD;
    assert w * (p * q) == (w * p) * q;
    AddMultiple(r, p * q, w);
  }

  lemma AddMultiple(r: nat, k: nat, w: nat)
    requires w > 0
    ensures (w * k + r) / w == k + r / w
  {
    var d := (w * k + r) / w - (k + r / w);
    assert w * ((w * k + r) / w) + (w * k + r) % w == w * k + r;
    assert w * (r / w) + r % w == r;
    var x := (w * k + r) / w;
    assert w * d == w * x - w * k - w * (r / w);
    assert -(w as int) < w * d < w;
    SmallMultiple(w, d);
  }

  /**
   The result is the variance exactly when the bits of the squared sum above the
   32nd are a multiple of the width, as they are when the squared sum fits 32 bits.
   */
  lemma WrappingHarmlessIff(s: seq<int>, bwl: nat)
    requires LegalWidth(bwl) && |s| == Width(bwl) && Variance(s) < 0x8000_0000
    ensures WrappedVariance(s) == Variance(s) <==> Square(Sum(s)) / WORD % |s| == 0
  {
    hide Square;
    var w, m := Width(bwl), Square(Sum(s));
    var p: nat := WORD / w;
    VarianceProperties(s);
    WidthDivides(bwl);
    WrappedQuotient(m, w, p);
    var q := m / WORD;
    WrapsTo(SumSquares(s), m % WORD / w, p * q, Variance(s));
    MultipleOfWord(p, q, w);
  }

  lemma WrapsTo(a: nat, b: nat, k: nat, v: int)
    requires v == a - (k + b) && 0 <= v < 0x8000_0000
    ensures ToInt32(a % WORD - b) == v <==> k % WORD == 0
  {}

  lemma MultipleOfWord(p: nat, q: nat, w: nat)
    requires w > 0 && w * p == WORD && p > 0
    ensures p * q % WORD == 0 <==> q % w == 0
  {
    var c, r := q / w, q % w;
    assert p * q == (w * p) * c + p * r;
    assert p * r <= p * (w - 1);
    assert p * (w - 1) == WORD - p;
    assert p * q % WORD == p * r;
    if p * r == 0 {
      assert r == 0;
    }
  }

  /** What the code promises holds of what it returns exactly where that is the variance. */
  lemma ReturnedProperties(s: seq<int>, bwl: nat)
    requires LegalWidth(bwl) && |s| == Width(bwl) && Variance(s) < 0x8000_0000
    requires Square(Sum(s)) / WORD % |s| == 0
    ensures var v := WrappedVariance(s);
      && 0 <= v && (v == 0 <==> AllEqual(s))
      && |s| * SumSquares(s) - Square(Sum(s)) <= |s| * v < |s| * SumSquares(s) - Square(Sum(s)) + |s|
  {
    hide Square;
    VarianceProperties(s);
    WrappingHarmlessIff(s, bwl);
  }

  lemma {:induction false} ConstantSums(s: seq<int>, c: int)
    requires forall i :: 0 <= i < |s| ==> s[i] == c
    ensures Sum(s) == |s| * c && SumSquares(s) == |s| * Square(c)
  {
    hide Square;
    if s != [] {
      var n: nat := |s| - 1;
      ConstantSums(s[..n], c);
      OneMoreTimes(n, c);
      OneMoreTimes(n, Square(c));
    }
  }

  lemma OneMoreTimes(n: nat, c: int)
    ensures (n + 1) * c == n * c + c
  {}

  /** Sixteen differences of 4096 are equal, but the squared sum of 2^32 wraps to 0 and 2^28 is returned. */
  lemma WrappingHarms(s: seq<int>)
    requires |s| == 16 && forall i :: 0 <= i < 16 ==> s[i] == 4096
    ensures Variance(s) == 0 && WrappedVariance(s) == 0x1000_0000
  {
    ConstantSums(s, 4096);
    assert Square(4096) == 0x100_0000 && Square(65536) == WORD;
  }
}
