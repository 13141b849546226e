/**
 Bit strings, most significant bit first. A bit string is what a header buffer
 or a run of bypass bits carries; a literal is a number written in a fixed
 number of bits.
 */
module BitString {
  import opened Powers

  type Bits = seq<bool>

  function BitValue(b: bool): (v: nat)
    ensures v < 2
  {
    if b then 1 else 0
  }

  /** The n low bits of v; v may be negative, its bits are those of two's complement. */
  function Literal(v: int, n: nat): (s: Bits)
    ensures |s| == n
    decreases n
  {
    if n == 0 then [] else Literal(v / 2, n - 1) + [v % 2 == 1]
  }

  lemma LiteralNothing(v: int)
    ensures Literal(v, 0) == []
  {}

  lemma ShiftNothing(v: int)
    ensures v / Pow2(0) == v
  {}

  /** Writing one more bit of v below the n bits above it. */
  lemma NextBit(v: int, low: nat, n: nat)
    ensures Literal(v / Pow2(low), n + 1) == Literal(v / Pow2(low + 1), n) + [v / Pow2(low) % 2 == 1]
  {
    ShiftStep(v, low);
  }

  /** The most significant bit comes first. */
  lemma {:induction false} LiteralBit(v: int, n: nat, i: nat)
    requires i < n
    ensures Literal(v, n)[i] <==> v / Pow2(n - 1 - i) % 2 == 1
    decreases n
  {
    if i < n - 1 {
      LiteralBit(v / 2, n - 1, i);
      DivDiv(v, 2, Pow2(n - 2 - i));
    } else {
      assert v / Pow2(0) == v;
    }
  }

  /** The unsigned number a bit string writes. */
  function Value(s: Bits): (v: nat)
  {
    if s == [] then 0 else 2 * Value(s[..|s| - 1]) + BitValue(s[|s| - 1])
  }

  lemma {:induction false} ValueBound(s: Bits)
    ensures Value(s) < Pow2(|s|)
    decreases |s|
  {
    if s != [] {
      ValueBound(s[..|s| - 1]);
    }
  }

  /** Writing v in n bits keeps v modulo 2^n. */
  lemma {:induction false} ValueOfLiteral(v: int, n: nat)
    ensures Value(Literal(v, n)) == v % Pow2(n)
    decreases n
  {
    if n != 0 {
      ValueOfLiteral(v / 2, n - 1);
      var s := Literal(v, n);
      assert s[..|s| - 1] == Literal(v / 2, n - 1);
      ModDouble(v, Pow2(n - 1));
    }
  }

  lemma ModDouble(v: int, p: nat)
    requires p > 0
    ensures v % (2 * p) == 2 * ((v / 2) % p) + v % 2
  {
    ModDoubleStep(v, p, (v / 2) / p, (v / 2) % p);
  }

  lemma ModDoubleStep(v: int, p: nat, q: int, r: int)
    requires v / 2 == p * q + r && 0 <= r < p
    ensures v % (2 * p) == 2 * r + v % 2
  {
    assert (2 * p) * q == 2 * (p * q);
    DivUnique(v, 2 * p, q, 2 * r + v % 2);
  }

  lemma LiteralInRange(v: nat, n: nat)
    requires v < Pow2(n)
    ensures Value(Literal(v, n)) == v
  {}

  lemma {:induction false} LiteralOfValue(s: Bits)
    ensures Literal(Value(s), |s|) == s
    decreases |s|
  {
    if s != [] {
      LiteralOfValue(s[..|s| - 1]);
      assert s == s[..|s| - 1] + [s[|s| - 1]];
    }
  }

  /** A literal splits into its high part and its low part. */
  lemma {:induction false} LiteralSplit(v: int, hi: nat, lo: nat)
    ensures Literal(v, hi + lo) == Literal(v / Pow2(lo), hi) + Literal(v, lo)
    decreases lo
  {
    if lo == 0 {
      assert v / Pow2(0) == v;
    } else {
      LiteralSplit(v / 2, hi, lo - 1);
      DivDiv(v, 2, Pow2(lo - 1));
      assert Literal(v, hi + lo) == Literal(v / 2, hi + lo - 1) + [v % 2 == 1];
    }
  }

  /** Two strings of one length are equal when their values are. */
  lemma ValueInjective(s: Bits, t: Bits)
    requires |s| == |t| && Value(s) == Value(t)
    ensures s == t
  {}

  /** Only the low bits of a number are written. */
  lemma LowLiteral(v: nat, n: nat)
    ensures Literal(v, n) == Literal(v % Pow2(n), n)
  {
    hide Literal, Value, Pow2;
    ValueOfLiteral(v, n);
    LiteralInRange(v % Pow2(n), n);
    ValueInjective(Literal(v, n), Literal(v % Pow2(n), n));
  }

  lemma Regroup(x: Bits, y: Bits, z: Bits)
    ensures x + (y + z) == (x + y) + z
  {}

  // ---- Reading past the end ----

  /** Bit i of a buffer whose reader takes every bit past the end as zero. */
  predicate Peek(s: Bits, i: nat) {
    i < |s| && s[i]
  }

  /** n bits from position pos, zeros past the end. */
  function Window(s: Bits, pos: nat, n: nat): (w: Bits)
    ensures |w| == n
    ensures forall i {:trigger w[i]} :: 0 <= i < n ==> w[i] == Peek(s, pos + i)
  {
    seq(n, i requires 0 <= i => Peek(s, pos + i))
  }

  lemma WindowSplit(s: Bits, pos: nat, a: nat, b: nat)
    ensures Window(s, pos, a + b) == Window(s, pos, a) + Window(s, pos + a, b)
  {}

  lemma WindowSnoc(s: Bits, pos: nat, n: nat)
    ensures Window(s, pos, n + 1) == Window(s, pos, n) + [Peek(s, pos + n)]
  {}

  lemma WindowCons(s: Bits, pos: nat, n: nat)
    ensures Window(s, pos, 1 + n) == [Peek(s, pos)] + Window(s, pos + 1, n)
  {}

  /** Whole windows inside the buffer are slices of it. */
  lemma WindowInside(s: Bits, pos: nat, n: nat)
    requires pos + n <= |s|
    ensures Window(s, pos, n) == s[pos..pos + n]
  {}

}
