/**
 The finite subexponential code of [0, n) with parameter k. Level i codes the
 values from mk on: while more than 3a values remain, one flag bit separates
 the next a = 2^b values from the rest; the last level is quasi-uniform.
 */
module Subexp {
  import opened Powers
  import opened BitString
  import opened Parsing
  import opened Quniform
  import opened Recenter

  /** The largest k for which 3 * 2^b stays below 2^31 at every level of a uint16_t range. */
  const MAX_K: nat := 29

  /** b of level i. */
  function LevelBits(k: nat, i: nat): nat {
    if i == 0 then k else k + i - 1
  }

  predicate LastLevel(n: nat, k: nat, i: nat, mk: nat) {
    n <= mk + 3 * Pow2(LevelBits(k, i))
  }

  function SubexpFrom(n: nat, k: nat, i: nat, mk: nat, v: nat): Bits
    requires mk <= v < n
    decreases n - mk
  {
    var b := LevelBits(k, i);
    if LastLevel(n, k, i, mk) then QuniformBits(n - mk, v - mk)
    else if v >= mk + Pow2(b) then [true] + SubexpFrom(n, k, i + 1, mk + Pow2(b), v)
    else [false] + Literal(v - mk, b)
  }

  /** One level of a word, as the loops of the writers see it. */
  lemma WordStep(n: nat, k: nat, i: nat, mk: nat, v: nat)
    requires mk <= v < n
    ensures var b := LevelBits(k, i);
      SubexpFrom(n, k, i, mk, v) ==
        if n <= mk + 3 * Pow2(b) then QuniformBits(n - mk, v - mk)
        else if v >= mk + Pow2(b) then [true] + SubexpFrom(n, k, i + 1, mk + Pow2(b), v)
        else [false] + Literal(v - mk, b)
  {}

  function SubexpBits(n: nat, k: nat, v: nat): Bits
    requires v < n
  {
    SubexpFrom(n, k, 0, 0, v)
  }

  function ParseSubexpFrom(s: Bits, pos: nat, n: nat, k: nat, i: nat, mk: nat): Parsed
    requires mk < n
    decreases n - mk
  {
    var b := LevelBits(k, i);
    if LastLevel(n, k, i, mk) then
      var p := ParseQuniform(s, pos, n - mk);
      Clean(p.value + mk, p.used)
    else if !Peek(s, pos) then Clean(Value(Window(s, pos + 1, b)) + mk, 1 + b)
    else
      var p := ParseSubexpFrom(s, pos + 1, n, k, i + 1, mk + Pow2(b));
      Clean(p.value, 1 + p.used)
  }

  function ParseSubexp(s: Bits, pos: nat, n: nat, k: nat): Parsed
    requires n > 0
  {
    ParseSubexpFrom(s, pos, n, k, 0, 0)
  }

  lemma {:induction false} SubexpFromRoundTrip(s: Bits, pos: nat, n: nat, k: nat, i: nat, mk: nat, v: nat)
    requires mk <= v < n
    requires Shows(s, pos, SubexpFrom(n, k, i, mk, v))
    ensures ParseSubexpFrom(s, pos, n, k, i, mk) == Clean(v, |SubexpFrom(n, k, i, mk, v)|)
    decreases n - mk
  {
    hide QuniformBits, ParseQuniform, Literal, Value, Pow2;
    var b := LevelBits(k, i);
    if LastLevel(n, k, i, mk) {
      QuniformRoundTrip(s, pos, n - mk, v - mk);
    } else if v >= mk + Pow2(b) {
      ShowsFlag(s, pos, true, SubexpFrom(n, k, i + 1, mk + Pow2(b), v));
      SubexpFromRoundTrip(s, pos + 1, n, k, i + 1, mk + Pow2(b), v);
    } else {
      ShowsFlag(s, pos, false, Literal(v - mk, b));
      LiteralInRange(v - mk, b);
    }
  }

  /** Reading undoes writing. */
  lemma SubexpRoundTrip(s: Bits, pos: nat, n: nat, k: nat, v: nat)
    requires v < n
    requires Shows(s, pos, SubexpBits(n, k, v))
    ensures ParseSubexp(s, pos, n, k) == Clean(v, |SubexpBits(n, k, v)|)
  {
    SubexpFromRoundTrip(s, pos, n, k, 0, 0, v);
  }

  lemma {:induction false} SubexpFromComplete(s: Bits, pos: nat, n: nat, k: nat, i: nat, mk: nat)
    requires mk < n
    ensures var p := ParseSubexpFrom(s, pos, n, k, i, mk);
      mk <= p.value < n && SubexpFrom(n, k, i, mk, p.value) == Window(s, pos, p.used)
    decreases n - mk
  {
    hide QuniformBits, ParseQuniform, Literal, Value, Pow2;
    var b := LevelBits(k, i);
    if LastLevel(n, k, i, mk) {
      QuniformComplete(s, pos, n - mk);
    } else if !Peek(s, pos) {
      var w := Window(s, pos + 1, b);
      ValueBound(w);
      LiteralOfValue(w);
      WindowCons(s, pos, b);
    } else {
      SubexpFromComplete(s, pos + 1, n, k, i + 1, mk + Pow2(b));
      WindowCons(s, pos, ParseSubexpFrom(s, pos + 1, n, k, i + 1, mk + Pow2(b)).used);
    }
  }

  /** Every bit string, even one that ends early, decodes to some v < n that is written with exactly the bits used. */
  lemma SubexpComplete(s: Bits, pos: nat, n: nat, k: nat)
    requires n > 0
    ensures var p := ParseSubexp(s, pos, n, k);
      0 <= p.value < n && SubexpBits(n, k, p.value) == Window(s, pos, p.used)
  {
    SubexpFromComplete(s, pos, n, k, 0, 0);
  }

  /** No word is the start of another one. */
  lemma SubexpPrefixFree(s: Bits, pos: nat, n: nat, k: nat, v: nat, w: nat)
    requires v < n && w < n
    requires Shows(s, pos, SubexpBits(n, k, v)) && Shows(s, pos, SubexpBits(n, k, w))
    ensures v == w
  {
    SubexpRoundTrip(s, pos, n, k, v);
    SubexpRoundTrip(s, pos, n, k, w);
  }

  // ---- Word lengths ----

  /** Words of level i and later have at least b bits. */
  lemma {:induction false} LengthAtLeast(n: nat, k: nat, i: nat, mk: nat, v: nat)
    requires mk <= v < n && n > mk + 2 * Pow2(LevelBits(k, i))
    ensures |SubexpFrom(n, k, i, mk, v)| > LevelBits(k, i)
    decreases n - mk, 0
  {
    hide Literal, Value, Msb;
    var b := LevelBits(k, i);
    if LastLevel(n, k, i, mk) {
      if Width(n - mk) - 1 <= b {
        Pow2Mono(Width(n - mk), b + 1);
      }
    } else if v >= mk + Pow2(b) {
      var b' := LevelBits(k, i + 1);
      if b' == b {
        LengthAtLeast(n, k, i + 1, mk + Pow2(b), v);
      } else {
        assert Pow2(b') == 2 * Pow2(b);
        LengthAtLeastLater(n, k, i + 1, mk + Pow2(b), v);
      }
    }
  }

  /** ... and when only 2a values are known to remain, at least b bits. */
  lemma {:induction false} LengthAtLeastLater(n: nat, k: nat, i: nat, mk: nat, v: nat)
    requires mk <= v < n && n > mk + Pow2(LevelBits(k, i))
    ensures |SubexpFrom(n, k, i, mk, v)| >= LevelBits(k, i)
    decreases n - mk, 1
  {
    hide Literal, Value, Msb;
    var b := LevelBits(k, i);
    if LastLevel(n, k, i, mk) {
      if Width(n - mk) - 1 < b {
        Pow2Mono(Width(n - mk), b);
      }
    } else {
      LengthAtLeast(n, k, i, mk, v);
    }
  }

  /** Larger values never have shorter words. */
  lemma {:induction false} LengthMonotoneFrom(n: nat, k: nat, i: nat, mk: nat, v: nat, w: nat)
    requires mk <= v <= w < n
    ensures |SubexpFrom(n, k, i, mk, v)| <= |SubexpFrom(n, k, i, mk, w)|
    decreases n - mk
  {
    hide Literal, Value, QuniformBits;
    var b := LevelBits(k, i);
    if LastLevel(n, k, i, mk) {
      QuniformLengthMonotone(n - mk, v - mk, w - mk);
    } else if v >= mk + Pow2(b) {
      LengthMonotoneFrom(n, k, i + 1, mk + Pow2(b), v, w);
    } else if w >= mk + Pow2(b) {
      assert Pow2(LevelBits(k, i + 1)) <= 2 * Pow2(b);
      LengthAtLeastLater(n, k, i + 1, mk + Pow2(b), w);
    }
  }

  lemma SubexpLengthMonotone(n: nat, k: nat, v: nat, w: nat)
    requires v <= w < n
    ensures |SubexpBits(n, k, v)| <= |SubexpBits(n, k, w)|
  {
    LengthMonotoneFrom(n, k, 0, 0, v, w);
  }

  /** The value of mk on level i of the loop. */
  predicate AtLevel(k: nat, i: nat, mk: nat) {
    mk == if i == 0 then 0 else Pow2(LevelBits(k, i))
  }

  lemma NextLevel(k: nat, i: nat, mk: nat)
    requires AtLevel(k, i, mk)
    ensures AtLevel(k, i + 1, mk + Pow2(LevelBits(k, i)))
  {}

  /**
   On the ranges of the source every level computes 3 * 2^b inside an int and b
   never exceeds max(k, 15).
   */
  lemma LevelFitsInt(n: nat, k: nat, i: nat, mk: nat)
    requires mk < n < UINT16_LIMIT && k <= MAX_K && AtLevel(k, i, mk)
    ensures LevelBits(k, i) <= if k < 15 then 15 else k
    ensures mk + 3 * Pow2(LevelBits(k, i)) < 0x8000_0000
  {
    hide Pow2;
    Pow2Constants();
    var b := LevelBits(k, i);
    if i > 0 {
      if b > 15 {
        Pow2Mono(16, b);
      }
      Pow2Mono(b, 15);
    } else {
      Pow2Mono(b, MAX_K);
    }
  }

  /** The limit is exact: with k = 30 the first level already leaves the int range. */
  lemma LargerKOverflows(n: nat, k: nat)
    requires k > MAX_K
    ensures 3 * Pow2(LevelBits(k, 0)) > 0x7FFF_FFFF
  {
    hide Pow2;
    Pow2Constants();
    Twice(MAX_K);
    Pow2Mono(MAX_K + 1, k);
  }

  // ---- Recentered ----

  function RefSubexpBits(n: nat, k: nat, ref: nat, v: nat): Bits
    requires v < n && ref < n < UINT16_LIMIT
  {
    RecenterBijection(n, ref, v);
    SubexpBits(n, k, RecenterFiniteNonneg(n, ref, v))
  }

  function ParseRefSubexp(s: Bits, pos: nat, n: nat, k: nat, ref: nat): (p: Parsed)
    requires ref < n < UINT16_LIMIT
    ensures p.faults == []
  {
    var p := ParseSubexp(s, pos, n, k);
    SubexpComplete(s, pos, n, k);
    Clean(InvRecenterFiniteNonneg(n, ref, p.value), p.used)
  }

  lemma RefSubexpRoundTrip(s: Bits, pos: nat, n: nat, k: nat, ref: nat, v: nat)
    requires v < n && ref < n < UINT16_LIMIT
    requires Shows(s, pos, RefSubexpBits(n, k, ref, v))
    ensures ParseRefSubexp(s, pos, n, k, ref) == Clean(v, |RefSubexpBits(n, k, ref, v)|)
  {
    hide RecenterFiniteNonneg, InvRecenterFiniteNonneg, SubexpFrom, ParseSubexpFrom;
    RecenterBijection(n, ref, v);
    SubexpRoundTrip(s, pos, n, k, RecenterFiniteNonneg(n, ref, v));
  }

  lemma RefSubexpComplete(s: Bits, pos: nat, n: nat, k: nat, ref: nat)
    requires ref < n < UINT16_LIMIT
    ensures var p := ParseRefSubexp(s, pos, n, k, ref);
      0 <= p.value < n && RefSubexpBits(n, k, ref, p.value) == Window(s, pos, p.used)
  {
    hide RecenterFiniteNonneg, InvRecenterFiniteNonneg, SubexpFrom, ParseSubexpFrom;
    SubexpComplete(s, pos, n, k);
    var x := ParseSubexp(s, pos, n, k).value;
    RecenterBijection(n, ref, x);
  }

  /** Values nearer to the reference never have longer words. */
  lemma RefSubexpNearerIsShorter(n: nat, k: nat, ref: nat, v: nat, w: nat)
    requires v < n && w < n && ref < n < UINT16_LIMIT
    requires Distance(v, ref) < Distance(w, ref)
    ensures |RefSubexpBits(n, k, ref, v)| <= |RefSubexpBits(n, k, ref, w)|
  {
    hide RecenterFiniteNonneg, InvRecenterFiniteNonneg, SubexpFrom, ParseSubexpFrom;
    RecenterBijection(n, ref, v);
    RecenterBijection(n, ref, w);
    RecenterOrdersByDistance(n, ref, v, w);
    SubexpLengthMonotone(n, k, RecenterFiniteNonneg(n, ref, v), RecenterFiniteNonneg(n, ref, w));
  }

  // ---- Signed ----

  /** The largest n whose doubled range 2n - 1 is still a uint16_t. */
  const MAX_SIGNED_N: nat := 0x8000

  predicate SignedRange(n: nat, v: int) {
    0 < n <= MAX_SIGNED_N && -(n as int) < v < n
  }

  function SignedRefSubexpBits(n: nat, k: nat, ref: int, v: int): Bits
    requires SignedRange(n, ref) && SignedRange(n, v)
  {
    RefSubexpBits(2 * n - 1, k, ref + (n - 1), v + (n - 1))
  }

  function ParseSignedRefSubexp(s: Bits, pos: nat, n: nat, k: nat, ref: int): (p: Parsed)
    requires SignedRange(n, ref)
    ensures p.faults == []
  {
    var p := ParseRefSubexp(s, pos, 2 * n - 1, k, ref + (n - 1));
    Clean(p.value - (n - 1), p.used)
  }

  lemma SignedRefSubexpRoundTrip(s: Bits, pos: nat, n: nat, k: nat, ref: int, v: int)
    requires SignedRange(n, ref) && SignedRange(n, v)
    requires Shows(s, pos, SignedRefSubexpBits(n, k, ref, v))
    ensures ParseSignedRefSubexp(s, pos, n, k, ref) == Clean(v, |SignedRefSubexpBits(n, k, ref, v)|)
  {
    hide ParseRefSubexp, RefSubexpBits;
    RefSubexpRoundTrip(s, pos, 2 * n - 1, k, ref + (n - 1), v + (n - 1));
  }

  lemma SignedRefSubexpComplete(s: Bits, pos: nat, n: nat, k: nat, ref: int)
    requires SignedRange(n, ref)
    ensures var p := ParseSignedRefSubexp(s, pos, n, k, ref);
      SignedRange(n, p.value) && SignedRefSubexpBits(n, k, ref, p.value) == Window(s, pos, p.used)
  {
    hide ParseRefSubexp, RefSubexpBits;
    RefSubexpComplete(s, pos, 2 * n - 1, k, ref + (n - 1));
  }

  // ---- The words in numbers ----

  function Ones(n: nat): Bits {
    seq(n, _ => true)
  }

  /** Where level i starts. */
  function LevelStart(k: nat, i: nat): nat {
    if i == 0 then 0 else Pow2(k + i - 1)
  }

  /** A value on level i or later has i ones in front. */
  lemma {:induction false} SubexpPrefix(n: nat, k: nat, v: nat, i: nat)
    requires LevelStart(k, i) <= v < n
    requires i > 0 ==> n > LevelStart(k, i - 1) + 3 * Pow2(if i == 1 then k else k + i - 2)
    ensures SubexpBits(n, k, v) == Ones(i) + SubexpFrom(n, k, i, LevelStart(k, i), v)
  {
    hide Pow2, QuniformBits, Literal;
    if i == 0 {
      assert Ones(0) == [];
    } else {
      var b := if i == 1 then k else k + i - 2;
      if i > 1 {
        Twice(b);
        if i > 2 {
          Twice(b - 1);
        }
      }
      assert LevelStart(k, i) == LevelStart(k, i - 1) + Pow2(b);
      SubexpPrefix(n, k, v, i - 1);
      WordStep(n, k, i - 1, LevelStart(k, i - 1), v);
      assert Ones(i) == Ones(i - 1) + [true];
    }
  }

  /**
   The word of a value on level i, the levels before which all leave more than three
   times their own size: with as many ones, and a zero and the place on the level if
   that leaves as much too, otherwise the quasi-uniform word among all that is left.
   */
  lemma SubexpWord(n: nat, k: nat, v: nat, i: nat)
    requires v < n
    requires var start := if i == 0 then 0 else Pow2(k + i - 1); start <= v
    requires i == 1 ==> n > 3 * Pow2(k)
    requires i > 1 ==> n > Pow2(k + i - 2) + 3 * Pow2(k + i - 2)
    ensures var start, width := if i == 0 then 0 else Pow2(k + i - 1), if i == 0 then k else k + i - 1;
      && (n <= start + 3 * Pow2(width) ==> SubexpBits(n, k, v) == Ones(i) + QuniformBits(n - start, v - start))
      && (n > start + 3 * Pow2(width) && v < start + Pow2(width) ==>
            SubexpBits(n, k, v) == Ones(i) + ([false] + Literal(v - start, width)))
  {
    hide Pow2, QuniformBits, Literal;
    SubexpPrefix(n, k, v, i);
  }

  /** With a reference, it is the word of the value's place in the order of distance. */
  lemma RefSubexpWord(n: nat, k: nat, ref: nat, v: nat)
    requires v < n && ref < n < UINT16_LIMIT
    ensures var other := 2 * ref - v;
      var second := 0 <= other < n && other != v && (if 2 * ref <= n then other < v else v < other);
      var rank := CountNearer(ref, Distance(v, ref), n) + if second then 1 else 0;
      rank < n && RefSubexpBits(n, k, ref, v) == SubexpBits(n, k, rank)
  {
    hide RecenterFiniteNonneg;
    RecenterBijection(n, ref, v);
    RecenterRank(n, ref, v);
  }

  /** Among signed values it is the word of the same values counted from the smallest. */
  lemma SignedRefSubexpWord(n: nat, k: nat, ref: int, v: int)
    requires SignedRange(n, ref) && SignedRange(n, v)
    ensures SignedRefSubexpBits(n, k, ref, v) == RefSubexpBits(2 * n - 1, k, ref + n - 1, v + n - 1)
  {}

  /** For eight values around 4, the value 5 has the word 010. */
  lemma MiddleReference()
    ensures RefSubexpBits(8, 4, 4, 5) == [false, true, false]
  {
    hide RecenterFiniteNonneg, SubexpBits;
    assert CountNearer(4, 1, 8) == 1 by {
      CountNearerIs(4, 1, 8);
    }
    RefSubexpWord(8, 4, 4, 5);
    Pow2Constants();
    SubexpWord(8, 4, 2, 0);
    MsbUnique(8, 3);
    assert QuniformBits(8, 2) == Literal(2, 3);
    assert Literal(2, 3) == [false, true, false];
  }
}
