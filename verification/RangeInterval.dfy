/**
 Range coding as nested intervals. After any number of symbols the coder stands
 for the interval [low, low + rng) / 2^shift; coding a symbol narrows it to the
 symbol's part. A code is a number x / 2^n of the final interval.
 */
module RangeInterval {
  import opened Powers
  import opened BitString
  import opened Cdf

  datatype Interval = Interval(low: nat, rng: nat, shift: nat)

  const START := Interval(0, 0x8000, 15)

  predicate ValidInterval(iv: Interval) {
    ValidRange(iv.rng) && iv.low + iv.rng <= Pow2(iv.shift)
  }

  // ---- Where a code lies ----

  /** x / 2^n < a / 2^t */
  predicate Below(x: nat, n: nat, a: nat, t: nat) {
    x * Pow2(t) < a * Pow2(n)
  }

  predicate Inside(x: nat, n: nat, iv: Interval) {
    !Below(x, n, iv.low, iv.shift) && Below(x, n, iv.low + iv.rng, iv.shift)
  }

  lemma BelowScale(x: nat, n: nat, a: nat, t: nat, d: nat)
    ensures Below(x, n, a * Pow2(d), t + d) <==> Below(x, n, a, t)
  {
    hide Pow2;
    Pow2Add(t, d);
    Factor(x, Pow2(t), Pow2(d));
    Factor(a, Pow2(n), Pow2(d));
    Factor(a, Pow2(d), Pow2(n));
    MulCancel(x * Pow2(t), a * Pow2(n), Pow2(d));
  }

  lemma Factor(a: int, b: int, c: int)
    ensures a * (b * c) == (a * b) * c == (a * c) * b
  {}

  lemma BelowMono(x: nat, n: nat, a: nat, b: nat, t: nat)
    requires a <= b && Below(x, n, a, t)
    ensures Below(x, n, b, t)
  {}

  // ---- Narrowing ----

  /** The shift that brings a range back into [2^15, 2^16): 16 - OD_ILOG_NZ(rng). */
  function NormShift(r: nat): (d: nat)
    requires 0 < r < 0x1_0000
    ensures d <= 15 && 0x8000 <= Shl(r, d) < 0x1_0000
  {
    Pow2Constants();
    MsbBound(r, 16);
    Normalized(r, Msb(r));
    15 - Msb(r)
  }

  lemma Normalized(r: nat, l: nat)
    requires l <= 15 && Pow2(l) <= r < Pow2(l + 1)
    ensures 0x8000 <= Shl(r, 15 - l) < 0x1_0000
  {
    hide Pow2;
    Pow2Constants();
    Pow2Add(l, 15 - l);
    Pow2Add(l + 1, 15 - l);
    MulMono(Pow2(l), r, Pow2(15 - l));
    MulMonoStrict(r, Pow2(l + 1), Pow2(15 - l));
  }

  /** The piece of w units at off, d bits finer. */
  function Narrow(iv: Interval, off: nat, w: nat, d: nat): Interval {
    Interval(Shl(iv.low + off, d), Shl(w, d), iv.shift + d)
  }

  lemma InsideNarrow(x: nat, n: nat, iv: Interval, off: nat, w: nat, d: nat)
    ensures Inside(x, n, Narrow(iv, off, w, d))
      <==> !Below(x, n, iv.low + off, iv.shift) && Below(x, n, iv.low + off + w, iv.shift)
  {
    hide Pow2, Below;
    BelowScale(x, n, iv.low + off, iv.shift, d);
    BelowScale(x, n, iv.low + off + w, iv.shift, d);
    Distribute(iv.low + off, w, Pow2(d));
  }

  lemma Distribute(a: int, b: int, p: int)
    ensures (a + b) * p == a * p + b * p
  {}

  // ---- Symbols ----

  /** od_ec_encode_q15 and the normalization after it. */
  function SymbolStep(iv: Interval, icdf: seq<nat>, s: nat, nsyms: nat): Interval
    requires ValidInterval(iv) && ValidCdf(icdf, nsyms) && s < nsyms
  {
    PartsInOrder(icdf, iv.rng, s, nsyms);
    var u, v := Upper(icdf, iv.rng, s, nsyms), Lower(icdf, iv.rng, s, nsyms);
    Narrow(iv, iv.rng - u, u - v, NormShift(u - v))
  }

  lemma SymbolKeepsValid(iv: Interval, icdf: seq<nat>, s: nat, nsyms: nat)
    requires ValidInterval(iv) && ValidCdf(icdf, nsyms) && s < nsyms
    ensures ValidInterval(SymbolStep(iv, icdf, s, nsyms))
  {
    hide Pow2, Upper, Lower, NormShift, Narrow, ValidInterval;
    RangeOfValid(iv);
    PartsInOrder(icdf, iv.rng, s, nsyms);
    PartKeepsValid(iv, Upper(icdf, iv.rng, s, nsyms), Lower(icdf, iv.rng, s, nsyms));
  }

  lemma PartKeepsValid(iv: Interval, u: nat, v: nat)
    requires ValidInterval(iv) && v < u <= iv.rng && u % 8 == 0 && v % 8 == 0
    ensures ValidInterval(Narrow(iv, iv.rng - u, u - v, NormShift(u - v)))
  {
    hide Pow2, NormShift, Narrow;
    EightsApart(u, v);
    NarrowKeepsValid(iv, iv.rng - u, u - v, NormShift(u - v));
  }

  lemma EightsApart(u: nat, v: nat)
    requires v <= u && u % 8 == 0 && v % 8 == 0
    ensures (u - v) % 8 == 0
  {}

  lemma RangeOfValid(iv: Interval)
    requires ValidInterval(iv)
    ensures ValidRange(iv.rng)
  {}

  /**
   The interval of a symbol in numbers. The part of symbol s is counted from the top of
   the range; it is scaled to a full range.
   */
  lemma SymbolInterval(iv: Interval, icdf: seq<nat>, s: nat, nsyms: nat)
    requires ValidInterval(iv) && ValidCdf(icdf, nsyms) && s < nsyms
    ensures var rr := iv.rng / 256;
      var top := if s == 0 then iv.rng else rr * (16 * (icdf[s - 1] / 128) + 16 * (nsyms - s) / nsyms) / 128 * 8;
      var end := rr * (16 * (icdf[s] / 128) + 16 * (nsyms - 1 - s) / nsyms) / 128 * 8;
      var next := SymbolStep(iv, icdf, s, nsyms);
      ScaledTo(iv, top, end, next)
  {
    hide Pow2, Lower, Upper, SymbolStep, ValidInterval, ValidCdf, ScaledTo;
    RangeOfValid(iv);
    SymbolScaled(iv, icdf, s, nsyms);
    LowerInNumbers(icdf, iv.rng, s, nsyms);
    UpperInNumbers(icdf, iv.rng, s, nsyms);
  }

  /** The part [end, top) of the range, counted from the top, scaled to a full range. */
  predicate ScaledTo(iv: Interval, top: int, end: int, next: Interval) {
    && next.shift >= iv.shift && 32768 <= next.rng < 65536
    && var p := Pow2(next.shift - iv.shift);
       next.low == (iv.low + iv.rng - top) * p && next.rng == (top - end) * p
  }

  lemma UpperInNumbers(icdf: seq<nat>, r: nat, s: nat, nsyms: nat)
    requires ValidCdf(icdf, nsyms) && ValidRange(r) && s < nsyms
    ensures Upper(icdf, r, s, nsyms)
      == if s == 0 then r else r / 256 * (16 * (icdf[s - 1] / 128) + 16 * (nsyms - s) / nsyms) / 128 * 8
  {
    hide Lower, ValidCdf, ValidRange;
    if s > 0 {
      LowerInNumbers(icdf, r, s - 1, nsyms);
    }
  }

  lemma SymbolScaled(iv: Interval, icdf: seq<nat>, s: nat, nsyms: nat)
    requires ValidInterval(iv) && ValidCdf(icdf, nsyms) && s < nsyms
    ensures ScaledTo(iv, Upper(icdf, iv.rng, s, nsyms), Lower(icdf, iv.rng, s, nsyms), SymbolStep(iv, icdf, s, nsyms))
  {
    hide Pow2, Lower, Upper, NormShift;
    PartsInOrder(icdf, iv.rng, s, nsyms);
  }

  lemma NarrowKeepsValid(iv: Interval, off: nat, w: nat, d: nat)
    requires ValidInterval(iv) && off + w <= iv.rng && w % 8 == 0
    requires 0x8000 <= Shl(w, d) < 0x1_0000
    ensures ValidInterval(Narrow(iv, off, w, d))
  {
    hide Pow2;
    MultipleOfEight(w, Pow2(d));
    Pow2Add(iv.shift, d);
    Distribute(iv.low + off, w, Pow2(d));
    MulMono(iv.low + off + w, Pow2(iv.shift), Pow2(d));
  }

  lemma MultipleOfEight(a: nat, p: nat)
    requires a % 8 == 0
    ensures (a * p) % 8 == 0
  {
    var q := a / 8;
    assert a * p == 8 * (q * p);
  }

  /** A code in the part of s lies at [low + rng - Upper, low + rng - Lower). */
  lemma InsideSymbol(x: nat, n: nat, iv: Interval, icdf: seq<nat>, s: nat, nsyms: nat)
    requires ValidInterval(iv) && ValidCdf(icdf, nsyms) && s < nsyms
    ensures Lower(icdf, iv.rng, s, nsyms) < Upper(icdf, iv.rng, s, nsyms) <= iv.rng
    ensures Inside(x, n, SymbolStep(iv, icdf, s, nsyms))
      <==> && !Below(x, n, iv.low + (iv.rng - Upper(icdf, iv.rng, s, nsyms)), iv.shift)
           && Below(x, n, iv.low + (iv.rng - Lower(icdf, iv.rng, s, nsyms)), iv.shift)
  {
    hide Pow2, Below, Upper, Lower, NormShift, Narrow, Inside;
    PartsInOrder(icdf, iv.rng, s, nsyms);
    var u, v := Upper(icdf, iv.rng, s, nsyms), Lower(icdf, iv.rng, s, nsyms);
    InsideNarrow(x, n, iv, iv.rng - u, u - v, NormShift(u - v));
    assert iv.low + (iv.rng - u) + (u - v) == iv.low + (iv.rng - v);
  }

  /** Coding a symbol stays inside the interval before it. */
  lemma SymbolNested(x: nat, n: nat, iv: Interval, icdf: seq<nat>, s: nat, nsyms: nat)
    requires ValidInterval(iv) && ValidCdf(icdf, nsyms) && s < nsyms
    requires Inside(x, n, SymbolStep(iv, icdf, s, nsyms))
    ensures Inside(x, n, iv)
  {
    hide Pow2, Below, Upper, Lower, SymbolStep;
    InsideSymbol(x, n, iv, icdf, s, nsyms);
    var u, v := Upper(icdf, iv.rng, s, nsyms), Lower(icdf, iv.rng, s, nsyms);
    if Below(x, n, iv.low, iv.shift) {
      BelowMono(x, n, iv.low, iv.low + (iv.rng - u), iv.shift);
    }
    BelowMono(x, n, iv.low + (iv.rng - v), iv.low + iv.rng, iv.shift);
  }

  /** A code lies in the part of one symbol only. */
  lemma SymbolUnique(x: nat, n: nat, iv: Interval, icdf: seq<nat>, s: nat, t: nat, nsyms: nat)
    requires ValidInterval(iv) && ValidCdf(icdf, nsyms) && s < nsyms && t < nsyms
    requires Inside(x, n, SymbolStep(iv, icdf, s, nsyms)) && Inside(x, n, SymbolStep(iv, icdf, t, nsyms))
    ensures s == t
  {
    hide Pow2, Below, SymbolStep;
    if s < t {
      SymbolsApart(x, n, iv, icdf, s, t, nsyms);
    } else if t < s {
      SymbolsApart(x, n, iv, icdf, t, s, nsyms);
    }
  }

  lemma SymbolsApart(x: nat, n: nat, iv: Interval, icdf: seq<nat>, s: nat, t: nat, nsyms: nat)
    requires ValidInterval(iv) && ValidCdf(icdf, nsyms) && s < t < nsyms
    requires Inside(x, n, SymbolStep(iv, icdf, s, nsyms))
    ensures !Inside(x, n, SymbolStep(iv, icdf, t, nsyms))
  {
    hide Pow2, Below, SymbolStep, Lower;
    InsideSymbol(x, n, iv, icdf, s, nsyms);
    InsideSymbol(x, n, iv, icdf, t, nsyms);
    LowerFalls(icdf, iv.rng, s, t - 1, nsyms);
    BelowMono(x, n, iv.low + (iv.rng - Lower(icdf, iv.rng, s, nsyms)),
              iv.low + (iv.rng - Upper(icdf, iv.rng, t, nsyms)), iv.shift);
  }

  lemma {:induction false} LowerFalls(icdf: seq<nat>, r: nat, s: nat, t: nat, nsyms: nat)
    requires ValidCdf(icdf, nsyms) && ValidRange(r) && s <= t < nsyms
    ensures Lower(icdf, r, t, nsyms) <= Lower(icdf, r, s, nsyms)
    decreases t
  {
    hide Lower;
    if s < t {
      PartsInOrder(icdf, r, t, nsyms);
      LowerFalls(icdf, r, s, t - 1, nsyms);
    }
  }

  // ---- Bypass bits ----

  /** One equiprobable bit halves the interval. */
  function BitStep(iv: Interval, b: bool): Interval {
    Interval(2 * iv.low + (if b then iv.rng else 0), iv.rng, iv.shift + 1)
  }

  function BypassSteps(iv: Interval, word: Bits): Interval
    decreases |word|
  {
    if word == [] then iv else BitStep(BypassSteps(iv, word[..|word| - 1]), word[|word| - 1])
  }

  lemma BitKeepsValid(iv: Interval, b: bool)
    requires ValidInterval(iv)
    ensures ValidInterval(BitStep(iv, b))
  {}

  lemma {:induction false} BypassKeepsValid(iv: Interval, word: Bits)
    requires ValidInterval(iv)
    ensures ValidInterval(BypassSteps(iv, word))
    decreases |word|
  {
    if word != [] {
      BypassKeepsValid(iv, word[..|word| - 1]);
      BitKeepsValid(BypassSteps(iv, word[..|word| - 1]), word[|word| - 1]);
    }
  }

  lemma {:induction false} BypassConcat(iv: Interval, u: Bits, w: Bits)
    ensures BypassSteps(iv, u + w) == BypassSteps(BypassSteps(iv, u), w)
    decreases |w|
  {
    if w == [] {
      assert u + w == u;
    } else {
      assert (u + w)[..|u + w| - 1] == u + w[..|w| - 1];
      BypassConcat(iv, u, w[..|w| - 1]);
    }
  }

  /** Coding n bits at once, as the encoder does, is coding them one by one. */
  lemma {:induction false} BypassAtOnce(iv: Interval, word: Bits)
    ensures BypassSteps(iv, word)
         == Interval(iv.low * Pow2(|word|) + iv.rng * Value(word), iv.rng, iv.shift + |word|)
    decreases |word|
  {
    if word != [] {
      var w := word[..|word| - 1];
      BypassAtOnce(iv, w);
      DoubleSum(iv.low, Pow2(|w|), iv.rng, Value(w), BitValue(word[|word| - 1]));
    }
  }

  lemma DoubleSum(l: int, p: int, r: int, v: int, b: int)
    ensures 2 * (l * p + r * v) + r * b == l * (2 * p) + r * (2 * v + b)
  {}

  /** A code in the half of bit b. */
  lemma InsideBit(x: nat, n: nat, iv: Interval, b: bool)
    ensures Inside(x, n, BitStep(iv, b))
      <==> && Inside(x, n, iv)
           && (b <==> !Below(x, n, 2 * iv.low + iv.rng, iv.shift + 1))
  {
    hide Pow2, Below;
    TwoIsPow2();
    BelowScale(x, n, iv.low, iv.shift, 1);
    BelowScale(x, n, iv.low + iv.rng, iv.shift, 1);
    var mid := 2 * iv.low + iv.rng;
    if Below(x, n, 2 * iv.low, iv.shift + 1) {
      BelowMono(x, n, 2 * iv.low, mid, iv.shift + 1);
    }
    if Below(x, n, mid, iv.shift + 1) {
      BelowMono(x, n, mid, mid + iv.rng, iv.shift + 1);
    }
  }

  lemma TwoIsPow2()
    ensures Pow2(1) == 2
  {}

  lemma {:induction false} BypassNested(x: nat, n: nat, iv: Interval, word: Bits)
    requires Inside(x, n, BypassSteps(iv, word))
    ensures Inside(x, n, iv)
    decreases |word|
  {
    hide Inside;
    if word != [] {
      InsideBit(x, n, BypassSteps(iv, word[..|word| - 1]), word[|word| - 1]);
      BypassNested(x, n, iv, word[..|word| - 1]);
    }
  }

  lemma BypassLast(iv: Interval, word: Bits)
    requires word != []
    ensures BypassSteps(iv, word) == BitStep(BypassSteps(iv, word[..|word| - 1]), word[|word| - 1])
  {}

  /** Of two words a code lies in, the shorter one starts the longer one. */
  lemma {:induction false} BypassAgree(x: nat, n: nat, iv: Interval, u: Bits, w: Bits)
    requires Inside(x, n, BypassSteps(iv, u)) && Inside(x, n, BypassSteps(iv, w)) && |u| <= |w|
    ensures u == w[..|u|]
    decreases |w|
  {
    hide Inside, Below, BypassSteps, BitStep;
    if w != [] {
      var w' := w[..|w| - 1];
      BypassLast(iv, w);
      InsideBit(x, n, BypassSteps(iv, w'), w[|w| - 1]);
      if |u| < |w| {
        BypassAgree(x, n, iv, u, w');
        assert w'[..|u|] == w[..|u|];
      } else {
        var u' := u[..|u| - 1];
        BypassLast(iv, u);
        InsideBit(x, n, BypassSteps(iv, u'), u[|u| - 1]);
        BypassAgree(x, n, iv, u', w');
        assert u' == w';
        assert u == u' + [u[|u| - 1]];
        assert w == w' + [w[|w| - 1]];
      }
    }
  }
}
