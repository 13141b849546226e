/**
 Inverse CDF tables (avm_dsp/prob.h, avm_dsp/entcode.c): how a range is shared
 out among symbols and how a table adapts to a coded symbol.

 A table for nsyms symbols is nsyms + 2 numbers: 32768 minus the cumulative
 probabilities, then a counter and the index of the adaptation parameters.
 */
module Cdf {
  import opened Powers

  const PROB_TOP: nat := 0x8000
  const MAX_SYMS: nat := 16
  const PARA_COMBINATIONS: nat := 125

  /** av2_prob_inc_tbl, each row without its unused entries. */
  const PROB_INC: seq<seq<nat>> := [
    [8, 0],
    [10, 5, 0],
    [12, 8, 4, 0],
    [12, 9, 6, 3, 0],
    [13, 10, 8, 5, 2, 0],
    [13, 11, 9, 6, 4, 2, 0],
    [14, 12, 10, 8, 6, 4, 2, 0],
    [14, 12, 10, 8, 7, 5, 3, 1, 0],
    [14, 12, 11, 9, 8, 6, 4, 3, 1, 0],
    [14, 13, 11, 10, 8, 7, 5, 4, 2, 1, 0],
    [14, 13, 12, 10, 9, 8, 6, 5, 4, 2, 1, 0],
    [14, 13, 12, 11, 9, 8, 7, 6, 4, 3, 2, 1, 0],
    [14, 13, 12, 11, 10, 9, 8, 6, 5, 4, 3, 2, 1, 0],
    [14, 13, 12, 11, 10, 9, 8, 7, 6, 5, 4, 3, 2, 1, 0],
    [15, 14, 13, 12, 11, 10, 9, 8, 7, 6, 5, 4, 3, 2, 1, 0]
  ]

  predicate StrictlyFalls(row: seq<nat>) {
    forall i :: 0 <= i < |row| - 1 ==> row[i] > row[i + 1]
  }

  predicate RowShape(row: seq<nat>) {
    row != [] && StrictlyFalls(row) && row[0] <= 15 && row[|row| - 1] == 0
  }

  lemma ShortRows(nsyms: nat)
    requires 2 <= nsyms <= 9
    ensures |PROB_INC| == 15 && |PROB_INC[nsyms - 2]| == nsyms && RowShape(PROB_INC[nsyms - 2])
  {
    if nsyms <= 5 {
      if nsyms == 2 {} else if nsyms == 3 {} else if nsyms == 4 {} else {}
    } else {
      if nsyms == 6 {} else if nsyms == 7 {} else if nsyms == 8 {} else {}
    }
  }

  lemma LongRows(nsyms: nat)
    requires 10 <= nsyms <= MAX_SYMS
    ensures |PROB_INC| == 15 && |PROB_INC[nsyms - 2]| == nsyms && RowShape(PROB_INC[nsyms - 2])
  {
    if nsyms <= 12 {
      if nsyms == 10 {} else if nsyms == 11 {} else {}
    } else {
      if nsyms == 13 {} else if nsyms == 14 {} else if nsyms == 15 {} else {}
    }
  }

  /** Every row starts at most at 15, falls strictly and ends with 0. */
  lemma ProbIncShape(nsyms: nat)
    requires 2 <= nsyms <= MAX_SYMS
    ensures |PROB_INC| == 15 && |PROB_INC[nsyms - 2]| == nsyms
    ensures StrictlyFalls(PROB_INC[nsyms - 2])
    ensures PROB_INC[nsyms - 2][0] <= 15 && PROB_INC[nsyms - 2][nsyms - 1] == 0
  {
    if nsyms <= 9 {
      ShortRows(nsyms);
    } else {
      LongRows(nsyms);
    }
  }

  /** What symbol n of nsyms is raised by: its place from the end, as a share of 16. */
  lemma ProbIncIs(nsyms: nat, n: nat)
    requires 2 <= nsyms <= MAX_SYMS && n < nsyms
    ensures ProbInc(n, nsyms) == 16 * (nsyms - 1 - n) / nsyms
  {
    if nsyms <= 9 {
      ShortRowsAre(nsyms);
    } else if nsyms <= 12 {
      MiddleRowsAre(nsyms);
    } else {
      LongRowsAre(nsyms);
    }
    var row := PROB_INC[nsyms - 2];
    assert row[n] == EvenRow(nsyms)[n];
  }

  function EvenRow(nsyms: nat): (row: seq<nat>)
    requires nsyms > 0
    ensures |row| == nsyms
  {
    seq(nsyms, n requires 0 <= n < nsyms => 16 * (nsyms - 1 - n) / nsyms)
  }

  lemma ShortRowsAre(nsyms: nat)
    requires 2 <= nsyms <= 9
    ensures |PROB_INC| == 15 && PROB_INC[nsyms - 2] == EvenRow(nsyms)
  {
    if nsyms <= 5 {
      if nsyms == 2 {} else if nsyms == 3 {} else if nsyms == 4 {} else {}
    } else {
      if nsyms == 6 {} else if nsyms == 7 {} else if nsyms == 8 {} else {}
    }
  }

  lemma MiddleRowsAre(nsyms: nat)
    requires 10 <= nsyms <= 12
    ensures |PROB_INC| == 15 && PROB_INC[nsyms - 2] == EvenRow(nsyms)
  {
    if nsyms == 10 {} else if nsyms == 11 {} else {}
  }

  lemma LongRowsAre(nsyms: nat)
    requires 13 <= nsyms <= MAX_SYMS
    ensures |PROB_INC| == 15 && PROB_INC[nsyms - 2] == EvenRow(nsyms)
  {
    if nsyms == 13 {} else if nsyms == 14 {} else if nsyms == 15 {} else {}
  }

  function ProbInc(n: nat, nsyms: nat): nat
    requires 2 <= nsyms <= MAX_SYMS && n < nsyms
  {
    ProbIncShape(nsyms);
    PROB_INC[nsyms - 2][n]
  }

  /** The upper bits of a probability, raised so that no symbol has none. */
  function RaisedProb(p: nat, n: nat, nsyms: nat): nat
    requires 2 <= nsyms <= MAX_SYMS && n < nsyms
  {
    p / 128 * 16 + ProbInc(n, nsyms)
  }

  /** od_ec_prob_scale */
  function ProbScale(p: nat, r: nat, n: nat, nsyms: nat): nat
    requires 2 <= nsyms <= MAX_SYMS && n < nsyms
  {
    Scaled(r / 256, RaisedProb(p, n, nsyms))
  }

  function Scaled(rr: nat, p: nat): nat {
    rr * p / 128 * 8
  }

  /** A table the coder can use: falling from below 32768 to 0 at the last symbol. */
  predicate ValidCdf(icdf: seq<nat>, nsyms: nat) {
    && 2 <= nsyms <= MAX_SYMS && |icdf| == nsyms + 2
    && icdf[0] < PROB_TOP && icdf[nsyms - 1] == 0
    && (forall i :: 0 <= i < nsyms - 1 ==> icdf[i] >= icdf[i + 1])
    && icdf[nsyms] <= 32 && icdf[nsyms + 1] < PARA_COMBINATIONS
  }

  lemma {:induction false} CdfFalls(icdf: seq<nat>, nsyms: nat, i: nat, j: nat)
    requires ValidCdf(icdf, nsyms) && i <= j < nsyms
    ensures icdf[j] <= icdf[i] < PROB_TOP
    decreases j, if i < j then 0 else 1
  {
    if i < j {
      CdfFalls(icdf, nsyms, i, j - 1);
    } else if i > 0 {
      CdfFalls(icdf, nsyms, 0, i);
    }
  }

  /** The part of a range r below symbol s, counted from the top: [Lower, Upper) is the part of s. */
  function Lower(icdf: seq<nat>, r: nat, s: nat, nsyms: nat): nat
    requires 2 <= nsyms <= MAX_SYMS && s < nsyms <= |icdf|
  {
    ProbScale(icdf[s], r, s, nsyms)
  }

  function Upper(icdf: seq<nat>, r: nat, s: nat, nsyms: nat): nat
    requires 2 <= nsyms <= MAX_SYMS && s < nsyms <= |icdf|
  {
    if s == 0 then r else Lower(icdf, r, s - 1, nsyms)
  }

  predicate ValidRange(r: nat) {
    0x8000 <= r < 0x1_0000 && r % 8 == 0
  }

  /** A larger probability gets a larger part, as the range is at least 2^15. */
  lemma ScaledGrows(rr: nat, p: nat, q: nat)
    requires 128 <= rr && p < q
    ensures Scaled(rr, p) < Scaled(rr, q)
  {}

  lemma ScaledBelowRange(r: nat, p: nat)
    requires ValidRange(r) && p <= 4095
    ensures Scaled(r / 256, p) < r
  {
    var rr := r / 256;
    MulMono(p, 4095, rr);
    assert rr * p <= 4095 * rr;
  }

  /** Raised probabilities start below 4096 and fall strictly to 0. */
  lemma RaisedFalls(icdf: seq<nat>, s: nat, nsyms: nat)
    requires ValidCdf(icdf, nsyms) && s < nsyms
    ensures RaisedProb(icdf[s], s, nsyms) <= 4095
    ensures s == nsyms - 1 ==> RaisedProb(icdf[s], s, nsyms) == 0
    ensures s > 0 ==> RaisedProb(icdf[s], s, nsyms) < RaisedProb(icdf[s - 1], s - 1, nsyms)
  {
    hide ProbInc;
    IncFalls(s, nsyms);
    CdfFalls(icdf, nsyms, 0, s);
    if s > 0 {
      CdfFalls(icdf, nsyms, s - 1, s);
    }
  }

  /** Every symbol gets a part, the parts lie in order and the last one ends at 0. */
  lemma PartsInOrder(icdf: seq<nat>, r: nat, s: nat, nsyms: nat)
    requires ValidCdf(icdf, nsyms) && ValidRange(r) && s < nsyms
    ensures Lower(icdf, r, s, nsyms) < Upper(icdf, r, s, nsyms) <= r
    ensures Lower(icdf, r, s, nsyms) % 8 == 0 && Upper(icdf, r, s, nsyms) % 8 == 0
    ensures s == nsyms - 1 ==> Lower(icdf, r, s, nsyms) == 0
  {
    hide RaisedProb, Scaled;
    RaisedFalls(icdf, s, nsyms);
    ScaledBelowRange(r, RaisedProb(icdf[s], s, nsyms));
    ScaledByEight(r / 256, RaisedProb(icdf[s], s, nsyms));
    if s > 0 {
      RaisedFalls(icdf, s - 1, nsyms);
      ScaledBelowRange(r, RaisedProb(icdf[s - 1], s - 1, nsyms));
      ScaledByEight(r / 256, RaisedProb(icdf[s - 1], s - 1, nsyms));
      ScaledGrows(r / 256, RaisedProb(icdf[s], s, nsyms), RaisedProb(icdf[s - 1], s - 1, nsyms));
    }
  }

  /** Where the part of symbol s ends, in numbers. */
  lemma LowerInNumbers(icdf: seq<nat>, r: nat, s: nat, nsyms: nat)
    requires ValidCdf(icdf, nsyms) && s < nsyms
    ensures Lower(icdf, r, s, nsyms) == r / 256 * (16 * (icdf[s] / 128) + 16 * (nsyms - 1 - s) / nsyms) / 128 * 8
  {
    hide ProbInc;
    ProbIncIs(nsyms, s);
  }

  /** It is the entry's share of the range, out of 32768, but for the bits that are dropped and the raise. */
  lemma LowerNearShare(icdf: seq<nat>, r: nat, s: nat, nsyms: nat)
    requires ValidCdf(icdf, nsyms) && ValidRange(r) && s < nsyms
    ensures r * icdf[s] - 517 * 32768 < 32768 * Lower(icdf, r, s, nsyms) <= r * icdf[s] + 240 * 32768
  {
    hide ProbInc;
    IncFalls(s, nsyms);
    CdfFalls(icdf, nsyms, 0, s);
    NearShare(r, icdf[s], ProbInc(s, nsyms));
  }

  lemma NearShare(r: nat, p: nat, inc: nat)
    requires r < 0x1_0000 && p < PROB_TOP && inc <= 15
    ensures r * p - 517 * 32768 < 32768 * Scaled(r / 256, p / 128 * 16 + inc) <= r * p + 240 * 32768
  {
    var rr, t, a, b := r / 256, r % 256, p / 128, p % 128;
    var x := rr * (a * 16 + inc);
    assert Scaled(rr, a * 16 + inc) == x / 128 * 8;
    assert x == 16 * (rr * a) + rr * inc by {
      Distributes(rr, a * 16, inc);
      Regrouped(rr, a, 16);
    }
    assert r * p == 32768 * (rr * a) + 256 * (rr * b) + t * p by {
      Expanded(rr, t, a, b, p);
    }
    MulMono(inc, 15, rr);
    MulMono(b, 127, rr);
    MulMono(t, 255, p);
    MulMono(0, inc, rr);
    MulMono(0, b, rr);
    MulMono(0, t, p);
  }

  lemma Distributes(x: int, y: int, z: int)
    ensures x * (y + z) == x * y + x * z
  {}

  lemma Regrouped(x: int, y: int, z: int)
    ensures x * (y * z) == z * (x * y)
  {}

  lemma Expanded(rr: nat, t: nat, a: nat, b: nat, p: nat)
    requires p == 128 * a + b
    ensures (256 * rr + t) * p == 32768 * (rr * a) + 256 * (rr * b) + t * p
  {
    assert rr * p == 128 * (rr * a) + rr * b by {
      Distributes(rr, 128 * a, b);
      Regrouped(rr, 128, a);
    }
    Distributes(p, 256 * rr, t);
  }

  /**
   Why the first entry must be below 32768: a first entry of p leaves the first
   symbol a part of every range exactly when it is.
   */
  lemma FirstPartIff(p: nat, nsyms: nat)
    requires p <= PROB_TOP && 2 <= nsyms <= MAX_SYMS
    ensures p < PROB_TOP <==> forall r: nat :: ValidRange(r) ==> ProbScale(p, r, 0, nsyms) < r
  {
    hide ProbInc;
    IncFalls(0, nsyms);
    if p < PROB_TOP {
      forall r: nat | ValidRange(r)
        ensures ProbScale(p, r, 0, nsyms) < r
      {
        ScaledBelowRange(r, RaisedProb(p, 0, nsyms));
      }
    } else {
      assert RaisedProb(p, 0, nsyms) >= 4096;
      assert ValidRange(0x8000) && ProbScale(p, 0x8000, 0, nsyms) >= 0x8000;
    }
  }

  lemma ScaledByEight(rr: nat, p: nat)
    ensures Scaled(rr, p) % 8 == 0
    ensures p == 0 ==> Scaled(rr, p) == 0
  {}

  lemma {:induction false} IncFalls(n: nat, nsyms: nat)
    requires 2 <= nsyms <= MAX_SYMS && n < nsyms
    ensures ProbInc(n, nsyms) <= 15
    ensures n == nsyms - 1 ==> ProbInc(n, nsyms) == 0
    ensures n > 0 ==> ProbInc(n, nsyms) < ProbInc(n - 1, nsyms)
  {
    ProbIncShape(nsyms);
    if n > 0 {
      IncFalls(n - 1, nsyms);
      assert PROB_INC[nsyms - 2][n - 1] > PROB_INC[nsyms - 2][n - 1 + 1];
    }
  }

  // ---- Adaptation ----

  /** The entries of para_adjustment_list are built from these five. */
  const ADJUSTMENTS: seq<int> := [0, -1, -2, 1, 1]

  /** para_adjustment_list[index][interval] */
  function ParaAdjustment(index: nat, interval: nat): (a: int)
    requires index < PARA_COMBINATIONS && interval < 3
    ensures -2 <= a <= 1
  {
    if interval == 0 then ADJUSTMENTS[index / 25]
    else if interval == 1 then ADJUSTMENTS[index / 5 % 5]
    else ADJUSTMENTS[index % 5]
  }

  function SymsToSpeed(nsyms: nat): nat {
    if nsyms < 2 then 0 else if nsyms < 4 then 1 else 2
  }

  function Rate(icdf: seq<nat>, nsyms: nat): (rate: nat)
    requires ValidCdf(icdf, nsyms)
    ensures 2 <= rate <= 8
  {
    var interval := if icdf[nsyms] > 31 then 2 else if icdf[nsyms] > 15 then 1 else 0;
    3 + interval + SymsToSpeed(nsyms) + ParaAdjustment(icdf[nsyms + 1], interval)
  }

  /** One entry moves towards 32768 below the coded symbol and towards 0 from it on. */
  function Adapted(p: nat, below: bool, rate: nat): nat
    requires p <= PROB_TOP
  {
    if below then p + Shr(PROB_TOP - p, rate)
    else
      assert Shr(p, rate) <= p by { ShrSmaller(p, rate); }
      p - Shr(p, rate)
  }

  lemma ShrSmaller(p: nat, rate: nat)
    ensures Shr(p, rate) <= p
    ensures rate > 0 && p > 0 ==> Shr(p, rate) < p
  {
    var q := Shr(p, rate);
    if q > 0 {
      MulMono(1, Pow2(rate), q);
      if rate > 0 {
        MulMono(2, Pow2(rate), q);
      }
    }
  }

  lemma ShrMono(p: nat, q: nat, rate: nat)
    requires p <= q
    ensures Shr(p, rate) <= Shr(q, rate) <= Shr(p, rate) + (q - p)
  {
    QuotientMono(Pow2(rate), Shr(p, rate), p % Pow2(rate), Shr(q, rate), q % Pow2(rate));
  }

  lemma QuotientMono(d: nat, a: nat, ra: nat, b: nat, rb: nat)
    requires ra < d && rb < d && d * a + ra <= d * b + rb
    ensures a <= b <= a + (d * b + rb) - (d * a + ra)
  {
    var k := b - a;
    assert d * b - d * a == d * k;
    if k < 0 {
      MulMono(k, -1, d);
    } else if k > 0 {
      MulMono(1, k, d - 1);
      assert d * k == (d - 1) * k + k;
    }
  }

  /** Both moves keep the order of two entries, and a move down stays below a move up. */
  lemma AdaptedOrder(p: nat, q: nat, up: bool, down: bool, rate: nat)
    requires q <= p <= PROB_TOP && (down ==> up) && rate > 0
    ensures Adapted(q, down, rate) <= Adapted(p, up, rate)
    ensures p < PROB_TOP ==> Adapted(p, up, rate) < PROB_TOP
    ensures Adapted(p, up, rate) <= PROB_TOP
  {
    ShrSmaller(p, rate);
    ShrSmaller(q, rate);
    ShrSmaller(PROB_TOP - p, rate);
    ShrMono(q, p, rate);
    ShrMono(PROB_TOP - p, PROB_TOP - q, rate);
  }

  function UpdatedCdf(icdf: seq<nat>, val: nat, nsyms: nat): seq<nat>
    requires ValidCdf(icdf, nsyms)
  {
    var rate := Rate(icdf, nsyms);
    seq(nsyms + 2, i requires 0 <= i < nsyms + 2 =>
      if i < nsyms - 1 then
        CdfFalls(icdf, nsyms, 0, i);
        Adapted(icdf[i], i < val, rate)
      else if i == nsyms && icdf[nsyms] < 32 then icdf[nsyms] + 1
      else icdf[i])
  }

  /** Adapting to any symbol keeps a table usable. */
  lemma UpdateKeepsValid(icdf: seq<nat>, val: nat, nsyms: nat)
    requires ValidCdf(icdf, nsyms) && val < nsyms
    ensures ValidCdf(UpdatedCdf(icdf, val, nsyms), nsyms)
  {
    hide Adapted, Rate;
    var c := UpdatedCdf(icdf, val, nsyms);
    var rate := Rate(icdf, nsyms);
    AdaptedOrder(icdf[0], icdf[0], 0 < val, 0 < val, rate);
    forall i {:trigger c[i]} | 0 <= i < nsyms - 1
      ensures c[i] >= c[i + 1]
    {
      CdfFalls(icdf, nsyms, i, i + 1);
      if i + 1 < nsyms - 1 {
        AdaptedOrder(icdf[i], icdf[i + 1], i < val, i + 1 < val, rate);
      }
    }
  }

  /** The share of symbol s, out of 32768. */
  function Share(icdf: seq<nat>, s: nat): int
    requires s < |icdf|
  {
    (if s == 0 then PROB_TOP else icdf[s - 1]) - icdf[s]
  }

  /** Adapting to a symbol never shrinks its share and never grows any other's. */
  lemma UpdateFavoursSymbol(icdf: seq<nat>, val: nat, nsyms: nat, s: nat)
    requires ValidCdf(icdf, nsyms) && val < nsyms && s < nsyms
    ensures s == val ==> Share(UpdatedCdf(icdf, val, nsyms), s) >= Share(icdf, s)
    ensures s != val ==> Share(UpdatedCdf(icdf, val, nsyms), s) <= Share(icdf, s)
  {
    var rate := Rate(icdf, nsyms);
    var c := UpdatedCdf(icdf, val, nsyms);
    CdfFalls(icdf, nsyms, 0, s);
    if s > 0 {
      CdfFalls(icdf, nsyms, s - 1, s);
      assert c[s - 1] == Adapted(icdf[s - 1], s - 1 < val, rate);
      ShrMono(icdf[s], icdf[s - 1], rate);
      ShrMono(PROB_TOP - icdf[s - 1], PROB_TOP - icdf[s], rate);
    } else {
      ShrSmaller(PROB_TOP - icdf[0], rate);
    }
    if s < nsyms - 1 {
      assert c[s] == Adapted(icdf[s], s < val, rate);
    } else {
      assert c[s] == 0;
      ShrSmaller(0, rate);
      if s > 0 {
        ShrSmaller(icdf[s - 1], rate);
      }
    }
  }

  // ---- How fast a table adapts, in numbers ----

  /** What the distance of an entry to its target is divided by. */
  function Divisor(count: nat, para: nat, nsyms: nat): (d: nat)
    ensures d >= 4
  {
    var digit := if count < 16 then para / 25 else if count < 32 then para / 5 % 5 else para % 5;
    var adjusted := if digit == 0 then 4 else if digit == 1 then 2 else if digit == 2 then 1 else 8;
    (if nsyms <= 3 then 4 else 8) * (if count < 16 then 1 else if count < 32 then 2 else 4) * adjusted
  }

  lemma DivisorIs(icdf: seq<nat>, nsyms: nat)
    requires ValidCdf(icdf, nsyms)
    ensures Pow2(Rate(icdf, nsyms)) == Divisor(icdf[nsyms], icdf[nsyms + 1], nsyms)
  {
    SmallPowersOfTwo();
    var rate := Rate(icdf, nsyms);
    if rate <= 4 {
      if rate == 2 {} else if rate == 3 {} else {}
    } else {
      if rate == 5 {} else if rate == 6 {} else if rate == 7 {} else {}
    }
  }

  lemma SmallPowersOfTwo()
    ensures Pow2(2) == 4 && Pow2(3) == 8 && Pow2(4) == 16 && Pow2(5) == 32 && Pow2(6) == 64
    ensures Pow2(7) == 128 && Pow2(8) == 256
  {
    Pow2Constants();
  }

  /**
   Below the coded symbol an entry goes up towards 32768, from it on down towards 0,
   by its distance divided and rounded down. The count goes up to 32, nothing else
   changes.
   */
  lemma AdaptsBy(icdf: seq<nat>, val: nat, nsyms: nat, i: nat)
    requires ValidCdf(icdf, nsyms) && val < nsyms && i < nsyms + 2
    ensures var c, d := UpdatedCdf(icdf, val, nsyms), Divisor(icdf[nsyms], icdf[nsyms + 1], nsyms);
      && |c| == |icdf|
      && c[i] == if i == nsyms then (if icdf[i] < 32 then icdf[i] + 1 else 32)
                 else if i >= nsyms - 1 then icdf[i]
                 else if i < val then icdf[i] + (32768 - icdf[i]) / d
                 else icdf[i] - icdf[i] / d
  {
    hide Rate, Divisor;
    DivisorIs(icdf, nsyms);
    if i < nsyms - 1 {
      CdfFalls(icdf, nsyms, 0, i);
    }
  }

  /**
   Without adjustment the divisor is 16, or 32 for more than 3 symbols,
   twice that from 16 codings on and twice again at 32.
   */
  lemma DefaultPace(count: nat, nsyms: nat)
    ensures Divisor(count, 0, nsyms)
      == (if nsyms <= 3 then 16 else 32) * (if count < 16 then 1 else if count < 32 then 2 else 4)
  {}

  /** So an entry never moves further the more its table has coded. */
  lemma PaceNeverGrows(a: seq<nat>, b: seq<nat>, val: nat, nsyms: nat, i: nat)
    requires ValidCdf(a, nsyms) && ValidCdf(b, nsyms) && val < nsyms && i < nsyms - 1 && a[i] == b[i]
    requires a[nsyms] <= b[nsyms] && a[nsyms + 1] == b[nsyms + 1] == 0
    ensures var x, y := UpdatedCdf(a, val, nsyms)[i], UpdatedCdf(b, val, nsyms)[i];
      if i < val then a[i] <= y <= x else x <= y <= a[i]
  {
    hide Divisor;
    AdaptsBy(a, val, nsyms, i);
    AdaptsBy(b, val, nsyms, i);
    CdfFalls(a, nsyms, 0, i);
    DefaultPace(a[nsyms], nsyms);
    DefaultPace(b[nsyms], nsyms);
    var d, e := Divisor(a[nsyms], 0, nsyms), Divisor(b[nsyms], 0, nsyms);
    LessByMore(32768 - a[i], d, e);
    LessByMore(a[i], d, e);
  }

  lemma LessByMore(x: nat, d: nat, e: nat)
    requires 0 < d <= e
    ensures 0 <= x / e <= x / d
  {
    var q := x / e;
    MulMono(d, e, q);
    FromProductLeast(d, q, x);
  }

  lemma FromProductLeast(d: nat, q: nat, x: nat)
    requires d > 0 && d * q <= x
    ensures q <= x / d
  {
    QuotientMono(d, q, 0, x / d, x % d);
  }

  /** A fresh table of two equal symbols. */
  lemma FreshTableAdapts(icdf: seq<nat>)
    requires icdf == [16384, 0, 0, 0]
    ensures ValidCdf(icdf, 2) && UpdatedCdf(icdf, 0, 2) == [15360, 0, 1, 0]
      && UpdatedCdf(icdf, 1, 2) == [17408, 0, 1, 0]
  {
    hide UpdatedCdf, Divisor;
    DefaultPace(0, 2);
    AdaptsBy(icdf, 0, 2, 0);
    AdaptsBy(icdf, 0, 2, 1);
    AdaptsBy(icdf, 0, 2, 2);
    AdaptsBy(icdf, 0, 2, 3);
    AdaptsBy(icdf, 1, 2, 0);
    AdaptsBy(icdf, 1, 2, 1);
    AdaptsBy(icdf, 1, 2, 2);
    AdaptsBy(icdf, 1, 2, 3);
  }

  /** update_cdf, in place. */
  method UpdateCdf(cdf: array<nat>, val: nat, nsyms: nat)
    requires ValidCdf(cdf[..], nsyms) && val < nsyms
    modifies cdf
    ensures cdf[..] == UpdatedCdf(old(cdf[..]), val, nsyms)
    ensures ValidCdf(cdf[..], nsyms)
  {
    hide Adapted, Rate;
    ghost var c := cdf[..];
    UpdateKeepsValid(c, val, nsyms);
    var rate := Rate(cdf[..], nsyms);
    var tmp := PROB_TOP;
    for i := 0 to nsyms - 1
      invariant tmp == if i <= val then PROB_TOP else 0
      invariant forall j :: 0 <= j < i ==> cdf[j] == UpdatedCdf(c, val, nsyms)[j]
      invariant forall j :: i <= j < nsyms + 2 ==> cdf[j] == c[j]
    {
      if i == val {
        tmp := 0;
      }
      CdfFalls(c, nsyms, 0, i);
      AdaptedIs(cdf[i], rate);
      if tmp < cdf[i] {
        cdf[i] := cdf[i] - Shr(cdf[i] - tmp, rate);
      } else {
        cdf[i] := cdf[i] + Shr(tmp - cdf[i], rate);
      }
    }
    if cdf[nsyms] < 32 {
      cdf[nsyms] := cdf[nsyms] + 1;
    }
  }

  lemma AdaptedIs(p: nat, rate: nat)
    requires p <= PROB_TOP
    ensures Adapted(p, true, rate) == p + Shr(PROB_TOP - p, rate)
    ensures Shr(p, rate) <= p && Adapted(p, false, rate) == p - Shr(p, rate)
    ensures Shr(0, rate) == 0
  {
    ShrSmaller(p, rate);
    ShrSmaller(0, rate);
  }
}
