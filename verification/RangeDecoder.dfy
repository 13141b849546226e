/**
 The range decoder (avm_dsp/entdec.c, avm_dsp/entdec.h). dif holds the top bits
 of (low + rng) minus the code, minus one; bits not read yet are all ones, so a
 new byte is exclusive-ored in.
 */
module RangeDecoder {
  import opened Powers
  import opened BitString
  import opened Cdf
  import opened RangeInterval
  import opened RangeEncoder

  const WINDOW_SIZE: int := 64
  const MIN_BITS: int := 8
  const LOTS_OF_BITS: int := 0x4000

  // ---- Exclusive or with a byte ----

  function XorBits(a: nat, b: nat, n: nat): nat {
    if n == 0 then 0 else 2 * XorBits(a / 2, b / 2, n - 1) + (a + b) % 2
  }

  lemma {:induction false} XorOfOnes(a: nat, b: nat, n: nat)
    requires b < Pow2(n) && a == Pow2(n) - 1
    ensures XorBits(a, b, n) == a - b
    decreases n
  {
    if n != 0 {
      XorOfOnes(a / 2, b / 2, n - 1);
    }
  }

  /** dif ^ (byte << s) */
  function XorByte(dif: nat, byte: Octet, s: nat): int {
    var field := Shr(dif, s) % 256;
    dif - Shl(field, s) + Shl(XorBits(field, byte, 8), s)
  }

  /** Where the window holds only ones, exclusive or subtracts. */
  lemma XorSubtracts(dif: nat, byte: Octet, s: nat, top: nat)
    requires dif + 1 == Shl(top, s + 8) && top > 0
    ensures XorByte(dif, byte, s) == dif - Shl(byte, s)
    ensures 256 * top > byte && dif - Shl(byte, s) + 1 == Shl(256 * top - byte, s)
  {
    hide Pow2, XorBits;
    Pow2Constants();
    Pow2Add(s, 8);
    var p := Pow2(s);
    ShlIs(top, s + 8);
    Factor(top, p, 256);
    assert dif == p * (256 * top - 1) + (p - 1) by {
      Distribute(256 * top - 1, 1, p);
    }
    DivUnique(dif, p, 256 * top - 1, p - 1);
    assert (256 * top - 1) % 256 == 255;
    XorOfOnes(255, byte, 8);
    ShlIs(byte, s);
    ShlIs(255, s);
    ShlIs(255 - byte, s);
    Distribute(255 - byte, byte, p);
    ShlIs(256 * top - byte, s);
    Distribute(256 * top - byte, byte, p);
  }

  // ---- The bytes fed so far ----

  /** The first m bytes of a code that is continued with zeros. */
  function Prefix(code: seq<nat>, m: nat): nat {
    if m == 0 then 0 else 256 * Prefix(code, m - 1) + if m <= |code| then code[m - 1] else 0
  }

  lemma {:induction false} PrefixIsBase256(code: seq<nat>, m: nat)
    requires m <= |code|
    ensures Prefix(code, m) == Base256(code[..m])
    decreases m
  {
    if m > 0 {
      PrefixIsBase256(code, m - 1);
      assert code[..m][..m - 1] == code[..m - 1];
    }
  }

  lemma {:induction false} PrefixPadded(code: seq<nat>, j: nat)
    ensures Prefix(code, |code| + j) == Shl(Base256(code), 8 * j)
    decreases j
  {
    hide Pow2, Shl;
    if j == 0 {
      PrefixIsBase256(code, |code|);
      assert code[..|code|] == code;
      ShlIs(Base256(code), 0);
    } else {
      PrefixPadded(code, j - 1);
      ShlIs(Base256(code), 8 * j);
      ShlIs(Base256(code), 8 * (j - 1));
      Times256(j - 1);
      Factor(Base256(code), 256, Pow2(8 * (j - 1)));
    }
  }

  /** Whether a code is below a bound is decided by its first m bytes when the bound has no more bits. */
  lemma BelowByPrefix(code: seq<Octet>, m: nat, a: nat, t: nat)
    requires t <= 8 * m
    ensures Below(Base256(code), 8 * |code|, a, t) <==> Prefix(code, m) < Shl(a, 8 * m - t)
  {
    hide Pow2, Base256, Prefix, Shl, Below;
    var n := |code|;
    if m <= n {
      PrefixIsBase256(code, m);
      assert code == code[..m] + code[m..];
      Base256Joined(code[..m], code[m..]);
      Base256Bound(code[m..]);
      BelowHigh(Base256(code[..m]), Base256(code[m..]), 8 * (n - m), 8 * m - t, a, t);
    } else {
      PrefixPadded(code, m - n);
      BelowScale(Base256(code), 8 * n, a, t, 0);
      BelowPadded(Base256(code), 8 * n, 8 * (m - n), a, t);
    }
  }

  /** p followed by r more bits, compared with a bound of q bits less than p. */
  lemma BelowHigh(p: nat, tail: nat, r: nat, q: nat, a: nat, t: nat)
    requires tail < Pow2(r)
    ensures Below(Joined(p, r, tail), t + q + r, a, t) <==> p < Shl(a, q)
  {
    hide Pow2;
    var x, b := Joined(p, r, tail), Shl(a, q);
    Pow2Add(t, q + r);
    Pow2Add(q, r);
    Factor(a, Pow2(q), Pow2(r));
    Factor(a, Pow2(t), Pow2(q + r));
    Factor(a, Pow2(q + r), Pow2(t));
    MulCancel(x, b * Pow2(r), Pow2(t));
    assert Below(x, t + q + r, a, t) <==> x < b * Pow2(r);
    if p < b {
      MulMono(p + 1, b, Pow2(r));
      Distribute(p, 1, Pow2(r));
    } else {
      MulMono(b, p, Pow2(r));
    }
  }

  lemma BelowPadded(x: nat, n: nat, j: nat, a: nat, t: nat)
    requires t <= n + j
    ensures Below(x, n, a, t) <==> Shl(x, j) < Shl(a, n + j - t)
  {
    hide Pow2;
    Pow2Add(n, j);
    Pow2Add(n + j - t, t);
    CrossMultiply(x, Pow2(t), a, Pow2(n), Pow2(j), Pow2(n + j - t));
  }

  lemma CrossMultiply(x: nat, t: nat, a: nat, n: nat, j: nat, m: nat)
    requires n * j == m * t && t > 0 && j > 0
    ensures x * t < a * n <==> x * j < a * m
  {}

  // ---- The window ----

  /** dif against the interval, after fed bytes. */
  ghost predicate WindowAt(code: seq<Octet>, iv: Interval, fed: nat, dif: nat) {
    && 8 * fed <= iv.shift + 48
    && dif + 1 + Shl(Prefix(code, fed), 48 + iv.shift - 8 * fed) == Shl(iv.low + iv.rng, 48)
  }

  /** A bound at most as fine as the bytes fed, seen through the window. */
  lemma WindowBelow(code: seq<Octet>, fed: nat, a: nat, t: nat)
    requires t <= 8 * fed <= t + 48
    ensures Below(Base256(code), 8 * |code|, a, t)
      <==> Shl(Prefix(code, fed), 48 + t - 8 * fed) < Shl(a, 48)
  {
    hide Pow2, Base256, Prefix, Below;
    BelowByPrefix(code, fed, a, t);
    var q := 8 * fed - t;
    Pow2Add(q, 48 - q);
    Factor(a, Pow2(q), Pow2(48 - q));
    MulCancel(Prefix(code, fed), Shl(a, q), Pow2(48 - q));
  }

  lemma ShlDifference(a: nat, b: nat, k: nat)
    requires b <= a
    ensures Shl(a, k) == Shl(a - b, k) + Shl(b, k)
  {}

  /** The decoder's comparison of the top bits with v tells on which side of the bound the code is. */
  lemma WindowCompare(code: seq<Octet>, iv: Interval, fed: nat, dif: nat, v: nat)
    requires WindowAt(code, iv, fed, dif) && iv.shift <= 8 * fed && v <= iv.rng
    ensures Shr(dif, 48) < v <==> !Below(Base256(code), 8 * |code|, iv.low + (iv.rng - v), iv.shift)
    ensures Shr(dif, 48) < v <==> dif + 1 <= Shl(v, 48)
  {
    hide Pow2, Base256, Prefix, Below, Shl;
    WindowBelow(code, fed, iv.low + (iv.rng - v), iv.shift);
    ShlDifference(iv.low + iv.rng, v, 48);
    assert iv.low + iv.rng - v == iv.low + (iv.rng - v);
    ShrCompare(dif, v, 48);
  }

  lemma ShrCompare(x: nat, v: nat, k: nat)
    ensures Shr(x, k) < v <==> x + 1 <= Shl(v, k)
  {
    hide Pow2;
    var q := Shr(x, k);
    if q < v {
      MulMono(q + 1, v, Pow2(k));
      Distribute(q, 1, Pow2(k));
    } else {
      MulMono(v, q, Pow2(k));
    }
  }

  /** The known bits of the window end in whole units; all bits below are ones. */
  lemma WindowUnits(code: seq<Octet>, iv: Interval, fed: nat, dif: nat) returns (top: nat)
    requires WindowAt(code, iv, fed, dif) && iv.shift <= 8 * fed
    ensures top > 0 && dif + 1 == Shl(top, 48 + iv.shift - 8 * fed)
  {
    hide Pow2, Prefix;
    var q := 8 * fed - iv.shift;
    var k := 48 - q;
    Pow2Add(q, k);
    Factor(iv.low + iv.rng, Pow2(q), Pow2(k));
    var whole, p := Shl(iv.low + iv.rng, q), Prefix(code, fed);
    MinusProduct(whole, p, Pow2(k));
    if whole <= p {
      MulMono(whole, p, Pow2(k));
    }
    top := whole - p;
  }

  /** Shifting the window by d bits follows the interval. */
  lemma WindowShift(code: seq<Octet>, iv: Interval, fed: nat, dif: nat, d: nat)
    requires WindowAt(code, iv, fed, dif)
    ensures Shl(dif + 1, d) > 0
    ensures WindowAt(code, Interval(Shl(iv.low, d), Shl(iv.rng, d), iv.shift + d), fed, Shl(dif + 1, d) - 1)
  {
    hide Pow2, Prefix;
    var k := 48 + iv.shift - 8 * fed;
    var p := Prefix(code, fed);
    Pow2Add(k, d);
    Factor(p, Pow2(k), Pow2(d));
    ShlSum(iv.low, iv.rng, d);
    Factor(iv.low + iv.rng, Pow2(48), Pow2(d));
    Distribute(dif + 1, Shl(p, k), Pow2(d));
    MulMono(1, dif + 1, Pow2(d));
  }

  lemma UnitsShift(x: nat, top: nat, k: nat, d: nat)
    requires x == Shl(top, k)
    ensures Shl(x, d) == Shl(top, k + d)
  {
    hide Pow2;
    Pow2Add(k, d);
    Factor(top, Pow2(k), Pow2(d));
  }

  /** One more byte of the code. */
  lemma WindowFeed(code: seq<Octet>, iv: Interval, fed: nat, dif: nat, top: nat)
    requires WindowAt(code, iv, fed, dif) && fed < |code| && 8 * (fed + 1) <= iv.shift + 48
    requires top > 0 && dif + 1 == Shl(top, 48 + iv.shift - 8 * fed)
    ensures var s := 40 + iv.shift - 8 * fed;
      && XorByte(dif, code[fed], s) >= 0
      && WindowAt(code, iv, fed + 1, XorByte(dif, code[fed], s))
      && 256 * top > code[fed]
      && XorByte(dif, code[fed], s) + 1 == Shl(256 * top - code[fed], 48 + iv.shift - 8 * (fed + 1))
  {
    hide Pow2, XorByte, Shl;
    var s := 40 + iv.shift - 8 * fed;
    var p := Prefix(code, fed);
    XorSubtracts(dif, code[fed], s, top);
    ShlByte(p, s);
    ShlSum(256 * p, code[fed], s);
    ShlPositive(256 * top - code[fed], s);
    assert 48 + iv.shift - 8 * (fed + 1) == s;
  }

  lemma ShlPositive(x: nat, s: nat)
    requires x > 0
    ensures Shl(x, s) > 0
  {}

  lemma ShlByte(p: nat, s: nat)
    ensures Shl(p, s + 8) == Shl(256 * p, s)
  {
    hide Pow2;
    Pow2Constants();
    Pow2Add(s, 8);
    Factor(p, 256, Pow2(s));
  }

  /** Past the end of the code a further byte is zero and changes nothing. */
  lemma WindowPad(code: seq<Octet>, iv: Interval, fed: nat, dif: nat)
    requires WindowAt(code, iv, fed, dif) && |code| <= fed && 8 * (fed + 1) <= iv.shift + 48
    ensures WindowAt(code, iv, fed + 1, dif)
  {
    hide Pow2, Shl;
    ShlByte(Prefix(code, fed), 40 + iv.shift - 8 * fed);
  }

  class RangeDecoder {
    const buf: array<Octet>
    var bptr: nat
    var dif: nat
    var rng: nat
    var cnt: int
    var tellOffs: int
    /** The interval of everything decoded so far. */
    ghost var iv: Interval
    /** Bytes in the window, those taken as zero past the end included. */
    ghost var fed: nat

    ghost function Code(): seq<Octet>
      reads buf
    {
      buf[..]
    }

    /** The code lies in the interval and the fields agree with both. */
    ghost predicate Synced()
      reads this, buf
    {
      && bptr <= buf.Length && rng == iv.rng && ValidInterval(iv)
      && Inside(Base256(Code()), 8 * buf.Length, iv)
      && WindowAt(Code(), iv, fed, dif)
      && 8 * bptr - cnt + tellOffs == iv.shift - 14
      && (if bptr < buf.Length then fed == bptr && cnt == 8 * fed - iv.shift else fed >= buf.Length)
    }

    ghost predicate Valid()
      reads this, buf
    {
      Synced() && 8 * fed >= iv.shift + MIN_BITS && cnt >= MIN_BITS
    }

    /** avm_od_ec_dec_init: any bytes are a code of the whole interval. */
    constructor (buf: array<Octet>)
      ensures Valid() && this.buf == buf && iv == START
    {
      this.buf := buf;
      bptr := 0;
      dif := 0x8000_0000_0000_0000 - 1;
      rng := 0x8000;
      cnt := -15;
      tellOffs := -15 + 1;
      iv := START;
      fed := 0;
      new;
      hide Pow2, Base256, WindowAt, Inside, Shl;
      StartIsValid();
      StartInside(Code());
      StartWindow(Code(), dif);
      Refill(1);
    }

    /** The bits used so far: the same number the encoder tells. */
    method Tell() returns (bits: int)
      requires Valid()
      ensures bits == iv.shift - 14
    {
      bits := 8 * bptr - cnt + tellOffs;
    }

    /** Past the end the window can be taken to hold as many zeros as needed. */
    ghost method Pad()
      requires Synced() && (bptr < buf.Length ==> cnt >= MIN_BITS)
      modifies this`fed
      ensures Synced() && 8 * fed >= iv.shift + MIN_BITS
    {
      hide Pow2, Base256, WindowAt, Inside;
      while 8 * fed < iv.shift + MIN_BITS
        invariant Synced() && (bptr < buf.Length ==> cnt >= MIN_BITS)
        decreases iv.shift + MIN_BITS - 8 * fed
      {
        WindowPad(Code(), iv, fed, dif);
        fed := fed + 1;
      }
    }

    /** od_ec_dec_refill */
    method Refill(ghost units: nat)
      requires Synced() && cnt < MIN_BITS
      requires units > 0 && dif + 1 == Shl(units, 48 + iv.shift - 8 * fed)
      modifies this`dif, this`cnt, this`bptr, this`tellOffs, this`fed
      ensures Valid()
    {
      hide Pow2, Base256, WindowAt, Inside, Shl, XorByte;
      var s := WINDOW_SIZE - 9 - (cnt + 15);
      ghost var top: nat := units;
      WindowSize(Code(), iv, fed, dif);
      while s >= 0 && bptr < buf.Length
        invariant Synced() && s == 40 - cnt
        invariant 8 * fed <= iv.shift + 48
        invariant bptr < buf.Length ==> top > 0 && dif + 1 == Shl(top, 48 + iv.shift - 8 * fed)
        decreases buf.Length - bptr
      {
        WindowFeed(Code(), iv, fed, dif, top);
        WindowSize(Code(), iv, fed + 1, XorByte(dif, buf[bptr], s));
        dif := XorByte(dif, buf[bptr], s);
        cnt := cnt + 8;
        s := s - 8;
        top := 256 * top - buf[bptr];
        bptr := bptr + 1;
        fed := fed + 1;
      }
      if bptr >= buf.Length {
        tellOffs := tellOffs + LOTS_OF_BITS - cnt;
        cnt := LOTS_OF_BITS;
      }
      Pad();
    }

    /** The common end of od_ec_dec_normalize and od_ec_dec_bypass_normalize: d bits are used up. */
    method Consume(newDif: nat, newRng: nat, d: nat, ghost next: Interval, ghost units: nat)
      requires Valid() && newRng == next.rng && next.shift == iv.shift + d
      requires ValidInterval(next) && Inside(Base256(Code()), 8 * buf.Length, next)
      requires WindowAt(Code(), next, fed, newDif)
      requires units > 0 && 8 * fed <= next.shift + 48 && newDif + 1 == Shl(units, 48 + next.shift - 8 * fed)
      modifies this
      ensures Valid() && iv == next
    {
      hide Pow2, Base256, WindowAt, Inside, Shl;
      cnt := cnt - d;
      dif := newDif;
      rng := newRng;
      iv := next;
      if cnt < MIN_BITS {
        Refill(units);
      } else {
        Pad();
      }
    }

    /** The search of avm_od_ec_decode_cdf_q15 for the part [v, u) that holds the top bits c. */
    method FindPart(c: nat, icdf: seq<nat>, nsyms: nat) returns (ret: nat, u: nat, v: nat)
      requires ValidCdf(icdf, nsyms) && ValidRange(rng) && c < rng
      ensures ret < nsyms && u == Upper(icdf, rng, ret, nsyms) && v == Lower(icdf, rng, ret, nsyms)
      ensures v <= c < u
    {
      hide Pow2, Lower, ProbScale;
      u := rng;
      ret := 0;
      v := ProbScale(icdf[0], rng, 0, nsyms);
      LowerIs(icdf, rng, 0, nsyms);
      while c < v
        invariant ret < nsyms && u == Upper(icdf, rng, ret, nsyms) && v == Lower(icdf, rng, ret, nsyms) && c < u
        decreases nsyms - ret
      {
        PartsInOrder(icdf, rng, ret, nsyms);
        u := v;
        ret := ret + 1;
        v := ProbScale(icdf[ret], rng, ret, nsyms);
        LowerIs(icdf, rng, ret, nsyms);
      }
    }

    /** avm_od_ec_decode_cdf_q15: the one symbol whose part the code lies in. */
    method DecodeCdf(icdf: seq<nat>, nsyms: nat) returns (ret: nat)
      requires Valid() && ValidCdf(icdf, nsyms)
      modifies this
      ensures Valid() && ret < nsyms && iv == SymbolStep(old(iv), icdf, ret, nsyms)
    {
      hide Pow2, Base256, WindowAt, Inside, Shl, Below, Shr, Lower, Upper, ValidInterval, ShiftFor, SymbolStep,
           ValidRange;
      ghost var code := Code();
      RangeOfValid(iv);
      InsideBounds(Base256(code), 8 * |code|, iv);
      WindowCompare(code, iv, fed, dif, rng);
      assert iv.low + (iv.rng - rng) == iv.low;
      var u, v;
      ret, u, v := FindPart(Shr(dif, 48), icdf, nsyms);
      ghost var units := SymbolWindow(code, iv, fed, dif, icdf, ret, nsyms, u, v);
      var d := 15 - Msb(u - v);
      var newDif := Shl(dif - Shl(v, 48) + 1, d) - 1;
      Consume(newDif, Shl(u - v, d), d, SymbolStep(iv, icdf, ret, nsyms), units);
    }

    /** od_ec_decode_literal_bypass: the n bits whose interval the code lies in. */
    method DecodeLiteralBypass(n: nat) returns (ret: nat)
      requires Valid() && 1 <= n <= 8
      modifies this
      ensures Valid() && ret < Pow2(n) && iv == BypassSteps(old(iv), Literal(ret, n))
    {
      hide Pow2, Base256, WindowAt, Inside, Shl, Literal, Value, BypassSteps, BitStep, ValidInterval, ShiftFor;
      ghost var code, x, bits := Code(), Base256(Code()), 8 * buf.Length;
      RangeOfValid(iv);
      var left := dif;
      var vw := Shl(rng, 48);
      ret := 0;
      ghost var word: Bits := [];
      NoWord(iv, word);
      WindowZero(code, iv, fed, dif);
      for j := 0 to n
        invariant unchanged(this)
        invariant |word| == j && ret == Value(word) && vw == Shl(rng, 48 - j)
        invariant var at := BypassSteps(iv, word);
          && at.rng == rng && at.shift == iv.shift + j && Inside(x, bits, at)
          && Shl(left + 1, j) > 0 && WindowAt(code, at, fed, Shl(left + 1, j) - 1)
      {
        HalfRange(rng, 47 - j, j);
        vw := vw / 2;
        ret := 2 * ret;
        ghost var b := left < vw;
        WindowBit(code, BypassSteps(iv, word), fed, left, j, vw);
        if left >= vw {
          left := left - vw;
        } else {
          ret := ret + 1;
        }
        MoreWord(iv, word, b);
        word := word + [b];
      }
      ValueBound(word);
      LiteralOfValue(word);
      BypassKeepsValid(iv, word);
      WindowSize(code, BypassSteps(iv, word), fed, Shl(left + 1, n) - 1);
      ghost var units := BypassUnits(code, iv, fed, dif, word, left, n);
      Consume(Shl(left + 1, n) - 1, rng, n, BypassSteps(iv, word), units);
    }
  }

  lemma NoWord(iv: Interval, word: Bits)
    requires word == []
    ensures BypassSteps(iv, word) == iv && Value(word) == 0
  {}

  lemma MoreWord(iv: Interval, word: Bits, b: bool)
    ensures BypassSteps(iv, word + [b]) == BitStep(BypassSteps(iv, word), b)
    ensures Value(word + [b]) == 2 * Value(word) + if b then 1 else 0
    ensures BitStep(BypassSteps(iv, word), b).rng == BypassSteps(iv, word).rng
    ensures BitStep(BypassSteps(iv, word), b).shift == BypassSteps(iv, word).shift + 1
  {}

  lemma WindowZero(code: seq<Octet>, iv: Interval, fed: nat, dif: nat)
    requires WindowAt(code, iv, fed, dif)
    ensures Shl(dif + 1, 0) == dif + 1
  {}

  lemma HalfRange(r: nat, k: nat, j: nat)
    ensures Shl(r, k + 1) / 2 == Shl(r, k) && Shl(Shl(r, k), j + 1) == Shl(r, k + j + 1)
  {
    hide Pow2;
    Twice(k);
    TwiceProduct(r, Pow2(k));
    UnitsShift(Shl(r, k), r, k, j + 1);
  }

  /** One bypass bit: dif against half the range is the code against the middle of the interval. */
  lemma WindowBit(code: seq<Octet>, iv: Interval, fed: nat, left: nat, j: nat, vw: nat)
    requires Shl(left + 1, j) > 0 && WindowAt(code, iv, fed, Shl(left + 1, j) - 1)
    requires iv.shift + 1 <= 8 * fed && Shl(vw, j + 1) == Shl(iv.rng, 48)
    requires Inside(Base256(code), 8 * |code|, iv)
    ensures var b := left < vw;
      var left' := if b then left else left - vw;
      && Inside(Base256(code), 8 * |code|, BitStep(iv, b))
      && Shl(left' + 1, j + 1) > 0
      && WindowAt(code, BitStep(iv, b), fed, Shl(left' + 1, j + 1) - 1)
  {
    hide Pow2, Base256, Prefix, Shl, Below, Inside;
    var b := left < vw;
    var p, k, m := Prefix(code, fed), 48 + iv.shift - 8 * fed, 2 * iv.low + iv.rng;
    InsideBit(Base256(code), 8 * |code|, iv, b);
    WindowBelow(code, fed, m, iv.shift + 1);
    ShlTwice(left + 1, j);
    ShlTwice(p, k);
    TwiceBound(iv.low, iv.rng);
    ShlCompare(vw, left + 1, j + 1);
    if !b {
      ShlDifference(left + 1, vw, j + 1);
      ShlPositive(left + 1 - vw, j + 1);
    } else {
      ShlPositive(left + 1, j + 1);
    }
  }

  lemma ShlTwice(x: nat, k: nat)
    ensures Shl(x, k + 1) == 2 * Shl(x, k)
  {}

  lemma TwiceBound(low: nat, rng: nat)
    ensures 2 * Shl(low + rng, 48) == Shl(2 * low + rng + rng, 48) == Shl(2 * low + rng, 48) + Shl(rng, 48)
  {}

  lemma ShlCompare(x: nat, y: nat, k: nat)
    ensures x < y <==> Shl(x, k) < Shl(y, k)
  {}

  /** After bypass bits, too, all window bits below the fed ones are ones. */
  lemma BypassUnits(code: seq<Octet>, iv: Interval, fed: nat, dif: nat, word: Bits, left: nat, n: nat)
    returns (units: nat)
    requires WindowAt(code, iv, fed, dif) && 8 * fed >= iv.shift + n && |word| == n
    requires var at := BypassSteps(iv, word);
      at.shift == iv.shift + n && Shl(left + 1, n) > 0 && WindowAt(code, at, fed, Shl(left + 1, n) - 1)
    ensures var at := BypassSteps(iv, word);
      units > 0 && 8 * fed <= at.shift + 48 && Shl(left + 1, n) == Shl(units, 48 + at.shift - 8 * fed)
  {
    hide BypassSteps, WindowAt, Shl;
    var at := BypassSteps(iv, word);
    WindowSize(code, at, fed, Shl(left + 1, n) - 1);
    units := WindowUnits(code, at, fed, Shl(left + 1, n) - 1);
  }

  /** On every input the top 16 bits stay below the range, so the window fits 64 bits. */
  lemma WindowFits(code: seq<Octet>, iv: Interval, fed: nat, dif: nat)
    requires WindowAt(code, iv, fed, dif) && iv.shift <= 8 * fed && ValidInterval(iv)
    requires Inside(Base256(code), 8 * |code|, iv)
    ensures Shr(dif, 48) < iv.rng && dif < 0x1_0000_0000_0000_0000
  {
    hide Pow2, Base256, WindowAt, Below, Shr;
    InsideBounds(Base256(code), 8 * |code|, iv);
    assert iv.low + (iv.rng - iv.rng) == iv.low;
    WindowCompare(code, iv, fed, dif, iv.rng);
    Pow2Constants();
    MulMono(iv.rng, 0x1_0000, Pow2(48));
  }

  /** Once the symbol is found, the window narrows to the symbol's interval. */
  lemma SymbolWindow(code: seq<Octet>, iv: Interval, fed: nat, dif: nat, icdf: seq<nat>, ret: nat, nsyms: nat,
                     u: nat, v: nat) returns (units: nat)
    requires ValidInterval(iv) && Inside(Base256(code), 8 * |code|, iv) && WindowAt(code, iv, fed, dif)
    requires iv.shift <= 8 * fed && ValidCdf(icdf, nsyms) && ret < nsyms
    requires u == Upper(icdf, iv.rng, ret, nsyms) && v == Lower(icdf, iv.rng, ret, nsyms) && v <= Shr(dif, 48) < u
    ensures 0 < u - v < 0x1_0000 && Shl(v, 48) <= dif
    ensures var d := 15 - Msb(u - v);
      d >= 0 && dif - Shl(v, 48) + 1 >= 0
      && var next, newDif := SymbolStep(iv, icdf, ret, nsyms), Shl(dif - Shl(v, 48) + 1, d) - 1;
      && newDif >= 0 && next.rng == Shl(u - v, d) && next.shift == iv.shift + d
      && ValidInterval(next) && Inside(Base256(code), 8 * |code|, next) && WindowAt(code, next, fed, newDif)
      && units > 0 && 8 * fed <= next.shift + 48 && newDif + 1 == Shl(units, 48 + next.shift - 8 * fed)
  {
    hide Pow2, Base256, WindowAt, Inside, Shl, Below, Shr, Lower, Upper, ValidInterval, ShiftFor, SymbolStep;
    InsideSymbol(Base256(code), 8 * |code|, iv, icdf, ret, nsyms);
    WindowCompare(code, iv, fed, dif, u);
    WindowCompare(code, iv, fed, dif, v);
    SymbolKeepsValid(iv, icdf, ret, nsyms);
    RangeOfValid(iv);
    var d := 15 - Msb(u - v);
    ShiftForIs(u - v, 0, d);
    SymbolStepIs(iv, icdf, ret, nsyms);
    units := WindowNarrow(code, iv, fed, dif, u, v, d, Shl(dif - Shl(v, 48) + 1, d) - 1);
  }

  /** The window after the part [v, u) of the range is taken and brought back to full size. */
  lemma WindowNarrow(code: seq<Octet>, iv: Interval, fed: nat, dif: nat, u: nat, v: nat, d: nat, dif': int)
    returns (units: nat)
    requires WindowAt(code, iv, fed, dif) && iv.shift <= 8 * fed
    requires v < u <= iv.rng && Shl(v, 48) <= dif && dif' == Shl(dif - Shl(v, 48) + 1, d) - 1
    ensures var next := Interval(Shl(iv.low + (iv.rng - u), d), Shl(u - v, d), iv.shift + d);
      && dif' >= 0 && WindowAt(code, next, fed, dif')
      && units > 0 && 8 * fed <= next.shift + 48 && dif' + 1 == Shl(units, 48 + next.shift - 8 * fed)
  {
    hide Pow2, Shl, WindowAt;
    var left := dif - Shl(v, 48);
    var part := Interval(iv.low + (iv.rng - u), u - v, iv.shift);
    WindowPart(code, iv, fed, dif, u, v);
    WindowSize(code, iv, fed, dif);
    units := WindowUnits(code, part, fed, left);
    WindowShift(code, part, fed, left, d);
    UnitsShift(left + 1, units, 48 + iv.shift - 8 * fed, d);
  }

  lemma InsideBounds(x: nat, n: nat, iv: Interval)
    requires Inside(x, n, iv)
    ensures !Below(x, n, iv.low, iv.shift) && Below(x, n, iv.low + iv.rng, iv.shift)
  {}

  lemma LowerIs(icdf: seq<nat>, r: nat, s: nat, nsyms: nat)
    requires 2 <= nsyms <= MAX_SYMS && s < nsyms <= |icdf|
    ensures Lower(icdf, r, s, nsyms) == ProbScale(icdf[s], r, s, nsyms)
  {}

  /** Taking the parts below v off the window. */
  lemma WindowPart(code: seq<Octet>, iv: Interval, fed: nat, dif: nat, u: nat, v: nat)
    requires WindowAt(code, iv, fed, dif) && v < u <= iv.rng && Shl(v, 48) <= dif
    ensures WindowAt(code, Interval(iv.low + (iv.rng - u), u - v, iv.shift), fed, dif - Shl(v, 48))
  {
    hide Pow2, Shl, Prefix;
    ShlDifference(iv.low + iv.rng, v, 48);
    assert iv.low + (iv.rng - u) + (u - v) == iv.low + iv.rng - v;
  }

  lemma WindowSize(code: seq<Octet>, iv: Interval, fed: nat, dif: nat)
    requires WindowAt(code, iv, fed, dif)
    ensures 8 * fed <= iv.shift + 48
  {}

  lemma StartInside(code: seq<Octet>)
    ensures Inside(Base256(code), 8 * |code|, START)
  {
    hide Pow2, Base256;
    Base256Bound(code);
    Pow2Constants();
  }

  lemma StartWindow(code: seq<Octet>, dif: nat)
    requires dif == 0x8000_0000_0000_0000 - 1
    ensures WindowAt(code, START, 0, dif) && dif + 1 == Shl(1, 63)
  {
    hide Pow2;
    Pow2Constants();
    Pow2Add(15, 48);
  }
}
