/**
 The range encoder (avm_dsp/entenc.c). Finished bytes wait, with their carries,
 in the pre-carry buffer; the rest of the lower end is in low.
 */
module RangeEncoder {
  import opened Powers
  import opened BitString
  import opened Cdf
  import opened RangeInterval

  type Octet = x: nat | x < 256

  /** A number written in base 256; digits may exceed 255, their carries are then still to be done. */
  function Base256(s: seq<nat>): nat {
    if s == [] then 0 else 256 * Base256(s[..|s| - 1]) + s[|s| - 1]
  }

  /** The first byte is the most significant. */
  lemma Base256OfTwo(a: nat, b: nat)
    ensures Base256([a, b]) == 256 * a + b
  {
    assert [a, b][..1] == [a] && [a][..0] == [];
    assert Base256([a]) == a;
  }

  lemma {:induction false} Base256Concat(a: seq<nat>, b: seq<nat>)
    ensures Base256(a + b) == Base256(a) * Pow2(8 * |b|) + Base256(b)
    decreases |b|
  {
    hide Pow2;
    if b == [] {
      assert a + b == a;
      assert Pow2(8 * |b|) == 1 by { Pow2Constants(); }
    } else {
      var b' := b[..|b| - 1];
      Base256Concat(a, b');
      assert (a + b)[..|a + b| - 1] == a + b';
      Times256(|b'|);
      Raise(Base256(a), Pow2(8 * |b'|), Base256(b'), b[|b| - 1]);
    }
  }

  lemma {:induction false} Base256Bound(s: seq<Octet>)
    ensures Base256(s) < Pow2(8 * |s|)
    decreases |s|
  {
    hide Pow2;
    if s == [] {
      Pow2Constants();
    } else {
      Base256Bound(s[..|s| - 1]);
      Times256(|s| - 1);
    }
  }

  lemma Times256(n: nat)
    ensures Pow2(8 * (n + 1)) == 256 * Pow2(8 * n)
  {
    hide Pow2;
    Pow2Constants();
    Pow2Add(8 * n, 8);
  }

  lemma Raise(a: int, p: int, b: int, d: int)
    ensures 256 * (a * p + b) + d == a * (256 * p) + (256 * b + d)
  {}

  /** The number whose bits from k on are b and that has l on top of them. */
  function Joined(b: nat, k: nat, l: nat): nat {
    b * Pow2(k) + l
  }

  /** The bits of l below c. */
  function LowBits(l: nat, c: nat): nat {
    l % Pow2(c)
  }

  /** Moving the bits above k to the buffer keeps the number they stand for. */
  lemma PushStep(b: nat, low: nat, k: nat)
    ensures Joined(b, k + 8, low) == Joined(256 * b + Shr(low, k), k, low % Pow2(k))
  {
    hide Pow2;
    Pow2Constants();
    Pow2Add(k, 8);
    Factor(b, 256, Pow2(k));
    Distribute(256 * b, Shr(low, k), Pow2(k));
  }

  lemma ShrBound(low: nat, k: nat, j: nat)
    requires low < Pow2(k + j)
    ensures Shr(low, k) < Pow2(j)
  {
    hide Pow2;
    Pow2Add(k, j);
    if Shr(low, k) >= Pow2(j) {
      MulMono(Pow2(j), Shr(low, k), Pow2(k));
    }
  }

  // ---- Bytes that follow a finished stream ----

  /** Whatever bytes follow, the code stays in the interval. */
  ghost predicate EveryContinuation(code: seq<Octet>, iv: Interval) {
    forall tail: seq<Octet> {:trigger code + tail} :: Inside(Base256(code + tail), 8 * |code + tail|, iv)
  }

  /** (x + 1) / 2^n is not beyond the interval either. */
  predicate Covers(x: nat, n: nat, iv: Interval) {
    (x + 1) * Pow2(iv.shift) <= (iv.low + iv.rng) * Pow2(n)
  }

  lemma ContinuedProducts(x: int, t: int, m: int, q: int, p: int)
    ensures (x * q + t) * p == x * p * q + t * p && m * (p * q) == m * p * q && (x + 1) * p * q == x * p * q + q * p
  {}

  /** A code followed by bits t < 2^m. */
  lemma ContinuedInside(x: nat, n: nat, iv: Interval, m: nat, t: nat)
    requires Inside(x, n, iv) && Covers(x, n, iv) && t < Pow2(m)
    ensures Inside(x * Pow2(m) + t, n + m, iv)
  {
    hide Pow2;
    var p, q, high := Pow2(iv.shift), Pow2(m), iv.low + iv.rng;
    Pow2Add(n, m);
    ContinuedProducts(x, t, iv.low, q, p);
    ContinuedProducts(0, 0, iv.low, q, Pow2(n));
    ContinuedProducts(0, 0, high, q, Pow2(n));
    MulMono(iv.low * Pow2(n), x * p, q);
    MulMono((x + 1) * p, high * Pow2(n), q);
    MulMonoStrict(t, q, p);
    MulMono(0, t, p);
  }

  /** Ones in all of more places than the interval has bits go furthest. */
  lemma ContinuedByOnes(x: nat, n: nat, iv: Interval, m: nat)
    requires iv.shift <= m && Inside(x * Pow2(m) + (Pow2(m) - 1), n + m, iv)
    ensures Covers(x, n, iv)
  {
    hide Pow2;
    var p, q, high := Pow2(iv.shift), Pow2(m), iv.low + iv.rng;
    Pow2Add(n, m);
    Pow2Mono(iv.shift, m);
    ContinuedProducts(x, q - 1, high, q, p);
    ContinuedProducts(0, 0, high, q, Pow2(n));
    Distribute(q, -1, p);
    if (x + 1) * p > high * Pow2(n) {
      MulMono(high * Pow2(n) + 1, (x + 1) * p, q);
      Distribute(high * Pow2(n), 1, q);
    }
  }

  lemma {:induction false} OnesAre(tail: seq<Octet>)
    requires forall i :: 0 <= i < |tail| ==> tail[i] == 255
    ensures Base256(tail) == Pow2(8 * |tail|) - 1
    decreases |tail|
  {
    hide Pow2;
    if tail == [] {
      Pow2Constants();
    } else {
      OnesAre(tail[..|tail| - 1]);
      Times256(|tail| - 1);
    }
  }

  /** The exact condition for a code to be independent of what follows it. */
  lemma ContinuationIff(code: seq<Octet>, iv: Interval)
    requires Inside(Base256(code), 8 * |code|, iv)
    ensures EveryContinuation(code, iv) <==> Covers(Base256(code), 8 * |code|, iv)
  {
    hide Pow2, Inside, Covers, Base256;
    var x, n := Base256(code), 8 * |code|;
    if Covers(x, n, iv) {
      forall tail: seq<Octet>
        ensures Inside(Base256(code + tail), 8 * |code + tail|, iv)
      {
        Base256Concat(code, tail);
        Base256Bound(tail);
        ContinuedInside(x, n, iv, 8 * |tail|, Base256(tail));
      }
    }
    if EveryContinuation(code, iv) {
      var tail: seq<Octet> := seq(iv.shift, i => 255);
      Base256Concat(code, tail);
      OnesAre(tail);
      assert Inside(Base256(code + tail), 8 * |code + tail|, iv);
      ContinuedByOnes(x, n, iv, 8 * |tail|);
    }
  }

  // ---- The end of the stream ----

  /** low rounded up to a multiple of 2^14, whose lowest bit is then set. */
  function EndOf(low: nat): (e: nat)
  {
    var q := (low + 0x3FFF) / 0x4000 * 0x4000;
    if q / 0x4000 % 2 == 0 then q + 0x4000 else q
  }

  /** The least number from low on that is an odd multiple of 2^14. */
  lemma EndOfLeast(low: nat, x: nat)
    requires low <= x && x % 0x8000 == 0x4000
    ensures low <= EndOf(low) <= x && EndOf(low) % 0x8000 == 0x4000
  {
    var m, y := (low + 0x3FFF) / 0x4000, x / 0x8000;
    assert EndOf(low) == if m % 2 == 0 then 0x4000 * m + 0x4000 else 0x4000 * m;
    assert x == 0x8000 * y + 0x4000;
    assert 2 * y + 1 >= m;
    assert m == 2 * (m / 2) + m % 2;
    OddMultiple(m / 2);
  }

  lemma OddMultiple(h: nat)
    ensures (0x8000 * h + 0x4000) % 0x8000 == 0x4000
  {}

  /** The bits of the window that od_ec_enc_done leaves unwritten: one byte is written, or two if nine bits are due. */
  function EndWeight(cnt: int): (w: nat)
    requires -9 <= cnt <= -1
  {
    if cnt == -1 then 7 else cnt + 16
  }

  lemma WeightBound(cnt: int)
    requires -9 <= cnt <= -1
    ensures 7 <= EndWeight(cnt) <= 14
  {}

  class RangeEncoder {
    var precarry: array<nat>
    var offs: nat
    var low: nat
    var rng: nat
    var cnt: int

    ghost predicate Shape()
      reads this, precarry
    {
      && offs <= precarry.Length && -9 <= cnt <= -1
      && forall i :: 0 <= i < offs ==> precarry[i] < 0x1_0000
    }

    /** The interval of everything coded so far. */
    ghost function View(): Interval
      reads this, precarry
      requires Shape()
    {
      Interval(Joined(Base256(precarry[..offs]), cnt + 24, low), rng, 8 * offs + (cnt + 24))
    }

    ghost predicate Valid()
      reads this, precarry
    {
      Shape() && ValidInterval(View()) && low + rng <= Pow2(cnt + 25)
    }

    /** avm_od_ec_enc_init */
    constructor (size: nat)
      ensures Valid() && View() == START && fresh(precarry)
    {
      precarry := new nat[size];
      offs, low, rng, cnt := 0, 0, 0x8000, -9;
      new;
      hide Pow2, Joined, Base256, ValidInterval;
      SmallPowers();
      Nothing(precarry[..offs], cnt + 24, low);
      assert precarry[..offs] == [];
      StartIsValid();
    }

    /** The bits used so far, rounded up. */
    method Tell() returns (bits: int)
      requires Valid()
      ensures bits == View().shift - 14
    {
      bits := cnt + 10 + 8 * offs;
    }

    /** Room for n more entries; the buffer doubles when it is full. */
    method Reserve(n: nat)
      requires Shape() && n <= 2
      modifies this`precarry
      ensures Shape() && precarry[..offs] == old(precarry[..offs])
      ensures offs + n <= precarry.Length
      ensures precarry == old(precarry) || fresh(precarry)
    {
      if offs + n > precarry.Length {
        var storage := 2 * precarry.Length + 2;
        var bigger := new nat[storage];
        forall i | 0 <= i < offs {
          bigger[i] := precarry[i];
        }
        precarry := bigger;
      }
    }

    method Store(v: nat)
      requires Shape() && offs < precarry.Length && v < 0x1_0000
      modifies this`offs, precarry
      ensures Shape() && offs == old(offs) + 1
      ensures Base256(precarry[..offs]) == 256 * Base256(old(precarry[..offs])) + v
      ensures precarry[..old(offs)] == old(precarry[..offs])
    {
      ghost var before := precarry[..offs];
      precarry[offs] := v;
      offs := offs + 1;
      assert precarry[..offs] == before + [v];
      assert precarry[..offs][..offs - 1] == before;
    }

    /** Moves the bits of l above c to the buffer; bits below c stay. */
    method Emit(l: nat, c: nat) returns (l': nat)
      requires Shape() && offs < precarry.Length && l < Pow2(c + 9)
      modifies this`offs, precarry
      ensures Shape() && offs == old(offs) + 1 && l' == LowBits(l, c) < Pow2(c)
      ensures precarry[..old(offs)] == old(precarry[..offs])
      ensures Joined(Base256(precarry[..offs]), c, l') == Joined(Base256(old(precarry[..offs])), c + 8, l)
    {
      hide Pow2, Base256, Joined;
      ShrBound(l, c, 9);
      SmallPowers();
      PushStep(Base256(precarry[..offs]), l, c);
      Store(Shr(l, c));
      l' := LowBits(l, c);
    }

    /**
     The part of od_ec_enc_normalize that moves finished bytes out: c is the count
     with bypass bits added, d the shift to come, s the new count.
     */
    method Flush(l: nat, r: nat, c: int, d: nat) returns (l': nat, s: int, ghost weight: nat)
      requires Shape() && -9 <= c <= 14 && d <= 15 && (c >= 0 ==> d == 0)
      requires 0 < r && Shl(r, d) < 0x1_0000 && l + r <= Pow2(c + 25)
      modifies this`offs, this`precarry, precarry
      ensures precarry == old(precarry) || fresh(precarry)
      ensures Shape() && -9 <= s <= -1
      ensures 8 * offs + s == 8 * old(offs) + c + d && weight == s + 24 - d
      ensures Joined(Base256(precarry[..offs]), weight, l') == Joined(Base256(old(precarry[..offs])), c + 24, l)
      ensures Shl(l', d) + Shl(r, d) <= Pow2(s + 25)
    {
      hide Pow2, Base256, Joined, Shl, LowBits;
      s := c + d;
      l' := l;
      if s >= 0 {
        Reserve(2);
        var k := c + 16;
        if s >= 8 {
          l' := Emit(l', k);
          Pow2Mono(k, k + 1);
          k := k - 8;
        }
        l' := Emit(l', k);
        s := k + d - 24;
        RoomAfterEmit(l', r, k, d);
      } else {
        Widen(l' + r, c + 25, d);
        ShlSum(l', r, d);
      }
      weight := s + 24 - d;
    }

    /** od_ec_enc_normalize: lower end l and range r, after n bypass bits or a symbol (n = 0). */
    method Normalize(l: nat, r: nat, n: nat)
      requires Shape() && n <= 16 && cnt + n <= 14 && 0 < r < 0x1_0000 && (n > 0 ==> r >= 0x8000)
      requires l + r <= Pow2(cnt + n + 25)
      modifies this, precarry
      ensures Shape() && low + rng <= Pow2(cnt + 25)
      ensures precarry == old(precarry) || fresh(precarry)
      ensures View().low == Shl(Joined(Base256(old(precarry[..offs])), old(cnt) + n + 24, l), ShiftFor(r, n))
      ensures rng == Shl(r, ShiftFor(r, n))
      ensures View().shift == 8 * old(offs) + (old(cnt) + n + 24) + ShiftFor(r, n)
    {
      hide Pow2, Base256, ShiftFor, Joined, Shl;
      var d := if n > 0 then 0 else 15 - Msb(r);
      ShiftForIs(r, n, d);
      var l', s, weight := Flush(l, r, cnt + n, d);
      Lift(Base256(precarry[..offs]), weight, l', d);
      low := Shl(l', d);
      rng := Shl(r, d);
      cnt := s;
    }

    /** avm_od_ec_encode_cdf_q15 with od_ec_encode_q15. */
    method EncodeCdf(s: nat, icdf: seq<nat>, nsyms: nat)
      requires Valid() && ValidCdf(icdf, nsyms) && s < nsyms
      modifies this, precarry
      ensures Valid() && View() == SymbolStep(old(View()), icdf, s, nsyms)
      ensures precarry == old(precarry) || fresh(precarry)
    {
      hide Pow2, Base256, ShiftFor, NormShift, Joined, Shl, ProbScale, ValidInterval;
      ghost var iv, digits := View(), Base256(precarry[..offs]);
      RangeOfValid(iv);
      PartsInOrder(icdf, rng, s, nsyms);
      SymbolKeepsValid(iv, icdf, s, nsyms);
      CdfFalls(icdf, nsyms, 0, s);
      var fl := if s > 0 then icdf[s - 1] else PROB_TOP;
      var fh := icdf[s];
      var l, r := low, rng;
      if fl < PROB_TOP {
        var u := ProbScale(fl, r, s - 1, nsyms);
        var v := ProbScale(fh, r, s, nsyms);
        l := l + (r - u);
        r := u - v;
      } else {
        assert s == 0 by {
          if s > 0 {
            CdfFalls(icdf, nsyms, 0, s - 1);
          }
        }
        var v := ProbScale(fh, r, s, nsyms);
        r := r - v;
      }
      SymbolStepIs(iv, icdf, s, nsyms);
      JoinedPlus(digits, cnt + 24, low, rng - Upper(icdf, rng, s, nsyms));
      Normalize(l, r, 0);
    }

    /** od_ec_encode_literal_bypass: up to 16 bits, as long as 1 << (cnt + n + 16) is an int. */
    method EncodeLiteralBypass(val: nat, n: nat)
      requires Valid() && 1 <= n <= 16 && (n == 16 ==> cnt < -1) && val < Pow2(n)
      modifies this, precarry
      ensures Valid() && View() == BypassSteps(old(View()), Literal(val, n))
      ensures precarry == old(precarry) || fresh(precarry)
    {
      hide Pow2, Base256, Joined, Shl, ShiftFor, Literal, ValidInterval, BypassSteps, Product;
      RangeOfValid(View());
      BypassMoves(View(), Base256(precarry[..offs]), cnt + 24, low, val, n);
      BypassKeepsValid(View(), Literal(val, n));
      assert cnt + n + 24 == cnt + 24 + n;
      var l := Shl(low, n);
      l := l + Product(rng, val);
      Normalize(l, rng, n);
    }

    /** The end of the stream, od_ec_enc_done up to the carries: an odd multiple of 2^14 above low. */
    method Finish() returns (ghost e: nat, ghost weight: nat)
      requires Valid()
      modifies this`precarry, this`offs, precarry
      ensures Shape()
      ensures precarry == old(precarry) || fresh(precarry)
      ensures old(offs) <= offs && precarry[..old(offs)] == old(precarry[..offs])
      ensures low <= e < low + 0x8000 && e == EndOf(low) && weight == EndWeight(cnt)
      ensures 8 * offs + weight == old(View()).shift
      ensures Joined(Base256(precarry[..offs]), weight, 0) == Joined(old(Base256(precarry[..offs])), cnt + 24, e)
    {
      hide Pow2, Base256, Joined, ValidInterval;
      RangeOfValid(View());
      var c := cnt;
      var s := 10;
      var m := 0x3FFF;
      var left: nat := (low + m) / (m + 1) * (m + 1);
      if left / (m + 1) % 2 == 0 {
        left := left + (m + 1);
      }
      e := left;
      s := s + c;
      SmallPowers();
      Pow2Constants();
      LastBitSet(low, left);
      ghost var start, n := Base256(precarry[..offs]), offs;
      ghost var head := precarry[..offs];
      FitsNine(low, e, rng, c);
      while s > 0
        invariant -17 <= c <= -1 && s == c + 10 && (c == cnt || c == cnt - 8 || (c == -17 && cnt == -1))
          && 8 * offs + c == 8 * n + cnt
        invariant Shape()
        invariant precarry == old(precarry) || fresh(precarry)
        invariant n <= offs && precarry[..n] == head
        invariant Joined(Base256(precarry[..offs]), c + 24, left) == Joined(start, cnt + 24, e)
        invariant left < Pow2(c + 25) && left % 0x4000 == 0
        invariant c < -9 ==> left == 0
        decreases s
      {
        Reserve(1);
        ghost var was := precarry[..offs];
        Pow2Mono(c + 16, c + 17);
        TailOf(left, c + 16);
        left := Emit(left, c + 16);
        assert precarry[..n] == precarry[..offs - 1][..n] == was[..n];
        s := s - 8;
        c := c - 8;
      }
      weight := c + 24;
    }

    /** Carry propagation, from the last byte to the first; no carry leaves the first. */
    method PropagateCarries() returns (out: array<Octet>)
      requires offs <= precarry.Length && Base256(precarry[..offs]) < Pow2(8 * offs)
      ensures fresh(out) && out.Length == offs && Base256(out[..]) == Base256(precarry[..offs])
    {
      hide Pow2, Base256, Joined;
      out := new Octet[offs];
      var i, c := offs, 0;
      CarryStart(Base256(precarry[..i]), out[i..]);
      while i > 0
        invariant 0 <= i <= offs
        invariant Joined(Base256(precarry[..i]) + c, 8 * (offs - i), Base256(out[i..])) == Base256(precarry[..offs])
      {
        i := i - 1;
        ghost var tail := out[i + 1..];
        c := precarry[i] + c;
        out[i] := c % 256;
        assert out[i..] == [c % 256] + tail;
        assert precarry[..i + 1][..i] == precarry[..i];
        CarryStep(precarry[..i + 1], c - precarry[i], tail, c % 256, c / 256);
        c := c / 256;
      }
      CarryEnd(c, out[0..], precarry[..0], 8 * offs);
      assert out[0..] == out[..];
    }

    /**
     avm_od_ec_enc_done: bytes that name a number of the interval. They do so whatever
     follows them exactly when the end chosen and the bits left unwritten fit the range.
     */
    method Done() returns (out: array<Octet>)
      requires Valid()
      modifies this`precarry, this`offs, precarry
      ensures Valid() && View() == old(View())
      ensures precarry == old(precarry) || fresh(precarry)
      ensures fresh(out) && Inside(Base256(out[..]), 8 * out.Length, View())
      ensures out.Length == (View().shift - 7) / 8
      ensures EveryContinuation(out[..], View()) <==> EndOf(low) + Pow2(EndWeight(cnt)) <= low + rng
    {
      hide Pow2, Base256, Joined, ValidInterval, Inside, Covers, EveryContinuation, EndOf, EndWeight;
      ghost var iv := View();
      ghost var digits := precarry[..offs];
      var saved := offs;
      var e, weight := Finish();
      WeightBound(cnt);
      EndOfStream(iv, Base256(digits), low, cnt + 24, e, Base256(precarry[..offs]), weight, 8 * offs);
      out := PropagateCarries();
      assert precarry[..saved] == digits;
      offs := saved;
      ContinuationIff(out[..], iv);
    }
  }

  // ---- A stream that depends on what follows it ----

  const HALVES: seq<nat> := [16384, 0, 0, 0]

  /** The interval of the second of two equal symbols and six bypass bits 0. */
  const ESCAPING := Interval(2088960, 32896, 22)

  lemma HalvesParts()
    ensures ValidCdf(HALVES, 2)
    ensures Upper(HALVES, 0x8000, 1, 2) == 16448 && Lower(HALVES, 0x8000, 1, 2) == 0
  {}

  lemma SixteenThousand()
    ensures NormShift(16448) == 1 && Shl(16320, 1) == 32640 && Shl(16448, 1) == 32896
  {
    hide Pow2;
    Pow2Constants();
    MsbUnique(16448, 14);
  }

  lemma SecondHalf()
    ensures ValidInterval(START) && ValidCdf(HALVES, 2) && SymbolStep(START, HALVES, 1, 2) == Interval(32640, 32896, 16)
  {
    hide Pow2, Lower, Upper, ValidCdf, ProbScale, Shl, NormShift;
    StartIsValid();
    HalvesParts();
    SixteenThousand();
  }

  lemma EscapingInterval()
    ensures ValidInterval(START) && ValidCdf(HALVES, 2) && ValidInterval(SymbolStep(START, HALVES, 1, 2))
    ensures BypassSteps(SymbolStep(START, HALVES, 1, 2), Literal(0, 6)) == ESCAPING
  {
    hide Pow2, Value, SymbolStep, ValidCdf, BypassSteps, Literal;
    SecondHalf();
    SymbolKeepsValid(START, HALVES, 1, 2);
    Pow2Constants();
    Pow2Add(2, 4);
    LiteralInRange(0, 6);
    BypassAtOnce(Interval(32640, 32896, 16), Literal(0, 6));
  }

  /** The code 129 / 256 is in it, but 129 followed by 255 is not: other symbols would be read. */
  lemma ContinuationEscapes(code: seq<Octet>, tail: seq<Octet>)
    requires code == [129] && tail == [255]
    ensures Inside(Base256(code), 8 * |code|, ESCAPING)
    ensures !Inside(Base256(code + tail), 8 * |code + tail|, ESCAPING)
    ensures !EveryContinuation(code, ESCAPING)
  {
    hide Pow2;
    Pow2Constants();
    Pow2Add(16, 4);
    Pow2Add(20, 2);
    assert code + tail == [129, 255] && [129, 255][..1] == [129];
    assert Base256([129]) == 129 && Base256([129, 255]) == 256 * 129 + 255;
  }

  /** So are the bytes that the encoder writes for it. */
  method EncodeEscaping() returns (out: array<Octet>)
    ensures fresh(out) && Inside(Base256(out[..]), 8 * out.Length, ESCAPING) && !EveryContinuation(out[..], ESCAPING)
  {
    hide Pow2, Base256, Inside, EveryContinuation, SymbolStep, BypassSteps, ValidCdf, ValidInterval, Joined, Literal;
    EscapingInterval();
    var enc := new RangeEncoder(16);
    enc.EncodeCdf(1, HALVES, 2);
    Pow2Constants();
    Pow2Add(2, 4);
    enc.EncodeLiteralBypass(0, 6);
    Nothing(enc.precarry[..0], 22, 0);
    JoinedPlus(Base256(enc.precarry[..0]), 22, 0, enc.low);
    out := enc.Done();
  }

  lemma CarryStart(b: nat, tail: seq<nat>)
    requires tail == []
    ensures Joined(b, 8 * |tail|, Base256(tail)) == b
  {}

  lemma CarryStep(digits: seq<nat>, c: nat, tail: seq<nat>, d: nat, c': nat)
    requires digits != [] && digits[|digits| - 1] + c == 256 * c' + d
    ensures Joined(Base256(digits) + c, 8 * |tail|, Base256(tail))
         == Joined(Base256(digits[..|digits| - 1]) + c', 8 * (|tail| + 1), Base256([d] + tail))
  {
    hide Pow2, Joined, Base256;
    Base256Last(digits);
    Base256Joined([d], tail);
    OneDigit(d);
    JoinedTwice(Base256(digits[..|digits| - 1]) + c', d, 8 * |tail|, Base256(tail));
  }

  lemma Base256Last(s: seq<nat>)
    requires s != []
    ensures Base256(s) == 256 * Base256(s[..|s| - 1]) + s[|s| - 1]
  {}

  lemma Base256Joined(a: seq<nat>, b: seq<nat>)
    ensures Base256(a + b) == Joined(Base256(a), 8 * |b|, Base256(b))
  {
    Base256Concat(a, b);
  }

  lemma JoinedTwice(y: nat, d: nat, k: nat, t: nat)
    ensures Joined(256 * y + d, k, t) == Joined(y, k + 8, Joined(d, k, t))
  {
    hide Pow2;
    Pow2Constants();
    Pow2Add(k, 8);
    Distribute(256 * y, d, Pow2(k));
    Factor(y, 256, Pow2(k));
  }

  lemma OneDigit(d: nat)
    ensures Base256([d]) == d
  {}

  lemma CarryEnd(c: nat, out: seq<nat>, none: seq<nat>, k: nat)
    requires none == [] && Joined(Base256(none) + c, k, Base256(out)) < Pow2(k)
    ensures Joined(Base256(none) + c, k, Base256(out)) == Base256(out)
  {}

  /** The finished bytes stand for e, which is in the interval and below one. */
  lemma EndOfStream(iv: Interval, digits: nat, low: nat, k: nat, e: nat, out: nat, weight: nat, n: nat)
    requires ValidInterval(iv) && iv.low == Joined(digits, k, low) && low <= e < low + 0x8000
    requires n + weight == iv.shift && Joined(out, weight, 0) == Joined(digits, k, e)
    ensures out < Pow2(n) && Inside(out, n, iv)
    ensures Covers(out, n, iv) <==> e + Pow2(weight) <= low + iv.rng
  {
    hide Pow2, Joined;
    var x := Joined(out, weight, 0);
    JoinedPlus(digits, k, low, e - low);
    assert iv.low <= x < iv.low + iv.rng;
    JoinedIs(out, weight);
    Pow2Add(n, weight);
    Factor(out, Pow2(n), Pow2(weight));
    Factor(Pow2(n), Pow2(weight), 1);
    MulCancel(out, Pow2(n), Pow2(weight));
    assert out * Pow2(iv.shift) == x * Pow2(n);
    MulCancel(iv.low, x, Pow2(n));
    MulCancel(x, iv.low + iv.rng, Pow2(n));
    Distribute(out, 1, Pow2(iv.shift));
    Distribute(x, Pow2(weight), Pow2(n));
    MulCancel(x + Pow2(weight), iv.low + iv.rng, Pow2(n));
  }

  lemma JoinedIs(b: nat, k: nat)
    ensures Joined(b, k, 0) == b * Pow2(k)
  {}

  /** e is low rounded up to a multiple of 2^14 whose lowest bit is then set. */
  lemma LastBitSet(low: nat, e: nat)
    requires e == EndOf(low)
    ensures low <= e < low + 0x8000 && e % 0x4000 == 0
  {}

  /** The part of a multiple of 2^14 below 2^k is one too; for k up to 14 nothing is left. */
  lemma TailOf(e: nat, k: nat)
    requires e % 0x4000 == 0
    ensures e % Pow2(k) % 0x4000 == 0 && (k <= 14 ==> e % Pow2(k) == 0)
  {
    hide Pow2;
    Pow2Constants();
    var q := e / 0x4000;
    if k <= 14 {
      Pow2Add(k, 14 - k);
      Factor(q, Pow2(14 - k), Pow2(k));
      DivUnique(e, Pow2(k), q * Pow2(14 - k), 0);
    } else {
      Pow2Add(14, k - 14);
      TailMultiple(e, q, Pow2(k - 14));
    }
  }

  lemma TailMultiple(e: nat, q: nat, p: nat)
    requires e == 0x4000 * q && p > 0
    ensures e % (0x4000 * p) % 0x4000 == 0
  {
    var a, b := q / p, q % p;
    assert q == p * a + b;
    Factor(0x4000, p, a);
    DivUnique(e, 0x4000 * p, a, 0x4000 * b);
  }

  lemma FitsNine(low: nat, e: nat, rng: nat, c: int)
    requires -9 <= c <= -1 && low <= e < low + 0x8000 && 0x8000 <= rng && low + rng <= Pow2(c + 25)
    ensures e < Pow2(c + 25)
  {}

  lemma SymbolStepIs(iv: Interval, icdf: seq<nat>, s: nat, nsyms: nat)
    requires ValidInterval(iv) && ValidCdf(icdf, nsyms) && s < nsyms
    ensures Lower(icdf, iv.rng, s, nsyms) < Upper(icdf, iv.rng, s, nsyms) <= iv.rng
    ensures var u, v := Upper(icdf, iv.rng, s, nsyms), Lower(icdf, iv.rng, s, nsyms);
      var d := ShiftFor(u - v, 0);
      SymbolStep(iv, icdf, s, nsyms) == Interval(Shl(iv.low + (iv.rng - u), d), Shl(u - v, d), iv.shift + d)
  {
    hide Pow2, NormShift, Shl;
    PartsInOrder(icdf, iv.rng, s, nsyms);
  }

  lemma JoinedPlus(b: nat, k: nat, l: nat, x: nat)
    ensures Joined(b, k, l + x) == Joined(b, k, l) + x
  {}

  lemma ShlIs(x: nat, d: nat)
    ensures Shl(x, d) == x * Pow2(d) && (d == 0 ==> Shl(x, d) == x)
  {}

  lemma NoShift(r: nat, n: nat)
    requires 0x8000 <= r < 0x1_0000 && n > 0
    ensures ShiftFor(r, n) == 0
  {}

  function Product(x: nat, y: nat): nat {
    x * y
  }

  /** Adding the chunk's share of the range to the shifted low end. */
  lemma BypassMoves(iv: Interval, digits: nat, k: nat, low: nat, val: nat, n: nat)
    requires ValidRange(iv.rng) && iv.low == Joined(digits, k, low) && 1 <= n && val < Pow2(n)
    requires low + iv.rng <= Pow2(k + 1)
    ensures var l := Shl(low, n) + Product(iv.rng, val);
      && l + iv.rng <= Pow2(k + n + 1) && ShiftFor(iv.rng, n) == 0
      && BypassSteps(iv, Literal(val, n))
         == Interval(Shl(Joined(digits, k + n, l), ShiftFor(iv.rng, n)), Shl(iv.rng, ShiftFor(iv.rng, n)), iv.shift + n)
  {
    hide Pow2, Joined, Shl, ShiftFor, Literal, BypassSteps;
    LiteralInRange(val, n);
    BypassAtOnce(iv, Literal(val, n));
    BypassRoom(low, iv.rng, val, n, k + 1);
    Lift(digits, k, low, n);
    JoinedPlus(digits, k + n, Shl(low, n), iv.rng * val);
    ShlIs(iv.low, n);
    NoShift(iv.rng, n);
    ShlIs(Joined(digits, k + n, Shl(low, n) + iv.rng * val), 0);
    ShlIs(iv.rng, 0);
  }

  lemma BypassRoom(low: nat, rng: nat, val: nat, n: nat, k: nat)
    requires low + rng <= Pow2(k) && val < Pow2(n)
    ensures 0 <= rng * val && Shl(low, n) + rng * val + rng <= Pow2(k + n)
  {
    hide Pow2;
    Widen(low + rng, k, n);
    ShlSum(low, rng, n);
    MulMono(val + 1, Pow2(n), rng);
    assert (val + 1) * rng == rng * val + rng;
    MulMono(0, val, rng);
  }

  /** Bypass bits leave the range as it is, a symbol's part is brought back to full size. */
  function ShiftFor(r: nat, n: nat): (d: nat)
    requires 0 < r < 0x1_0000 && (n > 0 ==> r >= 0x8000)
    ensures d <= 15 && 0x8000 <= Shl(r, d) < 0x1_0000
  {
    SmallPowers();
    if n > 0 then 0 else NormShift(r)
  }

  lemma ShiftForIs(r: nat, n: nat, d: int)
    requires 0 < r < 0x1_0000 && (n > 0 ==> r >= 0x8000)
    requires d == if n > 0 then 0 else 15 - Msb(r)
    ensures ShiftFor(r, n) == d
  {}

  lemma StartIsValid()
    ensures ValidInterval(START)
  {
    Pow2Constants();
  }

  lemma Nothing(digits: seq<nat>, k: nat, l: nat)
    requires digits == [] && l == 0
    ensures Joined(Base256(digits), k, l) == 0
  {}

  lemma Widen(x: nat, k: nat, d: nat)
    requires x <= Pow2(k)
    ensures Shl(x, d) <= Pow2(k + d)
  {
    hide Pow2;
    Pow2Add(k, d);
    MulMono(x, Pow2(k), Pow2(d));
  }

  lemma ShlSum(a: nat, b: nat, d: nat)
    ensures Shl(a + b, d) == Shl(a, d) + Shl(b, d)
  {}

  lemma Lift(b: nat, k: nat, l: nat, d: nat)
    ensures Joined(b, k + d, Shl(l, d)) == Shl(Joined(b, k, l), d)
  {
    hide Pow2;
    Pow2Add(k, d);
    Factor(b, Pow2(k), Pow2(d));
    Distribute(b * Pow2(k), l, Pow2(d));
  }

  /** Below a whole byte of emitted bits, what stays and the range fit one bit more. */
  lemma RoomAfterEmit(l: nat, r: nat, c: nat, d: nat)
    requires l < Pow2(c) && Shl(r, d) <= 0x1_0000 && c + d >= 16
    ensures Shl(l, d) + Shl(r, d) <= Pow2(c + d + 1)
  {
    hide Pow2;
    SmallPowers();
    Widen(l, c, d);
    Pow2Mono(16, c + d);
    Twice(c + d);
  }

  lemma SmallPowers()
    ensures Pow2(9) == 512 && Pow2(16) == 0x1_0000 && Pow2(0) == 1
  {}
}
