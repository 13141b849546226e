/**
 The quasi-uniform code of [0, n) (ns(n) of the AV1 specification, section
 4.10.7) and its variant with a reference value.
 */
module Quniform {
  import opened Powers
  import opened BitString
  import opened Parsing

  /** Bits of the longest word: get_msb(n) + 1. */
  function Width(n: nat): (l: nat)
    requires n > 1
    ensures l >= 2 && Pow2(l - 1) <= n < Pow2(l)
  {
    Msb(n) + 1
  }

  /** Values below the split point use one bit less. */
  function SplitPoint(n: nat): (m: nat)
    requires n > 1
    ensures 0 < m <= n && m + n == Pow2(Width(n))
    ensures m <= Pow2(Width(n) - 1)
  {
    Pow2(Width(n)) - n
  }

  function QuniformBits(n: nat, v: nat): Bits {
    if n <= 1 then []
    else
      var l, m := Width(n), SplitPoint(n);
      if v < m then Literal(v, l - 1)
      else Literal(m + (v - m) / 2, l - 1) + [(v - m) % 2 == 1]
  }

  function ParseQuniform(s: Bits, pos: nat, n: nat): (p: Parsed)
    ensures p.faults == []
  {
    if n <= 1 then Clean(0, 0)
    else
      var l, m := Width(n), SplitPoint(n);
      var v := Value(Window(s, pos, l - 1));
      if v < m then Clean(v, l - 1)
      else Clean(2 * v - m + BitValue(Peek(s, pos + l - 1)), l)
  }

  lemma EmptyWord(s: Bits, pos: nat, n: nat)
    requires n <= 1
    ensures QuniformBits(n, 0) == [] && ParseQuniform(s, pos, n) == Clean(0, 0)
  {}

  lemma ShortWord(n: nat, x: nat)
    requires n > 1 && x < SplitPoint(n)
    ensures QuniformBits(n, x) == Literal(x, Width(n) - 1)
  {}

  /** A long word is a number x past the split point and one more bit. */
  lemma LongWord(n: nat, x: nat, b: bool)
    requires n > 1 && SplitPoint(n) <= x < Pow2(Width(n) - 1)
    ensures var v := 2 * x - SplitPoint(n) + BitValue(b);
      SplitPoint(n) <= v < n && QuniformBits(n, v) == Literal(x, Width(n) - 1) + [b]
  {
    var m := SplitPoint(n);
    var v := 2 * x - m + BitValue(b);
    assert v - m == 2 * (x - m) + BitValue(b);
    assert (v - m) / 2 == x - m;
  }

  lemma LongWordOf(n: nat, v: nat) returns (x: nat, b: bool)
    requires n > 1 && SplitPoint(n) <= v < n
    ensures SplitPoint(n) <= x < Pow2(Width(n) - 1) && v == 2 * x - SplitPoint(n) + BitValue(b)
  {
    x, b := SplitPoint(n) + (v - SplitPoint(n)) / 2, (v - SplitPoint(n)) % 2 == 1;
  }

  /** Reading undoes writing, wherever the word sits. */
  lemma QuniformRoundTrip(s: Bits, pos: nat, n: nat, v: nat)
    requires v < n
    requires Shows(s, pos, QuniformBits(n, v))
    ensures ParseQuniform(s, pos, n) == Clean(v, |QuniformBits(n, v)|)
  {
    hide QuniformBits, Literal, Value, Pow2, Msb;
    if n <= 1 {
      EmptyWord(s, pos, n);
    } else if v < SplitPoint(n) {
      ShortWord(n, v);
      LiteralInRange(v, Width(n) - 1);
    } else {
      var x, b := LongWordOf(n, v);
      LongWord(n, x, b);
      LiteralInRange(x, Width(n) - 1);
      ShowsSplit(s, pos, Literal(x, Width(n) - 1), [b]);
      ShowsBit(s, pos + (Width(n) - 1), b);
    }
  }

  /** Every bit string decodes to some v < n, and v is written with exactly the bits used. */
  lemma QuniformComplete(s: Bits, pos: nat, n: nat)
    requires n > 0
    ensures var p := ParseQuniform(s, pos, n);
      0 <= p.value < n && QuniformBits(n, p.value) == Window(s, pos, p.used)
  {
    hide QuniformBits, Literal, Value, Pow2, Msb;
    if n > 1 {
      var w := Window(s, pos, Width(n) - 1);
      ValueBound(w);
      LiteralOfValue(w);
      if Value(w) < SplitPoint(n) {
        ShortWord(n, Value(w));
      } else {
        LongWord(n, Value(w), Peek(s, pos + Width(n) - 1));
        WindowSnoc(s, pos, Width(n) - 1);
      }
    } else {
      EmptyWord(s, pos, n);
    }
  }

  lemma QuniformLengthMonotone(n: nat, v: nat, w: nat)
    requires v <= w < n
    ensures |QuniformBits(n, v)| <= |QuniformBits(n, w)| <= |QuniformBits(n, v)| + 1
  {}

  lemma QuniformClamp(s: Bits, pos: nat, n: nat)
    ensures ParseQuniform(s, Clamp(s, pos), n) == ParseQuniform(s, pos, n)
  {
    hide Msb, Pow2, Value;
    if n > 1 {
      WindowClamp(s, pos, Width(n) - 1);
      if pos > |s| {
        assert !Peek(s, pos + Width(n) - 1) && !Peek(s, |s| + Width(n) - 1);
      }
    }
  }

  // ---- With a reference ----

  function RefQuniformBits(n: nat, r: nat, v: nat): Bits
    requires n > 0
  {
    if v == r then [false]
    else [true] + QuniformBits(n - 1, if v > r then v - 1 else v)
  }

  function ParseRefQuniform(s: Bits, pos: nat, n: nat, r: nat): (p: Parsed)
    requires n > 0
    ensures p.faults == []
  {
    if !Peek(s, pos) then Clean(r, 1)
    else
      var p := ParseQuniform(s, pos + 1, n - 1);
      Clean(p.value + (if p.value >= r then 1 else 0), 1 + p.used)
  }

  lemma RefQuniformRoundTrip(s: Bits, pos: nat, n: nat, r: nat, v: nat)
    requires v < n && r < n
    requires Shows(s, pos, RefQuniformBits(n, r, v))
    ensures ParseRefQuniform(s, pos, n, r) == Clean(v, |RefQuniformBits(n, r, v)|)
  {
    hide Literal, Value, Pow2, Msb, QuniformBits, ParseQuniform, Shows, Peek;
    ShowsBit(s, pos, v != r);
    if v != r {
      var v' := if v > r then v - 1 else v;
      ShowsFlag(s, pos, true, QuniformBits(n - 1, v'));
      QuniformRoundTrip(s, pos + 1, n - 1, v');
    }
  }

  /**
   The reader stays below n exactly when the alphabet has a second value or the
   flag says "equal": with n = 1 a set flag yields 1. Wherever it stays below n
   the word is the one the writer emits.
   */
  lemma RefQuniformInRange(s: Bits, pos: nat, n: nat, r: nat)
    requires r < n
    ensures var p := ParseRefQuniform(s, pos, n, r);
      && (p.value < n <==> n >= 2 || !Peek(s, pos))
      && (p.value < n ==> p.value >= 0 && RefQuniformBits(n, r, p.value) == Window(s, pos, p.used))
  {
    hide Literal, Value, Pow2, Msb, QuniformBits, ParseQuniform;
    assert Window(s, pos, 1) == [Peek(s, pos)];
    if Peek(s, pos) {
      if n >= 2 {
        QuniformComplete(s, pos + 1, n - 1);
        WindowCons(s, pos, ParseQuniform(s, pos + 1, n - 1).used);
      } else {
        EmptyWord(s, pos + 1, 0);
      }
    }
  }

  /** The reader of a one-value alphabet can return a value outside it. */
  lemma RefQuniformEscapes()
    ensures ParseRefQuniform([true], 0, 1, 0).value == 1
  {}

  /** One bit for the reference; the others are numbered without it. */
  lemma RefQuniformWords(n: nat, r: nat, v: nat)
    requires n > 0
    ensures RefQuniformBits(n, r, r) == [false]
    ensures v < r ==> RefQuniformBits(n, r, v) == [true] + QuniformBits(n - 1, v)
    ensures v >= r ==> RefQuniformBits(n, r, v + 1) == [true] + QuniformBits(n - 1, v)
  {}
}
