/**
 Kraft equality: the quasi-uniform and the finite subexponential code of [0, n)
 waste nothing, the sum of 2^-length over their words is exactly one.
 */
module Kraft {
  import opened Powers
  import opened BitString
  import opened Quniform
  import opened Subexp

  /** 2^-len */
  function Weight(len: nat): real {
    if len == 0 then 1.0 else Weight(len - 1) / 2.0
  }

  function Total(lens: seq<nat>): real {
    if lens == [] then 0.0 else Total(lens[..|lens| - 1]) + Weight(lens[|lens| - 1])
  }

  function QuniformLengths(n: nat): seq<nat> {
    seq(n, v requires 0 <= v => |QuniformBits(n, v)|)
  }

  /** Lengths of the words of the values mk, mk + 1, ..., n - 1 from level i on. */
  function LevelLengths(n: nat, k: nat, i: nat, mk: nat): seq<nat>
    requires mk < n
  {
    seq(n - mk, j requires 0 <= j < n - mk => |SubexpFrom(n, k, i, mk, mk + j)|)
  }

  function Repeat(len: nat, count: nat): seq<nat> {
    seq(count, _ => len)
  }

  /** Every word one bit longer. */
  function Longer(lens: seq<nat>): seq<nat> {
    seq(|lens|, j requires 0 <= j < |lens| => 1 + lens[j])
  }

  lemma {:induction false} WeightPow2(len: nat)
    ensures Pow2(len) as real * Weight(len) == 1.0
  {
    if len != 0 {
      WeightPow2(len - 1);
    }
  }

  lemma {:induction false} TotalConcat(a: seq<nat>, b: seq<nat>)
    ensures Total(a + b) == Total(a) + Total(b)
    decreases |b|
  {
    if b == [] {
      assert a + b == a;
    } else {
      assert (a + b)[..|a + b| - 1] == a + b[..|b| - 1];
      TotalConcat(a, b[..|b| - 1]);
    }
  }

  lemma {:induction false} TotalRepeat(len: nat, count: nat)
    ensures Total(Repeat(len, count)) == count as real * Weight(len)
    decreases count
  {
    if count != 0 {
      assert Repeat(len, count)[..count - 1] == Repeat(len, count - 1);
      TotalRepeat(len, count - 1);
      RealSnoc(count, Weight(len));
    }
  }

  lemma RealSnoc(count: nat, w: real)
    requires count > 0
    ensures (count - 1) as real * w + w == count as real * w
  {}

  lemma {:induction false} TotalLonger(lens: seq<nat>)
    ensures Total(Longer(lens)) == Total(lens) / 2.0
    decreases |lens|
  {
    if lens != [] {
      assert Longer(lens)[..|lens| - 1] == Longer(lens[..|lens| - 1]);
      TotalLonger(lens[..|lens| - 1]);
    }
  }

  /** m words of one bit less than the width, the others of the full width. */
  lemma QuniformShape(n: nat)
    requires n > 1
    ensures QuniformLengths(n) == Repeat(Width(n) - 1, SplitPoint(n)) + Repeat(Width(n), n - SplitPoint(n))
  {}

  lemma QuniformKraft(n: nat)
    requires n > 0
    ensures Total(QuniformLengths(n)) == 1.0
  {
    hide QuniformBits, Literal, Pow2, Msb, QuniformLengths, Total, Weight, Repeat;
    if n == 1 {
      OneWord();
      TotalRepeat(0, 1);
    } else {
      var m, l := SplitPoint(n), Width(n);
      QuniformShape(n);
      TotalConcat(Repeat(l - 1, m), Repeat(l, n - m));
      TotalRepeat(l - 1, m);
      TotalRepeat(l, n - m);
      HalfWeight(l);
      WeightPow2(l);
      Doubling(m, n, Weight(l));
    }
  }

  lemma HalfWeight(len: nat)
    requires len > 0
    ensures Weight(len - 1) == 2.0 * Weight(len)
  {}

  lemma OneWord()
    ensures QuniformLengths(1) == Repeat(0, 1) && Weight(0) == 1.0
  {}

  lemma Doubling(m: nat, n: nat, w: real)
    requires m <= n
    ensures m as real * (2.0 * w) + (n - m) as real * w == (m + n) as real * w
  {}

  /** a words of one flag and b bits, the others one flag longer than on the next level. */
  lemma LevelShape(n: nat, k: nat, i: nat, mk: nat)
    requires mk < n && !LastLevel(n, k, i, mk)
    ensures var b := LevelBits(k, i);
      LevelLengths(n, k, i, mk)
        == Repeat(1 + b, Pow2(b)) + Longer(LevelLengths(n, k, i + 1, mk + Pow2(b)))
  {
    hide QuniformBits, Literal, Pow2;
    var b := LevelBits(k, i);
    var a := Pow2(b);
    var rest := LevelLengths(n, k, i + 1, mk + a);
    var x, y := LevelLengths(n, k, i, mk), Repeat(1 + b, a) + Longer(rest);
    forall j {:trigger x[j]} | 0 <= j < n - mk
      ensures x[j] == y[j]
    {
      assert x[j] == |SubexpFrom(n, k, i, mk, mk + j)|;
      if j >= a {
        assert y[j] == 1 + rest[j - a];
        assert rest[j - a] == |SubexpFrom(n, k, i + 1, mk + a, mk + a + (j - a))|;
      }
    }
  }

  lemma LastShape(n: nat, k: nat, i: nat, mk: nat)
    requires mk < n && LastLevel(n, k, i, mk)
    ensures LevelLengths(n, k, i, mk) == QuniformLengths(n - mk)
  {
    hide QuniformBits, Literal, Pow2;
    var x, y := LevelLengths(n, k, i, mk), QuniformLengths(n - mk);
    forall j {:trigger x[j]} | 0 <= j < n - mk
      ensures x[j] == y[j]
    {
      assert x[j] == |SubexpFrom(n, k, i, mk, mk + j)|;
      assert y[j] == |QuniformBits(n - mk, j)|;
      assert mk + j - mk == j;
    }
  }

  lemma {:induction false} LevelKraft(n: nat, k: nat, i: nat, mk: nat)
    requires mk < n
    ensures Total(LevelLengths(n, k, i, mk)) == 1.0
    decreases n - mk
  {
    hide QuniformBits, Literal, Pow2, Total;
    var b := LevelBits(k, i);
    if LastLevel(n, k, i, mk) {
      LastShape(n, k, i, mk);
      QuniformKraft(n - mk);
    } else {
      var a := Pow2(b);
      var rest := LevelLengths(n, k, i + 1, mk + a);
      LevelShape(n, k, i, mk);
      TotalConcat(Repeat(1 + b, a), Longer(rest));
      TotalRepeat(1 + b, a);
      WeightPow2(b);
      HalfProduct(a, Weight(b));
      LevelKraft(n, k, i + 1, mk + a);
      TotalLonger(rest);
    }
  }

  lemma HalfProduct(a: nat, w: real)
    ensures a as real * (w / 2.0) == (a as real * w) / 2.0
  {}

  function SubexpLengths(n: nat, k: nat): seq<nat> {
    seq(n, v requires 0 <= v < n => |SubexpBits(n, k, v)|)
  }

  lemma SubexpKraft(n: nat, k: nat)
    requires n > 0
    ensures Total(SubexpLengths(n, k)) == 1.0
  {
    assert SubexpLengths(n, k) == LevelLengths(n, k, 0, 0);
    LevelKraft(n, k, 0, 0);
  }
}
