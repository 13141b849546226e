/**
 The Hadamard coefficients (avm_dsp/avg.c) as sums over memory: which entry has
 which sign in each coefficient of an 8x8, a 16x16 and a 32x32 block.
 */
module HadamardSums {
  import opened Powers
  import opened Hadamard

  /** The Walsh function f is negative at i: they have an odd number of bits in common. */
  predicate Flips(f: nat, i: nat) {
    if f == 0 || i == 0 then false else (f % 2 == 1 && i % 2 == 1) != Flips(f / 2, i / 2)
  }

  function Address(off: int, stride: int, r: int, c: int): int {
    off + r * stride + c
  }

  /** n entries a stride apart are in memory. */
  predicate ColumnInside(s: seq<int>, at: int, stride: int, n: nat) {
    forall r {:trigger Address(at, stride, r, 0)} :: 0 <= r < n ==> 0 <= Address(at, stride, r, 0) < |s|
  }

  /** Their sum, with the signs of a Walsh function. */
  function ColumnAt(s: seq<int>, at: int, stride: int, f: nat, n: nat): int
    requires ColumnInside(s, at, stride, n)
  {
    if n == 0 then 0
    else
      var x := s[Address(at, stride, n - 1, 0)];
      ColumnAt(s, at, stride, f, n - 1) + if Flips(f, n - 1) then -x else x
  }

  /** All columns of a block are in memory. */
  predicate InMemory(s: seq<int>, off: int, stride: int, rows: nat, columns: nat) {
    forall r, c {:trigger Address(off, stride, r, c)} :: 0 <= r < rows && 0 <= c < columns ==>
      0 <= Address(off, stride, r, c) < |s|
  }

  lemma ColumnInMemory(s: seq<int>, off: int, stride: int, rows: nat, columns: nat, c: nat)
    requires InMemory(s, off, stride, rows, columns) && c < columns
    ensures ColumnInside(s, off + c, stride, rows)
  {
    var at := off + c;
    forall r | 0 <= r < rows
      ensures 0 <= Address(at, stride, r, 0) < |s|
    {
      assert 0 <= Address(off, stride, r, c) < |s|;
    }
  }

  /** The sum of a block of memory, each entry with the signs of one Walsh function at its row and one at its column. */
  function BlockSum(s: seq<int>, off: int, stride: int, f: nat, g: nat, rows: nat, columns: nat): int
    requires InMemory(s, off, stride, rows, columns)
  {
    if columns == 0 then 0
    else
      FewerColumns(s, off, stride, rows, columns);
      ColumnInMemory(s, off, stride, rows, columns, columns - 1);
      var x := ColumnAt(s, off + (columns - 1), stride, f, rows);
      BlockSum(s, off, stride, f, g, rows, columns - 1) + if Flips(g, columns - 1) then -x else x
  }

  lemma FewerColumns(s: seq<int>, off: int, stride: int, rows: nat, columns: nat)
    requires InMemory(s, off, stride, rows, columns) && columns > 0
    ensures InMemory(s, off, stride, rows, columns - 1)
  {}

  /** The value of a bit. */
  function High(b: nat, p: nat): nat {
    if b == 1 then p else 0
  }

  /** With the sign of a bit. */
  function Turned(b: nat, x: int): int {
    if b == 1 then -x else x
  }

  /** Higher bits only count where both have them. */
  lemma {:induction false} FlipsHigh(f: nat, b: nat, i: nat, j: nat, p: nat)
    requires f < Pow2(p) && i < Pow2(p) && b < 2 && j < 2
    ensures Flips(f + High(b, Pow2(p)), i + High(j, Pow2(p))) <==> Flips(f, i) != (b == 1 && j == 1)
    decreases p
  {
    hide Flips;
    FlipsStep(f, i);
    if p == 0 {
      FlipsStep(High(b, 1), High(j, 1));
      NoFlip();
    } else {
      hide Pow2;
      var h := Pow2(p - 1);
      Twice(p - 1);
      FlipsHigh(f / 2, b, i / 2, j, p - 1);
      FlipsPair(f, i, High(b, h), High(j, h));
    }
  }

  lemma NoFlip()
    ensures !Flips(0, 0)
  {}

  lemma FlipsPair(f: nat, i: nat, x: nat, y: nat)
    ensures Flips(f + 2 * x, i + 2 * y) <==> ((f % 2 == 1 && i % 2 == 1) != Flips(f / 2 + x, i / 2 + y))
  {
    hide Flips;
    EvenPart(f, x);
    EvenPart(i, y);
    FlipsStep(f + 2 * x, i + 2 * y);
  }

  lemma EvenPart(x: nat, y: nat)
    ensures (x + 2 * y) / 2 == x / 2 + y && (x + 2 * y) % 2 == x % 2
  {}

  lemma FlipsStep(f: nat, i: nat)
    ensures Flips(f, i) <==> ((f % 2 == 1 && i % 2 == 1) != Flips(f / 2, i / 2))
  {}

  /** A column of twice 2^p entries is its upper half and, with the sign of the highest bit, its lower half. */
  lemma {:induction false} ColumnHalves(s: seq<int>, at: int, stride: int, f: nat, b: nat, p: nat, j: nat)
    requires f < Pow2(p) && b < 2 && j <= Pow2(p)
    requires ColumnInside(s, at, stride, Pow2(p) + j)
    ensures ColumnInside(s, at, stride, Pow2(p)) && ColumnInside(s, at + Pow2(p) * stride, stride, j)
    ensures ColumnAt(s, at, stride, f + High(b, Pow2(p)), Pow2(p) + j)
      == ColumnAt(s, at, stride, f, Pow2(p)) + Turned(b, ColumnAt(s, at + Pow2(p) * stride, stride, f, j))
    decreases j
  {
    hide Flips, Pow2, High, Address;
    var n := Pow2(p);
    LowerHalf(s, at, stride, n, j);
    if j == 0 {
      ColumnSame(s, at, stride, f, b, p, n);
    } else {
      ColumnHalves(s, at, stride, f, b, p, j - 1);
      FlipsHigh(f, b, j - 1, 1, p);
      HighBit(n);
      FurtherDown(at, stride, n, j - 1);
    }
  }

  lemma HighBit(n: nat)
    ensures High(1, n) == n && High(0, n) == 0
  {}

  lemma FurtherDown(at: int, stride: int, n: int, r: int)
    ensures Address(at + n * stride, stride, r, 0) == Address(at, stride, n + r, 0)
  {
    Strides(n, r, stride);
  }

  lemma Strides(n: int, r: int, stride: int)
    ensures (n + r) * stride == n * stride + r * stride
  {}

  lemma LowerHalf(s: seq<int>, at: int, stride: int, n: nat, j: nat)
    requires ColumnInside(s, at, stride, n + j)
    ensures ColumnInside(s, at + n * stride, stride, j) && ColumnInside(s, at, stride, n)
  {
    hide Address;
    var down := at + n * stride;
    forall r | 0 <= r < j
      ensures 0 <= Address(down, stride, r, 0) < |s|
    {
      FurtherDown(at, stride, n, r);
    }
  }

  /** Below 2^p the bit of 2^p does not matter. */
  lemma {:induction false} ColumnSame(s: seq<int>, at: int, stride: int, f: nat, b: nat, p: nat, j: nat)
    requires f < Pow2(p) && b < 2 && j <= Pow2(p)
    requires ColumnInside(s, at, stride, j)
    ensures ColumnAt(s, at, stride, f + High(b, Pow2(p)), j) == ColumnAt(s, at, stride, f, j)
    decreases j
  {
    hide Flips;
    if j > 0 {
      ColumnSame(s, at, stride, f, b, p, j - 1);
      FlipsHigh(f, b, j - 1, 0, p);
    }
  }

  /** A part of a block. */
  lemma PartInMemory(s: seq<int>, off: int, stride: int, rows: nat, columns: nat, dr: nat, dc: nat, r: nat, c: nat)
    requires InMemory(s, off, stride, rows, columns) && dr + r <= rows && dc + c <= columns
    ensures InMemory(s, off + dr * stride + dc, stride, r, c)
  {
    var at := off + dr * stride + dc;
    forall i, j | 0 <= i < r && 0 <= j < c
      ensures 0 <= Address(at, stride, i, j) < |s|
    {
      Strides(dr, i, stride);
      assert 0 <= Address(off, stride, dr + i, dc + j) < |s|;
    }
  }

  /** Upper and lower half of the first columns of a block. */
  lemma {:induction false} RowHalves(s: seq<int>, off: int, stride: int, f: nat, bf: nat, g: nat, bg: nat, p: nat,
                                     j: nat)
    requires f < Pow2(p) && g < Pow2(p) && bf < 2 && bg < 2 && j <= Pow2(p)
    requires InMemory(s, off, stride, 2 * Pow2(p), j)
    ensures InMemory(s, off, stride, Pow2(p), j) && InMemory(s, off + Pow2(p) * stride, stride, Pow2(p), j)
    ensures BlockSum(s, off, stride, f + High(bf, Pow2(p)), g + High(bg, Pow2(p)), 2 * Pow2(p), j)
      == BlockSum(s, off, stride, f, g, Pow2(p), j)
         + Turned(bf, BlockSum(s, off + Pow2(p) * stride, stride, f, g, Pow2(p), j))
    decreases j
  {
    hide Flips, ColumnAt;
    var n := Pow2(p);
    PartInMemory(s, off, stride, 2 * n, j, 0, 0, n, j);
    PartInMemory(s, off, stride, 2 * n, j, n, 0, n, j);
    assert off + 0 * stride + 0 == off;
    if j > 0 {
      FewerColumns(s, off, stride, 2 * n, j);
      RowHalves(s, off, stride, f, bf, g, bg, p, j - 1);
      ColumnInMemory(s, off, stride, 2 * n, j, j - 1);
      ColumnHalves(s, off + (j - 1), stride, f, bf, p, n);
      assert off + (j - 1) + n * stride == off + n * stride + (j - 1);
      FlipsHigh(g, bg, j - 1, 0, p);
    }
  }

  /** Left half and the first columns of the right half of a block. */
  lemma {:induction false} ColumnsGoOn(s: seq<int>, off: int, stride: int, f: nat, g: nat, bg: nat, p: nat, rows: nat,
                                       j: nat)
    requires g < Pow2(p) && bg < 2 && j <= Pow2(p)
    requires InMemory(s, off, stride, rows, Pow2(p) + j)
    ensures InMemory(s, off, stride, rows, Pow2(p)) && InMemory(s, off + Pow2(p), stride, rows, j)
    ensures BlockSum(s, off, stride, f, g + High(bg, Pow2(p)), rows, Pow2(p) + j)
      == BlockSum(s, off, stride, f, g + High(bg, Pow2(p)), rows, Pow2(p))
         + Turned(bg, BlockSum(s, off + Pow2(p), stride, f, g, rows, j))
    decreases j
  {
    hide Flips, ColumnAt;
    var n := Pow2(p);
    PartInMemory(s, off, stride, rows, n + j, 0, 0, rows, n);
    PartInMemory(s, off, stride, rows, n + j, 0, n, rows, j);
    assert off + 0 * stride + 0 == off && off + 0 * stride + n == off + n;
    if j > 0 {
      FewerColumns(s, off, stride, rows, n + j);
      ColumnsGoOn(s, off, stride, f, g, bg, p, rows, j - 1);
      FlipsHigh(g, bg, j - 1, 1, p);
      assert off + (n + j - 1) == off + n + (j - 1);
    }
  }

  /** The sum over a block of twice 2^p rows and columns, by its quarters. */
  lemma BlockQuarters(s: seq<int>, off: int, stride: int, f: nat, bf: nat, g: nat, bg: nat, p: nat)
    requires f < Pow2(p) && g < Pow2(p) && bf < 2 && bg < 2
    requires InMemory(s, off, stride, 2 * Pow2(p), 2 * Pow2(p))
    ensures var n := Pow2(p);
      && InMemory(s, off, stride, n, n) && InMemory(s, off + n, stride, n, n)
      && InMemory(s, off + n * stride, stride, n, n) && InMemory(s, off + n + n * stride, stride, n, n)
      && BlockSum(s, off, stride, f + High(bf, n), g + High(bg, n), 2 * n, 2 * n)
         == BlockSum(s, off, stride, f, g, n, n)
            + Turned(bg, BlockSum(s, off + n, stride, f, g, n, n))
            + Turned(bf, BlockSum(s, off + n * stride, stride, f, g, n, n))
            + Turned(bf, Turned(bg, BlockSum(s, off + n + n * stride, stride, f, g, n, n)))
  {
    hide Flips, BlockSum;
    var n := Pow2(p);
    ColumnsGoOn(s, off, stride, f + High(bf, n), g, bg, p, 2 * n, n);
    RowHalves(s, off, stride, f, bf, g, bg, p, n);
    RowHalves(s, off + n, stride, f, bf, g, 0, p, n);
    assert g + High(0, n) == g;
  }

  // ---- The 8x8 transform ----

  lemma SignsAgree(f: nat, i: nat)
    requires f < 8 && i < 8
    ensures Flips(f, i) <==> Negative(f, i)
  {
    FlipsStep(f, i);
    FlipsStep(f / 2, i / 2);
    FlipsStep(f / 2 / 2, i / 2 / 2);
    assert f / 2 / 2 / 2 == 0;
  }

  lemma ColumnStep(s: seq<int>, at: int, stride: int, f: nat, n: nat)
    requires f < 8 && n < 8 && ColumnInside(s, at, stride, 8)
    ensures ColumnInside(s, at, stride, n) && ColumnInside(s, at, stride, n + 1) && 0 <= at + n * stride < |s|
    ensures ColumnAt(s, at, stride, f, 0) == 0
    ensures ColumnAt(s, at, stride, f, n + 1) == ColumnAt(s, at, stride, f, n) + Signed(f, n, s[at + n * stride])
  {
    assert 0 <= Address(at, stride, n, 0) < |s|;
    SignsAgree(f, n);
  }

  lemma ColumnIsWalsh(s: seq<int>, at: int, stride: int, f: nat)
    requires f < 8 && ColumnInside(s, at, stride, 8)
    ensures FitsLine(|s|, at, stride) && ColumnAt(s, at, stride, f, 8) == Walsh(Strided(s, at, stride), f)
  {
    hide ColumnAt, Signed, ColumnInside;
    ColumnStep(s, at, stride, f, 0);
    ColumnStep(s, at, stride, f, 1);
    ColumnStep(s, at, stride, f, 2);
    ColumnStep(s, at, stride, f, 3);
    ColumnStep(s, at, stride, f, 4);
    ColumnStep(s, at, stride, f, 5);
    ColumnStep(s, at, stride, f, 6);
    ColumnStep(s, at, stride, f, 7);
  }

  lemma BlockStep(s: seq<int>, off: int, stride: int, f: nat, g: nat, c: nat)
    requires f < 8 && g < 8 && c < 8 && InMemory(s, off, stride, 8, c + 1)
    ensures InMemory(s, off, stride, 8, c) && FitsLine(|s|, off + c, stride)
    ensures BlockSum(s, off, stride, f, g, 8, c + 1)
      == BlockSum(s, off, stride, f, g, 8, c) + Signed(g, c, Walsh(Strided(s, off + c, stride), f))
  {
    hide Flips, ColumnAt, Walsh;
    FewerColumns(s, off, stride, 8, c + 1);
    ColumnInMemory(s, off, stride, 8, c + 1, c);
    ColumnIsWalsh(s, off + c, stride, f);
    SignsAgree(g, c);
  }

  lemma Fits8InMemory(s: seq<int>, off: int, stride: int)
    requires Fits8(s, off, stride)
    ensures InMemory(s, off, stride, 8, 8)
  {
    BlockInMemory(s, off, stride, 8);
  }

  /** A block is in memory if its corners are. */
  lemma BlockInMemory(s: seq<int>, off: int, stride: int, n: nat)
    requires n > 0 && 0 <= off && off + n - 1 < |s| && 0 <= off + (n - 1) * stride
      && off + n - 1 + (n - 1) * stride < |s|
    ensures InMemory(s, off, stride, n, n)
  {
    forall r, c | 0 <= r < n && 0 <= c < n
      ensures 0 <= Address(off, stride, r, c) < |s|
    {
      if stride >= 0 {
        MulMono(0, r, stride);
        MulMono(r, n - 1, stride);
      } else {
        MulMono(0, r, -stride);
        MulMono(r, n - 1, -stride);
      }
    }
  }

  /** Coefficient (k, m): the row of signs goes down the block, the column of signs across. */
  lemma EightInMemory(s: seq<int>, off: int, stride: int, k: nat, m: nat)
    requires Fits8(s, off, stride) && k < 8 && m < 8
    ensures InMemory(s, off, stride, 8, 8)
    ensures Coefficients8(s, off, stride)[8 * k + m] == BlockSum(s, off, stride, ORDER[k], ORDER[m], 8, 8)
  {
    hide BlockSum, Walsh, Transform8, Strided;
    Fits8InMemory(s, off, stride);
    var f, g := ORDER[k], ORDER[m];
    var b := Columns(s, off, stride);
    FlatAt(Transform8(b), k, m);
    CoefficientIsProduct(b, k, m);
    BlockColumns(s, off, stride, f, g);
  }

  lemma BlockColumns(s: seq<int>, off: int, stride: int, f: nat, g: nat)
    requires Fits8(s, off, stride) && InMemory(s, off, stride, 8, 8) && f < 8 && g < 8
    ensures var b := Columns(s, off, stride);
      BlockSum(s, off, stride, f, g, 8, 8)
        == Walsh([Walsh(b[0], f), Walsh(b[1], f), Walsh(b[2], f), Walsh(b[3], f),
                  Walsh(b[4], f), Walsh(b[5], f), Walsh(b[6], f), Walsh(b[7], f)], g)
  {
    hide BlockSum, Signed, Strided;
    BlockStep(s, off, stride, f, g, 7);
    BlockStep(s, off, stride, f, g, 6);
    BlockStep(s, off, stride, f, g, 5);
    BlockStep(s, off, stride, f, g, 4);
    BlockStep(s, off, stride, f, g, 3);
    BlockStep(s, off, stride, f, g, 2);
    BlockStep(s, off, stride, f, g, 1);
    BlockStep(s, off, stride, f, g, 0);
    NoColumns(s, off, stride, f, g);
    WalshOfEight(Walsh(Columns(s, off, stride)[0], f), Walsh(Columns(s, off, stride)[1], f),
                 Walsh(Columns(s, off, stride)[2], f), Walsh(Columns(s, off, stride)[3], f),
                 Walsh(Columns(s, off, stride)[4], f), Walsh(Columns(s, off, stride)[5], f),
                 Walsh(Columns(s, off, stride)[6], f), Walsh(Columns(s, off, stride)[7], f), g);
    hide Walsh;
  }

  lemma NoColumns(s: seq<int>, off: int, stride: int, f: nat, g: nat)
    requires InMemory(s, off, stride, 8, 0)
    ensures BlockSum(s, off, stride, f, g, 8, 0) == 0
  {}

  lemma WalshOfEight(v0: int, v1: int, v2: int, v3: int, v4: int, v5: int, v6: int, v7: int, g: nat)
    ensures Walsh([v0, v1, v2, v3, v4, v5, v6, v7], g)
      == Signed(g, 0, v0) + Signed(g, 1, v1) + Signed(g, 2, v2) + Signed(g, 3, v3)
         + Signed(g, 4, v4) + Signed(g, 5, v5) + Signed(g, 6, v6) + Signed(g, 7, v7)
  {}

  // ---- The larger transforms ----

  /** Twice a 16x16 coefficient is the signed sum of the 256 entries, but for what the flooring drops. */
  lemma SixteenInMemory(s: seq<int>, off: int, stride: int, q: nat, k: nat, m: nat)
    requires Fits16(s, off, stride) && q < 4 && k < 8 && m < 8
    ensures InMemory(s, off, stride, 16, 16)
    ensures var sum := BlockSum(s, off, stride, ORDER[k] + 8 * (q / 2), ORDER[m] + 8 * (q % 2), 16, 16);
      -2 <= 2 * Coefficients16(s, off, stride)[64 * q + 8 * k + m] - sum <= 1
  {
    hide BlockSum, Coefficients8, Coefficients16, Mixed, InMemory, Fits8, Pow2, Turned;
    EightIsPower();
    BlockInMemory(s, off, stride, 16);
    QuartersFit8(s, off, stride);
    var f, g := ORDER[k], ORDER[m];
    BlockQuarters(s, off, stride, f, q / 2, g, q % 2, 3);
    EightInMemory(s, Quarter8(off, stride, 0), stride, k, m);
    EightInMemory(s, Quarter8(off, stride, 1), stride, k, m);
    EightInMemory(s, Quarter8(off, stride, 2), stride, k, m);
    EightInMemory(s, Quarter8(off, stride, 3), stride, k, m);
    var i := 8 * k + m;
    SixteenAt(s, off, stride, q, i);
    NearTurned(q, Coefficients8(s, Quarter8(off, stride, 0), stride)[i],
               Coefficients8(s, Quarter8(off, stride, 1), stride)[i],
               Coefficients8(s, Quarter8(off, stride, 2), stride)[i],
               Coefficients8(s, Quarter8(off, stride, 3), stride)[i], 2);
  }

  lemma EightIsPower()
    ensures Pow2(3) == 8 && Pow2(4) == 16
    ensures forall k :: 0 <= k < 8 ==> ORDER[k] < 8
  {
    Pow2Constants();
  }

  /** The last stage is near the turned sum of the quarters. */
  lemma NearTurned(q: nat, a0: int, a1: int, a2: int, a3: int, d: nat)
    requires q < 4 && d > 0
    ensures var sum := a0 + Turned(q % 2, a1) + Turned(q / 2, a2) + Turned(q / 2, Turned(q % 2, a3));
      -2 * (d - 1) <= d * Mixed(q, a0, a1, a2, a3, d) - sum <= d - 1
  {
    hide Mixed;
    MixedNearExact(q, a0, a1, a2, a3, d);
  }

  /** What the first floorings drop, turned, adds up to little. */
  lemma NearSums(q: nat, a0: int, a1: int, a2: int, a3: int, s0: int, s1: int, s2: int, s3: int)
    requires q < 4 && -2 <= 2 * a0 - s0 <= 1 && -2 <= 2 * a1 - s1 <= 1 && -2 <= 2 * a2 - s2 <= 1
      && -2 <= 2 * a3 - s3 <= 1
    ensures var sum := a0 + Turned(q % 2, a1) + Turned(q / 2, a2) + Turned(q / 2, Turned(q % 2, a3));
      -8 <= 2 * sum - (s0 + Turned(q % 2, s1) + Turned(q / 2, s2) + Turned(q / 2, Turned(q % 2, s3))) <= 6
  {}

  lemma SixteenAt(s: seq<int>, off: int, stride: int, q: nat, i: nat)
    requires Fits16(s, off, stride) && q < 4 && i < 64
    ensures forall j :: 0 <= j < 4 ==> Fits8(s, Quarter8(off, stride, j), stride)
    ensures Coefficients16(s, off, stride)[64 * q + i]
      == Mixed(q, Coefficients8(s, Quarter8(off, stride, 0), stride)[i],
               Coefficients8(s, Quarter8(off, stride, 1), stride)[i],
               Coefficients8(s, Quarter8(off, stride, 2), stride)[i],
               Coefficients8(s, Quarter8(off, stride, 3), stride)[i], 2)
  {
    hide Coefficients8, Mixed;
    QuartersFit8(s, off, stride);
  }

  /** Eight times a 32x32 coefficient is the signed sum of the 1024 entries, but for what the floorings drop. */
  lemma ThirtyTwoInMemory(s: seq<int>, off: int, stride: int, w: nat, q: nat, k: nat, m: nat)
    requires Fits32(s, off, stride) && w < 4 && q < 4 && k < 8 && m < 8
    ensures InMemory(s, off, stride, 32, 32)
    ensures var sum := BlockSum(s, off, stride, ORDER[k] + 8 * (q / 2) + 16 * (w / 2),
                                ORDER[m] + 8 * (q % 2) + 16 * (w % 2), 32, 32);
      -20 <= 8 * Coefficients32(s, off, stride)[256 * w + 64 * q + 8 * k + m] - sum <= 12
  {
    hide BlockSum, Coefficients16, Coefficients32, Mixed, InMemory, Fits16, Pow2, Turned;
    EightIsPower();
    BlockInMemory(s, off, stride, 32);
    QuartersFit16(s, off, stride);
    var f, g := ORDER[k] + 8 * (q / 2), ORDER[m] + 8 * (q % 2);
    BlockQuarters(s, off, stride, f, w / 2, g, w % 2, 4);
    SixteenInMemory(s, Quarter16(off, stride, 0), stride, q, k, m);
    SixteenInMemory(s, Quarter16(off, stride, 1), stride, q, k, m);
    SixteenInMemory(s, Quarter16(off, stride, 2), stride, q, k, m);
    SixteenInMemory(s, Quarter16(off, stride, 3), stride, q, k, m);
    var i := 64 * q + 8 * k + m;
    CoefficientsAre32(s, off, stride, w, i);
    var a := FourOf16(s, off, stride, i);
    NearTurned(w, a[0], a[1], a[2], a[3], 4);
    NearSums(w, a[0], a[1], a[2], a[3], BlockSum(s, Quarter16(off, stride, 0), stride, f, g, 16, 16),
             BlockSum(s, Quarter16(off, stride, 1), stride, f, g, 16, 16),
             BlockSum(s, Quarter16(off, stride, 2), stride, f, g, 16, 16),
             BlockSum(s, Quarter16(off, stride, 3), stride, f, g, 16, 16));
  }
}
