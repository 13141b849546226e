/**
 The integer Hadamard transforms of residual blocks (avm_dsp/avg.c).

 The specification is the transform itself: each coefficient is the sum of the
 inputs with the signs of one Walsh function. The methods are the butterflies.
 */
module Hadamard {
  import opened MachineInts
  import opened Powers

  const INPUT_BOUND := 4095
  const BOUND_8 := 262080
  const BOUND_16 := 524160

  /** Eight numbers. */
  predicate Line(v: seq<int>) {
    |v| == 8
  }

  /** Eight lines. */
  predicate Grid(g: seq<seq<int>>) {
    |g| == 8 && forall j :: 0 <= j < 8 ==> Line(g[j])
  }

  // ---- The transform ----

  /** Which Walsh function each output holds. */
  const ORDER: seq<nat> := [0, 6, 4, 2, 3, 7, 5, 1]

  /** Walsh function f is negative where f and i share an odd number of bits. */
  predicate Negative(f: nat, i: nat) {
    ((f % 2 == 1 && i % 2 == 1) != (f / 2 % 2 == 1 && i / 2 % 2 == 1)) != (f / 4 % 2 == 1 && i / 4 % 2 == 1)
  }

  function Signed(f: nat, i: nat, x: int): int {
    if Negative(f, i) then -x else x
  }

  /** The inner product with Walsh function f. */
  function Walsh(v: seq<int>, f: nat): int
    requires Line(v)
  {
    Signed(f, 0, v[0]) + Signed(f, 1, v[1]) + Signed(f, 2, v[2]) + Signed(f, 3, v[3])
    + Signed(f, 4, v[4]) + Signed(f, 5, v[5]) + Signed(f, 6, v[6]) + Signed(f, 7, v[7])
  }

  /** The transform of a line. */
  function Spectrum(v: seq<int>): (y: seq<int>)
    requires Line(v)
    ensures Line(y)
  {
    seq(8, k requires 0 <= k < 8 => Walsh(v, ORDER[k]))
  }

  function Transposed(g: seq<seq<int>>): (t: seq<seq<int>>)
    requires Grid(g)
    ensures Grid(t)
  {
    seq(8, k requires 0 <= k < 8 => [g[0][k], g[1][k], g[2][k], g[3][k], g[4][k], g[5][k], g[6][k], g[7][k]])
  }

  function Spectra(g: seq<seq<int>>): (t: seq<seq<int>>)
    requires Grid(g)
    ensures Grid(t)
  {
    seq(8, j requires 0 <= j < 8 => Spectrum(g[j]))
  }

  /** The transform of a block given by its columns. */
  function Transform8(columns: seq<seq<int>>): (t: seq<seq<int>>)
    requires Grid(columns)
    ensures Grid(t)
  {
    Spectra(Transposed(Spectra(columns)))
  }

  /** Entry n of a block, column by column, with the product of two signs. */
  function SignedEntry(columns: seq<seq<int>>, f: nat, g: nat, n: nat): int
    requires Grid(columns) && n < 64
  {
    if Negative(f, n % 8) != Negative(g, n / 8) then -columns[n / 8][n % 8] else columns[n / 8][n % 8]
  }

  /** The sum of the first n of them. */
  function EntrySum(columns: seq<seq<int>>, f: nat, g: nat, n: nat): int
    requires Grid(columns) && n <= 64
  {
    if n == 0 then 0 else EntrySum(columns, f, g, n - 1) + SignedEntry(columns, f, g, n - 1)
  }

  lemma NextEntry(columns: seq<seq<int>>, f: nat, g: nat, j: nat, i: nat)
    requires Grid(columns) && j < 8 && i < 8
    ensures EntrySum(columns, f, g, 8 * j + i + 1)
         == EntrySum(columns, f, g, 8 * j + i) + Signed(g, j, Signed(f, i, columns[j][i]))
  {
    hide Negative;
    assert (8 * j + i) / 8 == j && (8 * j + i) % 8 == i;
  }

  lemma WalshIs(v: seq<int>, f: nat)
    requires Line(v)
    ensures Walsh(v, f) == Signed(f, 0, v[0]) + Signed(f, 1, v[1]) + Signed(f, 2, v[2]) + Signed(f, 3, v[3])
                         + Signed(f, 4, v[4]) + Signed(f, 5, v[5]) + Signed(f, 6, v[6]) + Signed(f, 7, v[7])
  {}

  lemma SignOfSum(g: nat, j: nat, a: int, b: int, c: int, d: int)
    ensures Signed(g, j, a + b + c + d) == Signed(g, j, a) + Signed(g, j, b) + Signed(g, j, c) + Signed(g, j, d)
  {}

  lemma ColumnSum(columns: seq<seq<int>>, f: nat, g: nat, j: nat)
    requires Grid(columns) && j < 8
    ensures EntrySum(columns, f, g, 8 * j + 8) == EntrySum(columns, f, g, 8 * j) + Signed(g, j, Walsh(columns[j], f))
  {
    hide Signed, EntrySum, Walsh;
    var v := columns[j];
    NextEntry(columns, f, g, j, 0);
    NextEntry(columns, f, g, j, 1);
    NextEntry(columns, f, g, j, 2);
    NextEntry(columns, f, g, j, 3);
    NextEntry(columns, f, g, j, 4);
    NextEntry(columns, f, g, j, 5);
    NextEntry(columns, f, g, j, 6);
    NextEntry(columns, f, g, j, 7);
    WalshIs(v, f);
    var low := Signed(f, 0, v[0]) + Signed(f, 1, v[1]) + Signed(f, 2, v[2]) + Signed(f, 3, v[3]);
    SignOfSum(g, j, Signed(f, 0, v[0]), Signed(f, 1, v[1]), Signed(f, 2, v[2]), Signed(f, 3, v[3]));
    SignOfSum(g, j, Signed(f, 4, v[4]), Signed(f, 5, v[5]), Signed(f, 6, v[6]), Signed(f, 7, v[7]));
    SignOfSum(g, j, low, Walsh(v, f) - low, 0, 0);
    SignOfSum(g, j, 0, 0, 0, 0);
  }

  /** Each coefficient is the sum over all 64 entries, signed by two Walsh functions. */
  lemma CoefficientIsDoubleSum(columns: seq<seq<int>>, k: nat, m: nat)
    requires Grid(columns) && k < 8 && m < 8
    ensures Transform8(columns)[k][m] == EntrySum(columns, ORDER[k], ORDER[m], 64)
  {
    hide Signed, EntrySum, Walsh, Transform8;
    var f, g := ORDER[k], ORDER[m];
    NoEntries(columns, f, g);
    ColumnSum(columns, f, g, 0);
    ColumnSum(columns, f, g, 1);
    ColumnSum(columns, f, g, 2);
    ColumnSum(columns, f, g, 3);
    ColumnSum(columns, f, g, 4);
    ColumnSum(columns, f, g, 5);
    ColumnSum(columns, f, g, 6);
    ColumnSum(columns, f, g, 7);
    CoefficientIsProduct(columns, k, m);
    WalshIs([Walsh(columns[0], f), Walsh(columns[1], f), Walsh(columns[2], f), Walsh(columns[3], f),
             Walsh(columns[4], f), Walsh(columns[5], f), Walsh(columns[6], f), Walsh(columns[7], f)], g);
  }

  lemma CoefficientIsProduct(columns: seq<seq<int>>, k: nat, m: nat)
    requires Grid(columns) && k < 8 && m < 8
    ensures Transform8(columns)[k][m] == Walsh(
      [Walsh(columns[0], ORDER[k]), Walsh(columns[1], ORDER[k]), Walsh(columns[2], ORDER[k]),
       Walsh(columns[3], ORDER[k]), Walsh(columns[4], ORDER[k]), Walsh(columns[5], ORDER[k]),
       Walsh(columns[6], ORDER[k]), Walsh(columns[7], ORDER[k])], ORDER[m])
  {
    hide Walsh;
  }

  lemma NoEntries(columns: seq<seq<int>>, f: nat, g: nat)
    requires Grid(columns)
    ensures EntrySum(columns, f, g, 0) == 0
  {}

  /** The butterflies are the eight inner products. */
  lemma Butterflies(v: seq<int>)
    requires Line(v)
    ensures var b0, b1, b2, b3 := v[0] + v[1], v[0] - v[1], v[2] + v[3], v[2] - v[3];
      var b4, b5, b6, b7 := v[4] + v[5], v[4] - v[5], v[6] + v[7], v[6] - v[7];
      && Walsh(v, 0) == (b0 + b2) + (b4 + b6) && Walsh(v, 1) == (b1 + b3) + (b5 + b7)
      && Walsh(v, 2) == (b0 - b2) + (b4 - b6) && Walsh(v, 3) == (b1 - b3) + (b5 - b7)
      && Walsh(v, 4) == (b0 + b2) - (b4 + b6) && Walsh(v, 5) == (b1 + b3) - (b5 + b7)
      && Walsh(v, 6) == (b0 - b2) - (b4 - b6) && Walsh(v, 7) == (b1 - b3) - (b5 - b7)
  {}

  lemma SpectrumIs(v: seq<int>)
    requires Line(v)
    ensures Spectrum(v) == [Walsh(v, 0), Walsh(v, 6), Walsh(v, 4), Walsh(v, 2),
                            Walsh(v, 3), Walsh(v, 7), Walsh(v, 5), Walsh(v, 1)]
  {}

  // ---- Energy ----

  function Square(x: int): int {
    x * x
  }

  function LineEnergy(v: seq<int>): int
    requires Line(v)
  {
    Square(v[0]) + Square(v[1]) + Square(v[2]) + Square(v[3])
    + Square(v[4]) + Square(v[5]) + Square(v[6]) + Square(v[7])
  }

  function Energy(g: seq<seq<int>>): int
    requires Grid(g)
  {
    LineEnergy(g[0]) + LineEnergy(g[1]) + LineEnergy(g[2]) + LineEnergy(g[3])
    + LineEnergy(g[4]) + LineEnergy(g[5]) + LineEnergy(g[6]) + LineEnergy(g[7])
  }

  lemma SpectrumEnergy(v: seq<int>)
    requires Line(v)
    ensures LineEnergy(Spectrum(v)) == 8 * LineEnergy(v)
  {}

  lemma SpectraEnergy(g: seq<seq<int>>)
    requires Grid(g)
    ensures Energy(Spectra(g)) == 8 * Energy(g)
  {
    hide LineEnergy, Spectrum;
    SpectrumEnergy(g[0]);
    SpectrumEnergy(g[1]);
    SpectrumEnergy(g[2]);
    SpectrumEnergy(g[3]);
    SpectrumEnergy(g[4]);
    SpectrumEnergy(g[5]);
    SpectrumEnergy(g[6]);
    SpectrumEnergy(g[7]);
  }

  lemma TransposedEnergy(g: seq<seq<int>>)
    requires Grid(g)
    ensures Energy(Transposed(g)) == Energy(g)
  {
    hide Square;
  }

  /** The sum of the squared coefficients is 64 times that of the inputs. */
  lemma EnergyConserved(columns: seq<seq<int>>)
    requires Grid(columns)
    ensures Energy(Transform8(columns)) == 64 * Energy(columns)
  {
    hide Energy, Spectra, Transposed;
    var first := Spectra(columns);
    SpectraEnergy(columns);
    TransposedEnergy(first);
    SpectraEnergy(Transposed(first));
  }

  // ---- The way back ----

  /** The transform once more, from the order of the outputs. */
  function Unspectrum(y: seq<int>): (v: seq<int>)
    requires Line(y)
    ensures Line(v)
  {
    var n := [y[0], y[7], y[3], y[4], y[2], y[6], y[1], y[5]];
    [Walsh(n, 0), Walsh(n, 1), Walsh(n, 2), Walsh(n, 3), Walsh(n, 4), Walsh(n, 5), Walsh(n, 6), Walsh(n, 7)]
  }

  function Unspectra(g: seq<seq<int>>): (t: seq<seq<int>>)
    requires Grid(g)
    ensures Grid(t)
  {
    seq(8, j requires 0 <= j < 8 => Unspectrum(g[j]))
  }

  function ScaledLine(c: int, v: seq<int>): (r: seq<int>)
    requires Line(v)
    ensures Line(r)
  {
    [c * v[0], c * v[1], c * v[2], c * v[3], c * v[4], c * v[5], c * v[6], c * v[7]]
  }

  function ScaledGrid(c: int, g: seq<seq<int>>): (t: seq<seq<int>>)
    requires Grid(g)
    ensures Grid(t)
  {
    seq(8, j requires 0 <= j < 8 => ScaledLine(c, g[j]))
  }

  lemma UnspectrumUndoes(v: seq<int>)
    requires Line(v)
    ensures Unspectrum(Spectrum(v)) == ScaledLine(8, v)
  {
    hide Walsh, Spectrum;
    SpectrumIs(v);
    Butterflies(v);
    var n := [Walsh(v, 0), Walsh(v, 1), Walsh(v, 2), Walsh(v, 3), Walsh(v, 4), Walsh(v, 5), Walsh(v, 6), Walsh(v, 7)];
    Butterflies(n);
  }

  function Recovered(t: seq<seq<int>>): (g: seq<seq<int>>)
    requires Grid(t)
    ensures Grid(g)
  {
    Unspectra(Transposed(Unspectra(t)))
  }

  lemma UnspectraUndo(g: seq<seq<int>>)
    requires Grid(g)
    ensures Unspectra(Spectra(g)) == ScaledGrid(8, g)
  {
    hide Unspectrum, Spectrum, ScaledLine;
    forall j | 0 <= j < 8
      ensures Unspectrum(Spectrum(g[j])) == ScaledLine(8, g[j])
    {
      UnspectrumUndoes(g[j]);
    }
  }

  lemma UnspectraScale(g: seq<seq<int>>)
    requires Grid(g)
    ensures Unspectra(ScaledGrid(8, g)) == ScaledGrid(8, Unspectra(g))
  {}

  lemma TransposedScales(g: seq<seq<int>>)
    requires Grid(g)
    ensures Transposed(ScaledGrid(8, g)) == ScaledGrid(8, Transposed(g))
  {}

  lemma TransposedTwice(g: seq<seq<int>>)
    requires Grid(g)
    ensures Transposed(Transposed(g)) == g
  {
    forall k | 0 <= k < 8
      ensures Transposed(Transposed(g))[k] == g[k]
    {}
  }

  lemma ScaledTwice(g: seq<seq<int>>)
    requires Grid(g)
    ensures ScaledGrid(8, ScaledGrid(8, g)) == ScaledGrid(64, g)
  {}

  /** The inputs come back, 64 times as large, so nothing is lost. */
  lemma TransformInverts(columns: seq<seq<int>>)
    requires Grid(columns)
    ensures Recovered(Transform8(columns)) == ScaledGrid(64, columns)
  {
    hide Unspectra, Spectra, Transposed, ScaledGrid;
    var first := Spectra(columns);
    UnspectraUndo(Transposed(first));
    TransposedScales(Transposed(first));
    TransposedTwice(first);
    UnspectraScale(first);
    UnspectraUndo(columns);
    ScaledTwice(columns);
  }

  // ---- Bounds ----

  predicate LineBounded(v: seq<int>, b: nat) {
    forall i :: 0 <= i < |v| ==> -(b as int) <= v[i] <= b
  }

  predicate Bounded(g: seq<seq<int>>, b: nat) {
    forall j :: 0 <= j < |g| ==> LineBounded(g[j], b)
  }

  lemma SpectrumBounded(v: seq<int>, b: nat)
    requires Line(v) && LineBounded(v, b)
    ensures LineBounded(Spectrum(v), 8 * b)
  {
    hide Walsh, Spectrum;
    SpectrumIs(v);
    Butterflies(v);
  }

  lemma SpectraBounded(g: seq<seq<int>>, b: nat)
    requires Grid(g) && Bounded(g, b)
    ensures Bounded(Spectra(g), 8 * b) && Bounded(Transposed(Spectra(g)), 8 * b)
  {
    hide Spectrum, LineBounded;
    forall j | 0 <= j < 8
      ensures LineBounded(Spectra(g)[j], 8 * b)
    {
      SpectrumBounded(g[j], b);
    }
    TransposedBounded(Spectra(g), 8 * b);
  }

  lemma TransposedBounded(g: seq<seq<int>>, b: nat)
    requires Grid(g) && Bounded(g, b)
    ensures Bounded(Transposed(g), b)
  {}

  /** Inputs within 4095 give coefficients within 262080. */
  lemma TransformBounded(columns: seq<seq<int>>)
    requires Grid(columns) && Bounded(columns, INPUT_BOUND)
    ensures Bounded(Spectra(columns), 32760) && Bounded(Transposed(Spectra(columns)), 32760)
    ensures Bounded(Transform8(columns), BOUND_8)
  {
    hide Spectra, Transposed, Bounded;
    SpectraBounded(columns, 4095);
    SpectraBounded(Transposed(Spectra(columns)), 32760);
  }

  // ---- Blocks in memory ----

  /** The stride may be negative, as ptrdiff_t is. */
  predicate FitsLine(length: nat, base: int, stride: int) {
    0 <= base < length && 0 <= base + 7 * stride < length
  }

  predicate Fits8(s: seq<int>, off: int, stride: int) {
    0 <= off < off + 7 < |s| && 0 <= off + 7 * stride < off + 7 + 7 * stride < |s|
  }

  /** Eight numbers a stride apart. */
  function Strided(s: seq<int>, base: int, stride: int): (v: seq<int>)
    requires FitsLine(|s|, base, stride)
    ensures Line(v)
  {
    [s[base], s[base + stride], s[base + 2 * stride], s[base + 3 * stride],
     s[base + 4 * stride], s[base + 5 * stride], s[base + 6 * stride], s[base + 7 * stride]]
  }

  /** The columns of the 8x8 block at off. */
  function Columns(s: seq<int>, off: int, stride: int): (g: seq<seq<int>>)
    requires Fits8(s, off, stride)
    ensures Grid(g)
  {
    [Strided(s, off, stride), Strided(s, off + 1, stride), Strided(s, off + 2, stride), Strided(s, off + 3, stride),
     Strided(s, off + 4, stride), Strided(s, off + 5, stride), Strided(s, off + 6, stride), Strided(s, off + 7, stride)]
  }

  /** A grid line by line. */
  function Flat(g: seq<seq<int>>): (s: seq<int>)
    requires Grid(g)
    ensures |s| == 64
  {
    seq(64, n requires 0 <= n < 64 => g[n / 8][n % 8])
  }

  function Coefficients8(s: seq<int>, off: int, stride: int): (t: seq<int>)
    requires Fits8(s, off, stride)
    ensures |t| == 64
  {
    Flat(Transform8(Columns(s, off, stride)))
  }

  predicate Fits16(s: seq<int>, off: int, stride: int) {
    0 <= off < off + 15 < |s| && 0 <= off + 15 * stride < off + 15 + 15 * stride < |s|
  }

  predicate Fits32(s: seq<int>, off: int, stride: int) {
    0 <= off < off + 31 < |s| && 0 <= off + 31 * stride < off + 31 + 31 * stride < |s|
  }

  /** Where a quarter of a block starts: top left, top right, bottom left, bottom right. */
  function Quarter8(off: int, stride: int, q: nat): int {
    off + (if q / 2 == 1 then 8 * stride else 0) + (if q % 2 == 1 then 8 else 0)
  }

  function Quarter16(off: int, stride: int, q: nat): int {
    off + (if q / 2 == 1 then 16 * stride else 0) + (if q % 2 == 1 then 16 else 0)
  }

  /** One output of the last stage over four quarters, with the sums and differences divided by d, rounding down. */
  function Mixed(q: nat, a0: int, a1: int, a2: int, a3: int, d: nat): int
    requires d > 0
  {
    var b0, b1 := (a0 + a1) / d, (a0 - a1) / d;
    var b2, b3 := (a2 + a3) / d, (a2 - a3) / d;
    if q == 0 then b0 + b2 else if q == 1 then b1 + b3 else if q == 2 then b0 - b2 else b1 - b3
  }

  function MixedQuarter(q: nat, a0: seq<int>, a1: seq<int>, a2: seq<int>, a3: seq<int>, d: nat): (t: seq<int>)
    requires |a0| == |a1| == |a2| == |a3| && d > 0
    ensures |t| == |a0|
  {
    seq(|a0|, i requires 0 <= i < |a0| => Mixed(q, a0[i], a1[i], a2[i], a3[i], d))
  }

  function Combined(a0: seq<int>, a1: seq<int>, a2: seq<int>, a3: seq<int>, d: nat): (t: seq<int>)
    requires |a0| == |a1| == |a2| == |a3| && d > 0
    ensures |t| == 4 * |a0|
  {
    MixedQuarter(0, a0, a1, a2, a3, d) + MixedQuarter(1, a0, a1, a2, a3, d)
    + MixedQuarter(2, a0, a1, a2, a3, d) + MixedQuarter(3, a0, a1, a2, a3, d)
  }

  lemma QuartersFit8(s: seq<int>, off: int, stride: int)
    requires Fits16(s, off, stride)
    ensures Fits8(s, Quarter8(off, stride, 0), stride) && Fits8(s, Quarter8(off, stride, 1), stride)
    ensures Fits8(s, Quarter8(off, stride, 2), stride) && Fits8(s, Quarter8(off, stride, 3), stride)
  {}

  lemma QuartersFit16(s: seq<int>, off: int, stride: int)
    requires Fits32(s, off, stride)
    ensures Fits16(s, Quarter16(off, stride, 0), stride) && Fits16(s, Quarter16(off, stride, 1), stride)
    ensures Fits16(s, Quarter16(off, stride, 2), stride) && Fits16(s, Quarter16(off, stride, 3), stride)
  {}

  function Coefficients16(s: seq<int>, off: int, stride: int): (t: seq<int>)
    requires Fits16(s, off, stride)
    ensures |t| == 256
  {
    QuartersFit8(s, off, stride);
    var a0, a1 := Coefficients8(s, Quarter8(off, stride, 0), stride),
                  Coefficients8(s, Quarter8(off, stride, 1), stride);
    var a2, a3 := Coefficients8(s, Quarter8(off, stride, 2), stride),
                  Coefficients8(s, Quarter8(off, stride, 3), stride);
    Combined(a0, a1, a2, a3, 2)
  }

  function Coefficients32(s: seq<int>, off: int, stride: int): (t: seq<int>)
    requires Fits32(s, off, stride)
    ensures |t| == 1024
  {
    QuartersFit16(s, off, stride);
    var a0, a1 := Coefficients16(s, Quarter16(off, stride, 0), stride),
                  Coefficients16(s, Quarter16(off, stride, 1), stride);
    var a2, a3 := Coefficients16(s, Quarter16(off, stride, 2), stride),
                  Coefficients16(s, Quarter16(off, stride, 3), stride);
    Combined(a0, a1, a2, a3, 4)
  }

  // ---- What the flooring loses ----

  /** Each output is at most half a unit of each sum away from the exact one. */
  lemma MixedNearExact(q: nat, a0: int, a1: int, a2: int, a3: int, d: nat)
    requires q < 4 && d > 0
    ensures var exact := (if q == 0 then a0 + a1 + a2 + a3 else if q == 1 then a0 - a1 + a2 - a3
                          else if q == 2 then a0 + a1 - a2 - a3 else a0 - a1 - a2 + a3);
      -2 * (d - 1) <= d * Mixed(q, a0, a1, a2, a3, d) - exact <= d - 1
  {}

  lemma DistributeSum(x: int, y: int, d: int)
    ensures d * (x + y) == d * x + d * y && d * (x - y) == d * x - d * y
  {}

  /**
   The 16x16 stage keeps the right quarters' coefficients and the left ones' up to
   a lowest bit: two inputs give the same outputs exactly when they agree on that.
   */
  lemma HalvingLosesOneBit(a: seq<int>, c: seq<int>)
    requires |a| == |c| == 4
    ensures (forall q: nat :: q < 4 ==> Mixed(q, a[0], a[1], a[2], a[3], 2) == Mixed(q, c[0], c[1], c[2], c[3], 2))
      <==> && a[1] == c[1] && a[3] == c[3]
           && a[0] - (a[0] + a[1]) % 2 == c[0] - (c[0] + c[1]) % 2
           && a[2] - (a[2] + a[3]) % 2 == c[2] - (c[2] + c[3]) % 2
  {
    if forall q: nat :: q < 4 ==> Mixed(q, a[0], a[1], a[2], a[3], 2) == Mixed(q, c[0], c[1], c[2], c[3], 2) {
      assert Mixed(0, a[0], a[1], a[2], a[3], 2) == Mixed(0, c[0], c[1], c[2], c[3], 2);
      assert Mixed(1, a[0], a[1], a[2], a[3], 2) == Mixed(1, c[0], c[1], c[2], c[3], 2);
      assert Mixed(2, a[0], a[1], a[2], a[3], 2) == Mixed(2, c[0], c[1], c[2], c[3], 2);
      assert Mixed(3, a[0], a[1], a[2], a[3], 2) == Mixed(3, c[0], c[1], c[2], c[3], 2);
    }
  }

  function Flatline(x: int): (v: seq<int>)
    ensures Line(v)
  {
    [x, x, x, x, x, x, x, x]
  }

  function Impulse(x: int): (v: seq<int>)
    ensures Line(v)
  {
    [x, 0, 0, 0, 0, 0, 0, 0]
  }

  /** A block that is x in its first place and 0 elsewhere has the coefficient x everywhere. */
  lemma ImpulseSpreads(columns: seq<seq<int>>, x: int)
    requires Grid(columns) && columns[0] == Impulse(x)
    requires forall j :: 1 <= j < 8 ==> columns[j] == Impulse(0)
    ensures forall k :: 0 <= k < 8 ==> Transform8(columns)[k] == Flatline(x)
  {
    hide Spectrum;
    ImpulseSpectrum(x);
    ImpulseSpectrum(0);
    var first := Spectra(columns);
    assert first[0] == Flatline(x) && forall j :: 1 <= j < 8 ==> first[j] == Flatline(0);
    assert forall k :: 0 <= k < 8 ==> Transposed(first)[k] == Impulse(x);
  }

  lemma ImpulseSpectrum(x: int)
    ensures Spectrum(Impulse(x)) == Flatline(x)
  {}

  /** A 16x16 block that is x in its first place and 0 elsewhere has the coefficient x / 2 everywhere. */
  lemma SixteenOfImpulse(s: seq<int>, off: int, stride: nat, i: nat, x: int)
    requires Fits16(s, off, stride) && stride >= 16 && i < 256 && s[off] == x
    requires forall j :: off < j < |s| ==> s[j] == 0
    ensures Coefficients16(s, off, stride)[i] == x / 2
  {
    hide Coefficients8;
    QuartersFit8(s, off, stride);
    EightOfImpulse(s, Quarter8(off, stride, 0), stride, i % 64, x);
    EightOfImpulse(s, Quarter8(off, stride, 1), stride, i % 64, 0);
    EightOfImpulse(s, Quarter8(off, stride, 2), stride, i % 64, 0);
    EightOfImpulse(s, Quarter8(off, stride, 3), stride, i % 64, 0);
  }

  lemma EightOfImpulse(s: seq<int>, off: int, stride: nat, i: nat, x: int)
    requires Fits8(s, off, stride) && stride > 0 && i < 64 && s[off] == x
    requires forall j :: off < j < |s| ==> s[j] == 0
    ensures Coefficients8(s, off, stride)[i] == x
  {
    hide Transform8;
    ImpulseSpreads(Columns(s, off, stride), x);
  }

  /** So a residual of 1 there is lost. */
  lemma SixteenNotInjective(s: seq<int>)
    requires |s| == 256 && (s[0] == 0 || s[0] == 1) && forall i :: 1 <= i < 256 ==> s[i] == 0
    ensures forall i :: 0 <= i < 256 ==> Coefficients16(s, 0, 16)[i] == 0
  {
    hide Coefficients16;
    forall i | 0 <= i < 256
      ensures Coefficients16(s, 0, 16)[i] == 0
    {
      SixteenOfImpulse(s, 0, 16, i, s[0]);
    }
  }

  // ---- Which 16x16 blocks collide ----

  function LineSum(v: seq<int>): int
    requires Line(v)
  {
    v[0] + v[1] + v[2] + v[3] + v[4] + v[5] + v[6] + v[7]
  }

  function GridSum(g: seq<seq<int>>): int
    requires Grid(g)
  {
    LineSum(g[0]) + LineSum(g[1]) + LineSum(g[2]) + LineSum(g[3])
    + LineSum(g[4]) + LineSum(g[5]) + LineSum(g[6]) + LineSum(g[7])
  }

  lemma SignedFlips(f: nat, i: nat, x: int) returns (h: int)
    ensures Signed(f, i, x) == x - 2 * h
  {
    h := if Negative(f, i) then x else 0;
  }

  lemma EvenDifference(a: int, b: int, h: int)
    requires a == b - 2 * h
    ensures a % 2 == b % 2
  {}

  lemma WalshParity(v: seq<int>, f: nat)
    requires Line(v)
    ensures Walsh(v, f) % 2 == LineSum(v) % 2
  {
    hide Signed;
    var h0 := SignedFlips(f, 0, v[0]);
    var h1 := SignedFlips(f, 1, v[1]);
    var h2 := SignedFlips(f, 2, v[2]);
    var h3 := SignedFlips(f, 3, v[3]);
    var h4 := SignedFlips(f, 4, v[4]);
    var h5 := SignedFlips(f, 5, v[5]);
    var h6 := SignedFlips(f, 6, v[6]);
    var h7 := SignedFlips(f, 7, v[7]);
    EvenDifference(Walsh(v, f), LineSum(v), h0 + h1 + h2 + h3 + h4 + h5 + h6 + h7);
  }

  /** All 64 coefficients of a block have the parity of its sum. */
  lemma TransformParity(columns: seq<seq<int>>, k: nat, m: nat)
    requires Grid(columns) && k < 8 && m < 8
    ensures Transform8(columns)[k][m] % 2 == GridSum(columns) % 2
  {
    hide Walsh, LineSum, Transform8;
    var f := ORDER[k];
    WalshParity(columns[0], f);
    WalshParity(columns[1], f);
    WalshParity(columns[2], f);
    WalshParity(columns[3], f);
    WalshParity(columns[4], f);
    WalshParity(columns[5], f);
    WalshParity(columns[6], f);
    WalshParity(columns[7], f);
    CoefficientIsProduct(columns, k, m);
    var w := [Walsh(columns[0], f), Walsh(columns[1], f), Walsh(columns[2], f), Walsh(columns[3], f),
              Walsh(columns[4], f), Walsh(columns[5], f), Walsh(columns[6], f), Walsh(columns[7], f)];
    WalshParity(w, ORDER[m]);
    LineSumIs(w);
  }

  lemma LineSumIs(v: seq<int>)
    requires Line(v)
    ensures LineSum(v) == v[0] + v[1] + v[2] + v[3] + v[4] + v[5] + v[6] + v[7]
  {}

  /** A block with p taken from its first place. */
  function Reduced(g: seq<seq<int>>, p: int): (r: seq<seq<int>>)
    requires Grid(g)
    ensures Grid(r)
  {
    g[0 := g[0][0 := g[0][0] - p]]
  }

  lemma SpectrumReduced(v: seq<int>, p: int)
    requires Line(v)
    ensures forall k :: 0 <= k < 8 ==> Spectrum(v[0 := v[0] - p])[k] == Spectrum(v)[k] - p
  {
    hide Walsh, Spectrum;
    SpectrumIs(v);
    Butterflies(v);
    SpectrumIs(v[0 := v[0] - p]);
    Butterflies(v[0 := v[0] - p]);
  }

  /** Taking p from the first place takes it from every coefficient. */
  lemma TransformReduced(g: seq<seq<int>>, p: int, k: nat, m: nat)
    requires Grid(g) && k < 8 && m < 8
    ensures Transform8(Reduced(g, p))[k][m] == Transform8(g)[k][m] - p
  {
    hide Spectrum;
    SpectrumReduced(g[0], p);
    var line := Transposed(Spectra(g))[k];
    assert Transposed(Spectra(Reduced(g, p)))[k] == line[0 := line[0] - p];
    SpectrumReduced(line, p);
  }

  /** Different blocks have different 8x8 coefficients. */
  lemma TransformInjective(g: seq<seq<int>>, h: seq<seq<int>>)
    requires Grid(g) && Grid(h)
    ensures Transform8(g) == Transform8(h) <==> g == h
  {
    hide Transform8, Recovered;
    TransformInverts(g);
    TransformInverts(h);
    if ScaledGrid(64, g) == ScaledGrid(64, h) {
      forall j | 0 <= j < 8
        ensures g[j] == h[j]
      {
        assert ScaledGrid(64, g)[j] == ScaledGrid(64, h)[j];
        ScaledLineInjective(g[j], h[j]);
      }
    }
  }

  lemma ScaledLineInjective(v: seq<int>, w: seq<int>)
    requires Line(v) && Line(w) && ScaledLine(64, v) == ScaledLine(64, w)
    ensures v == w
  {
    assert ScaledLine(64, v)[0] == ScaledLine(64, w)[0] && ScaledLine(64, v)[1] == ScaledLine(64, w)[1];
    assert ScaledLine(64, v)[2] == ScaledLine(64, w)[2] && ScaledLine(64, v)[3] == ScaledLine(64, w)[3];
    assert ScaledLine(64, v)[4] == ScaledLine(64, w)[4] && ScaledLine(64, v)[5] == ScaledLine(64, w)[5];
    assert ScaledLine(64, v)[6] == ScaledLine(64, w)[6] && ScaledLine(64, v)[7] == ScaledLine(64, w)[7];
  }

  /** Blocks whose coefficients agree after taking p and q from all of them. */
  lemma ReducedInjective(g: seq<seq<int>>, p: int, h: seq<seq<int>>, q: int)
    requires Grid(g) && Grid(h)
    ensures Reduced(g, p) == Reduced(h, q)
      <==> forall k, m :: 0 <= k < 8 && 0 <= m < 8 ==> Transform8(g)[k][m] - p == Transform8(h)[k][m] - q
  {
    hide Transform8, Reduced;
    TransformInjective(Reduced(g, p), Reduced(h, q));
    forall k, m | 0 <= k < 8 && 0 <= m < 8
      ensures Transform8(Reduced(g, p))[k][m] == Transform8(g)[k][m] - p
      ensures Transform8(Reduced(h, q))[k][m] == Transform8(h)[k][m] - q
    {
      TransformReduced(g, p, k, m);
      TransformReduced(h, q, k, m);
    }
    GridsEqual(Transform8(Reduced(g, p)), Transform8(Reduced(h, q)));
  }

  lemma GridsEqual(g: seq<seq<int>>, h: seq<seq<int>>)
    requires Grid(g) && Grid(h)
    ensures g == h <==> forall k, m :: 0 <= k < 8 && 0 <= m < 8 ==> g[k][m] == h[k][m]
  {
    if forall k, m :: 0 <= k < 8 && 0 <= m < 8 ==> g[k][m] == h[k][m] {
      forall k | 0 <= k < 8
        ensures g[k] == h[k]
      {}
    }
  }

  /** The four quarters of a 16x16 block, by columns. */
  function Quarters(s: seq<int>, off: int, stride: int): (b: seq<seq<seq<int>>>)
    requires Fits16(s, off, stride)
    ensures |b| == 4 && forall q :: 0 <= q < 4 ==> Grid(b[q])
  {
    QuartersFit8(s, off, stride);
    FourGridsOf(Columns(s, Quarter8(off, stride, 0), stride), Columns(s, Quarter8(off, stride, 1), stride),
                Columns(s, Quarter8(off, stride, 2), stride), Columns(s, Quarter8(off, stride, 3), stride))
  }

  function FourGridsOf(b0: seq<seq<int>>, b1: seq<seq<int>>, b2: seq<seq<int>>,
                       b3: seq<seq<int>>): (b: seq<seq<seq<int>>>)
    requires Grid(b0) && Grid(b1) && Grid(b2) && Grid(b3)
    ensures |b| == 4 && forall q :: 0 <= q < 4 ==> Grid(b[q])
  {
    [b0, b1, b2, b3]
  }

  predicate FourGrids(b: seq<seq<seq<int>>>) {
    |b| == 4 && forall q :: 0 <= q < 4 ==> Grid(b[q])
  }

  /**
   What the coefficients of a block keep of it: all but the parity of the sum of its
   upper half, taken from the first place, and that of its lower half, taken from the
   first place of the ninth row.
   */
  function Kept16(b: seq<seq<seq<int>>>): (r: seq<seq<seq<int>>>)
    requires FourGrids(b)
  {
    [Reduced(b[0], (GridSum(b[0]) + GridSum(b[1])) % 2), b[1],
     Reduced(b[2], (GridSum(b[2]) + GridSum(b[3])) % 2), b[3]]
  }

  /** Entry (k, m) of each quarter's coefficients. */
  function Four(b: seq<seq<seq<int>>>, k: nat, m: nat): (c: seq<int>)
    requires FourGrids(b) && k < 8 && m < 8
    ensures |c| == 4
  {
    [Transform8(b[0])[k][m], Transform8(b[1])[k][m], Transform8(b[2])[k][m], Transform8(b[3])[k][m]]
  }

  /** The last stage with divisor n gives the same for both. */
  ghost predicate SameMixed(c: seq<int>, d: seq<int>, n: nat)
    requires |c| == |d| == 4 && n > 0
  {
    forall q: nat :: q < 4 ==> Mixed(q, c[0], c[1], c[2], c[3], n) == Mixed(q, d[0], d[1], d[2], d[3], n)
  }

  predicate SameKept(c: seq<int>, d: seq<int>)
    requires |c| == |d| == 4
  {
    && c[1] == d[1] && c[3] == d[3]
    && c[0] - (c[0] + c[1]) % 2 == d[0] - (d[0] + d[1]) % 2
    && c[2] - (c[2] + c[3]) % 2 == d[2] - (d[2] + d[3]) % 2
  }

  lemma FourParity(b: seq<seq<seq<int>>>, k: nat, m: nat)
    requires FourGrids(b) && k < 8 && m < 8
    ensures var c := Four(b, k, m);
      && (c[0] + c[1]) % 2 == (GridSum(b[0]) + GridSum(b[1])) % 2
      && (c[2] + c[3]) % 2 == (GridSum(b[2]) + GridSum(b[3])) % 2
  {
    hide Transform8, GridSum;
    TransformParity(b[0], k, m);
    TransformParity(b[1], k, m);
    TransformParity(b[2], k, m);
    TransformParity(b[3], k, m);
  }

  /** Over all coefficients, what the last stage keeps is what Kept16 keeps of the block. */
  lemma KeptIff(b: seq<seq<seq<int>>>, d: seq<seq<seq<int>>>)
    requires FourGrids(b) && FourGrids(d)
    ensures Kept16(b) == Kept16(d)
      <==> forall k, m :: 0 <= k < 8 && 0 <= m < 8 ==> SameKept(Four(b, k, m), Four(d, k, m))
  {
    hide Transform8, GridSum, Reduced;
    var p, q := (GridSum(b[0]) + GridSum(b[1])) % 2, (GridSum(d[0]) + GridSum(d[1])) % 2;
    var p', q' := (GridSum(b[2]) + GridSum(b[3])) % 2, (GridSum(d[2]) + GridSum(d[3])) % 2;
    ReducedInjective(b[0], p, d[0], q);
    ReducedInjective(b[2], p', d[2], q');
    TransformInjective(b[1], d[1]);
    TransformInjective(b[3], d[3]);
    GridsEqual(Transform8(b[1]), Transform8(d[1]));
    GridsEqual(Transform8(b[3]), Transform8(d[3]));
    KeptParts(b, d);
    forall k, m | 0 <= k < 8 && 0 <= m < 8
      ensures SameKept(Four(b, k, m), Four(d, k, m)) <==>
        && Transform8(b[1])[k][m] == Transform8(d[1])[k][m] && Transform8(b[3])[k][m] == Transform8(d[3])[k][m]
        && Transform8(b[0])[k][m] - p == Transform8(d[0])[k][m] - q
        && Transform8(b[2])[k][m] - p' == Transform8(d[2])[k][m] - q'
    {
      FourParity(b, k, m);
      FourParity(d, k, m);
    }
  }

  lemma KeptParts(b: seq<seq<seq<int>>>, d: seq<seq<seq<int>>>)
    requires FourGrids(b) && FourGrids(d)
    ensures Kept16(b) == Kept16(d) <==>
      && Reduced(b[0], (GridSum(b[0]) + GridSum(b[1])) % 2) == Reduced(d[0], (GridSum(d[0]) + GridSum(d[1])) % 2)
      && b[1] == d[1]
      && Reduced(b[2], (GridSum(b[2]) + GridSum(b[3])) % 2) == Reduced(d[2], (GridSum(d[2]) + GridSum(d[3])) % 2)
      && b[3] == d[3]
  {
    hide GridSum, Reduced;
    var x, y := Kept16(b), Kept16(d);
    assert x == y ==> x[0] == y[0] && x[1] == y[1] && x[2] == y[2] && x[3] == y[3];
  }

  lemma FlatAt(g: seq<seq<int>>, k: nat, m: nat)
    requires Grid(g) && k < 8 && m < 8
    ensures Flat(g)[8 * k + m] == g[k][m]
  {}

  /** The 256 coefficients, seen as the mixtures of 64 quadruples. */
  lemma CoefficientsAre(s: seq<int>, off: int, stride: int, q: nat, k: nat, m: nat)
    requires Fits16(s, off, stride) && q < 4 && k < 8 && m < 8
    ensures var c := Four(Quarters(s, off, stride), k, m);
      Coefficients16(s, off, stride)[Place(q, k, m)] == Mixed(q, c[0], c[1], c[2], c[3], 2)
  {
    hide Transform8, Columns, Mixed, Flat;
    var b := Quarters(s, off, stride);
    FlatAt(Transform8(b[0]), k, m);
    FlatAt(Transform8(b[1]), k, m);
    FlatAt(Transform8(b[2]), k, m);
    FlatAt(Transform8(b[3]), k, m);
  }

  /**
   Exactly which blocks the 16x16 transform cannot tell apart: those that agree
   once each half has given up the parity of its sum.
   */
  lemma SixteenCollideIff(s: seq<int>, off: int, stride: int, t: seq<int>, off': int, stride': int)
    requires Fits16(s, off, stride) && Fits16(t, off', stride')
    ensures Coefficients16(s, off, stride) == Coefficients16(t, off', stride')
      <==> Kept16(Quarters(s, off, stride)) == Kept16(Quarters(t, off', stride'))
  {
    hide Quarters, Coefficients16, Kept16, Four, SameKept, SameMixed, SamePlaces, Place;
    var b, d := Quarters(s, off, stride), Quarters(t, off', stride');
    forall k, m | 0 <= k < 8 && 0 <= m < 8
      ensures SameKept(Four(b, k, m), Four(d, k, m))
        <==> SamePlaces(Coefficients16(s, off, stride), Coefficients16(t, off', stride'), k, m)
    {
      MixedIff(Four(b, k, m), Four(d, k, m));
      PlacesIff(s, off, stride, t, off', stride', k, m);
    }
    KeptIff(b, d);
    AllPlaces(Coefficients16(s, off, stride), Coefficients16(t, off', stride'));
  }

  /** Where coefficient (k, m) of quarter q is. */
  function Place(q: nat, k: nat, m: nat): nat {
    64 * q + 8 * k + m
  }

  ghost predicate SamePlaces(x: seq<int>, y: seq<int>, k: nat, m: nat)
    requires |x| == |y| == 256 && k < 8 && m < 8
  {
    forall q: nat :: q < 4 ==> x[Place(q, k, m)] == y[Place(q, k, m)]
  }

  lemma AllPlaces(x: seq<int>, y: seq<int>)
    requires |x| == |y| == 256
    ensures x == y <==> forall k, m :: 0 <= k < 8 && 0 <= m < 8 ==> SamePlaces(x, y, k, m)
  {
    if forall k, m :: 0 <= k < 8 && 0 <= m < 8 ==> SamePlaces(x, y, k, m) {
      forall i | 0 <= i < 256
        ensures x[i] == y[i]
      {
        assert SamePlaces(x, y, i % 64 / 8, i % 8);
        assert i == Place(i / 64, i % 64 / 8, i % 8);
      }
    }
  }

  lemma PlacesIff(s: seq<int>, off: int, stride: int, t: seq<int>, off': int, stride': int, k: nat, m: nat)
    requires Fits16(s, off, stride) && Fits16(t, off', stride') && k < 8 && m < 8
    ensures SamePlaces(Coefficients16(s, off, stride), Coefficients16(t, off', stride'), k, m)
      <==> SameMixed(Four(Quarters(s, off, stride), k, m), Four(Quarters(t, off', stride'), k, m), 2)
  {
    hide Quarters, Coefficients16, Mixed, Four, Place;
    PlacesInRange(k, m);
    forall q: nat | q < 4
      ensures var c, e := Four(Quarters(s, off, stride), k, m), Four(Quarters(t, off', stride'), k, m);
        && Coefficients16(s, off, stride)[Place(q, k, m)] == Mixed(q, c[0], c[1], c[2], c[3], 2)
        && Coefficients16(t, off', stride')[Place(q, k, m)] == Mixed(q, e[0], e[1], e[2], e[3], 2)
    {
      CoefficientsAre(s, off, stride, q, k, m);
      CoefficientsAre(t, off', stride', q, k, m);
    }
  }

  lemma PlacesInRange(k: nat, m: nat)
    requires k < 8 && m < 8
    ensures forall q: nat :: q < 4 ==> Place(q, k, m) < 256
  {}

  lemma MixedIff(c: seq<int>, d: seq<int>)
    requires |c| == |d| == 4
    ensures SameMixed(c, d, 2) <==> SameKept(c, d)
  {
    hide Mixed;
    HalvingLosesOneBit(c, d);
  }

  // ---- Which 32x32 blocks collide ----

  /** The sums and the differences agree but for their lowest two bits. */
  predicate SameAbove(a0: int, a1: int, c0: int, c1: int) {
    && (a0 + a1) - (a0 + a1) % 4 == (c0 + c1) - (c0 + c1) % 4
    && (a0 - a1) - (a0 - a1) % 4 == (c0 - c1) - (c0 - c1) % 4
  }

  predicate SameFour(a: seq<int>, c: seq<int>)
    requires |a| == |c| == 4
  {
    SameAbove(a[0], a[1], c[0], c[1]) && SameAbove(a[2], a[3], c[2], c[3])
  }

  /** Two inputs of the 32x32 stage give the same outputs exactly when their pairs agree so. */
  lemma QuarteringKeeps(a: seq<int>, c: seq<int>)
    requires |a| == |c| == 4
    ensures SameMixed(a, c, 4) <==> SameFour(a, c)
  {
    if SameMixed(a, c, 4) {
      assert Mixed(0, a[0], a[1], a[2], a[3], 4) == Mixed(0, c[0], c[1], c[2], c[3], 4);
      assert Mixed(1, a[0], a[1], a[2], a[3], 4) == Mixed(1, c[0], c[1], c[2], c[3], 4);
      assert Mixed(2, a[0], a[1], a[2], a[3], 4) == Mixed(2, c[0], c[1], c[2], c[3], 4);
      assert Mixed(3, a[0], a[1], a[2], a[3], 4) == Mixed(3, c[0], c[1], c[2], c[3], 4);
    }
  }

  /** A pair has eight that agree with it, itself among them: three bits are lost. */
  predicate OneOfEight(d0: int, d1: int) {
    || (d0 == 0 && d1 == 0) || (d0 == 3 && d1 == 0)
    || (d0 == 1 && -1 <= d1 <= 1) || (d0 == 2 && -1 <= d1 <= 1)
  }

  lemma QuarteringLosesThreeBits(a0: int, a1: int, c0: int, c1: int)
    ensures var p, q := (a0 + a1) / 4, (a0 - a1) / 4;
      SameAbove(a0, a1, c0, c1) <==> OneOfEight(c0 - 2 * (p + q), c1 - 2 * (p - q))
  {
    var p, q := (a0 + a1) / 4, (a0 - a1) / 4;
    SameQuotient(a0 + a1, c0 + c1);
    SameQuotient(a0 - a1, c0 - c1);
    EightPairs(c0 - 2 * (p + q), c1 - 2 * (p - q));
    QuotientIs(c0 + c1, p);
    QuotientIs(c0 - c1, q);
  }

  lemma SameQuotient(x: int, y: int)
    ensures x - x % 4 == y - y % 4 <==> x / 4 == y / 4
  {}

  lemma QuotientIs(x: int, p: int)
    ensures x / 4 == p <==> 0 <= x - 4 * p < 4
  {}

  lemma EightPairs(d0: int, d1: int)
    ensures OneOfEight(d0, d1) <==> 0 <= d0 + d1 < 4 && 0 <= d0 - d1 < 4
  {}

  /** Coefficient i of the four 16x16 quarters. */
  function FourOf16(s: seq<int>, off: int, stride: int, i: nat): (a: seq<int>)
    requires Fits32(s, off, stride) && i < 256
    ensures |a| == 4
  {
    QuartersFit16(s, off, stride);
    [Coefficients16(s, Quarter16(off, stride, 0), stride)[i], Coefficients16(s, Quarter16(off, stride, 1), stride)[i],
     Coefficients16(s, Quarter16(off, stride, 2), stride)[i], Coefficients16(s, Quarter16(off, stride, 3), stride)[i]]
  }

  /** Where coefficient i of quarter q is. */
  function Place32(q: nat, i: nat): nat {
    256 * q + i
  }

  lemma CoefficientsAre32(s: seq<int>, off: int, stride: int, q: nat, i: nat)
    requires Fits32(s, off, stride) && q < 4 && i < 256
    ensures var a := FourOf16(s, off, stride, i);
      MixedAt(Coefficients32(s, off, stride), a, q, i)
  {
    hide Coefficients16, Mixed;
    QuartersFit16(s, off, stride);
  }

  ghost predicate SamePlaces32(x: seq<int>, y: seq<int>, i: nat)
    requires |x| == |y| == 1024 && i < 256
  {
    forall q: nat :: q < 4 ==> x[Place32(q, i)] == y[Place32(q, i)]
  }

  lemma AllPlaces32(x: seq<int>, y: seq<int>)
    requires |x| == |y| == 1024
    ensures x == y <==> forall i :: 0 <= i < 256 ==> SamePlaces32(x, y, i)
  {
    if forall i :: 0 <= i < 256 ==> SamePlaces32(x, y, i) {
      forall j | 0 <= j < 1024
        ensures x[j] == y[j]
      {
        assert SamePlaces32(x, y, j % 256);
        assert j == Place32(j / 256, j % 256);
      }
    }
  }

  /** Which blocks the 32x32 stage cannot tell apart, by the coefficients of their quarters. */
  lemma ThirtyTwoCollideIff(s: seq<int>, off: int, stride: int, t: seq<int>, off': int, stride': int)
    requires Fits32(s, off, stride) && Fits32(t, off', stride')
    ensures Coefficients32(s, off, stride) == Coefficients32(t, off', stride')
      <==> forall i :: 0 <= i < 256 ==> SameFour(FourOf16(s, off, stride, i), FourOf16(t, off', stride', i))
  {
    hide Coefficients32, FourOf16, SameFour, SamePlaces32, SameMixed, MixedAt, Fits32;
    var x, y := Coefficients32(s, off, stride), Coefficients32(t, off', stride');
    forall i | 0 <= i < 256
      ensures SameFour(FourOf16(s, off, stride, i), FourOf16(t, off', stride', i)) <==> SamePlaces32(x, y, i)
    {
      var a, c := FourOf16(s, off, stride, i), FourOf16(t, off', stride', i);
      QuarteringKeeps(a, c);
      forall q: nat | q < 4
        ensures MixedAt(x, a, q, i) && MixedAt(y, c, q, i)
      {
        CoefficientsAre32(s, off, stride, q, i);
        CoefficientsAre32(t, off', stride', q, i);
      }
      SameAtPlaces(x, y, a, c, i);
    }
    AllPlaces32(x, y);
  }

  predicate MixedAt(x: seq<int>, a: seq<int>, q: nat, i: nat)
    requires |x| == 1024 && |a| == 4 && q < 4 && i < 256
  {
    x[Place32(q, i)] == Mixed(q, a[0], a[1], a[2], a[3], 4)
  }

  lemma SameAtPlaces(x: seq<int>, y: seq<int>, a: seq<int>, c: seq<int>, i: nat)
    requires |x| == |y| == 1024 && |a| == |c| == 4 && i < 256
    requires forall q: nat :: q < 4 ==> MixedAt(x, a, q, i) && MixedAt(y, c, q, i)
    ensures SamePlaces32(x, y, i) <==> SameMixed(a, c, 4)
  {
    hide Mixed;
    if SamePlaces32(x, y, i) {
      forall q: nat | q < 4
        ensures Mixed(q, a[0], a[1], a[2], a[3], 4) == Mixed(q, c[0], c[1], c[2], c[3], 4)
      {
        assert MixedAt(x, a, q, i) && MixedAt(y, c, q, i) && x[Place32(q, i)] == y[Place32(q, i)];
      }
    }
    if SameMixed(a, c, 4) {
      forall q: nat | q < 4
        ensures x[Place32(q, i)] == y[Place32(q, i)]
      {
        assert MixedAt(x, a, q, i) && MixedAt(y, c, q, i);
      }
    }
  }

  /** A 32x32 block that is x in its first place has the coefficient x / 8 everywhere: 0 for x from 0 to 7. */
  lemma ThirtyTwoOfImpulse(s: seq<int>, i: nat)
    requires |s| == 1024 && i < 1024 && forall j :: 1 <= j < 1024 ==> s[j] == 0
    ensures Coefficients32(s, 0, 32)[i] == s[0] / 8
  {
    hide Coefficients16;
    QuartersFit16(s, 0, 32);
    SixteenOfImpulse(s, Quarter16(0, 32, 0), 32, i % 256, s[0]);
    SixteenOfImpulse(s, Quarter16(0, 32, 1), 32, i % 256, 0);
    SixteenOfImpulse(s, Quarter16(0, 32, 2), 32, i % 256, 0);
    SixteenOfImpulse(s, Quarter16(0, 32, 3), 32, i % 256, 0);
  }

  // ---- Bounds of the larger transforms ----

  predicate Input8(s: seq<int>, off: int, stride: int) {
    Fits8(s, off, stride) && Bounded(Columns(s, off, stride), INPUT_BOUND)
  }

  predicate Input16(s: seq<int>, off: int, stride: int) {
    Fits16(s, off, stride) && forall q :: 0 <= q < 4 ==> Input8(s, Quarter8(off, stride, q), stride)
  }

  predicate Input32(s: seq<int>, off: int, stride: int) {
    Fits32(s, off, stride) && forall q :: 0 <= q < 4 ==> Input16(s, Quarter16(off, stride, q), stride)
  }

  lemma Coefficients8Bounded(s: seq<int>, off: int, stride: int)
    requires Input8(s, off, stride)
    ensures LineBounded(Coefficients8(s, off, stride), BOUND_8)
  {
    hide Transform8, Columns;
    var g := Transform8(Columns(s, off, stride));
    TransformBounded(Columns(s, off, stride));
    var t := Flat(g);
    forall i | 0 <= i < 64
      ensures -BOUND_8 <= t[i] <= BOUND_8
    {
      assert LineBounded(g[i / 8], BOUND_8);
    }
  }

  /** Halving or quartering the sums of values within a suitable bound. */
  lemma CombinedBounded(a0: seq<int>, a1: seq<int>, a2: seq<int>, a3: seq<int>, d: nat, b: nat)
    requires |a0| == |a1| == |a2| == |a3| && d > 0
    requires LineBounded(a0, d * b) && LineBounded(a1, d * b) && LineBounded(a2, d * b) && LineBounded(a3, d * b)
    ensures LineBounded(Combined(a0, a1, a2, a3, d), 4 * b)
  {
    hide Mixed;
    forall q, i | 0 <= q < 4 && 0 <= i < |a0|
      ensures -4 * b <= Mixed(q, a0[i], a1[i], a2[i], a3[i], d) <= 4 * b
    {
      MixedBounded(q, a0[i], a1[i], a2[i], a3[i], d, b);
    }
    QuarterBounded(0, a0, a1, a2, a3, d, 4 * b);
    QuarterBounded(1, a0, a1, a2, a3, d, 4 * b);
    QuarterBounded(2, a0, a1, a2, a3, d, 4 * b);
    QuarterBounded(3, a0, a1, a2, a3, d, 4 * b);
  }

  lemma QuarterBounded(q: nat, a0: seq<int>, a1: seq<int>, a2: seq<int>, a3: seq<int>, d: nat, b: nat)
    requires |a0| == |a1| == |a2| == |a3| && d > 0
    requires forall i :: 0 <= i < |a0| ==> -(b as int) <= Mixed(q, a0[i], a1[i], a2[i], a3[i], d) <= b
    ensures LineBounded(MixedQuarter(q, a0, a1, a2, a3, d), b)
  {}

  lemma MixedBounded(q: nat, a0: int, a1: int, a2: int, a3: int, d: nat, b: nat)
    requires d > 0
    requires -(d * b) <= a0 <= d * b && -(d * b) <= a1 <= d * b && -(d * b) <= a2 <= d * b && -(d * b) <= a3 <= d * b
    ensures -4 * b <= Mixed(q, a0, a1, a2, a3, d) <= 4 * b
  {
    DistributeSum(b, b, d);
    QuotientBounded(a0 + a1, d, 2 * b);
    QuotientBounded(a0 - a1, d, 2 * b);
    QuotientBounded(a2 + a3, d, 2 * b);
    QuotientBounded(a2 - a3, d, 2 * b);
  }

  lemma QuotientBounded(x: int, d: nat, b: nat)
    requires d > 0 && -(d * b) <= x <= d * b
    ensures -(b as int) <= x / d <= b
  {
    if x / d > b {
      MulMono(b + 1, x / d, d);
    }
    if x / d < -(b as int) {
      MulMono(x / d, -(b as int) - 1, d);
    }
  }

  lemma Coefficients16Bounded(s: seq<int>, off: int, stride: int)
    requires Input16(s, off, stride)
    ensures LineBounded(Coefficients16(s, off, stride), BOUND_16)
  {
    hide Coefficients8, LineBounded, Input8, Combined;
    forall q | 0 <= q < 4
      ensures LineBounded(Coefficients8(s, Quarter8(off, stride, q), stride), BOUND_8)
    {
      Coefficients8Bounded(s, Quarter8(off, stride, q), stride);
    }
    CombinedBounded(Coefficients8(s, Quarter8(off, stride, 0), stride),
                    Coefficients8(s, Quarter8(off, stride, 1), stride),
                    Coefficients8(s, Quarter8(off, stride, 2), stride),
                    Coefficients8(s, Quarter8(off, stride, 3), stride),
                    2, BOUND_8 / 2);
  }

  lemma Coefficients32Bounded(s: seq<int>, off: int, stride: int)
    requires Input32(s, off, stride)
    ensures LineBounded(Coefficients32(s, off, stride), BOUND_16)
  {
    hide Coefficients16, LineBounded, Input16, Combined;
    forall q | 0 <= q < 4
      ensures LineBounded(Coefficients16(s, Quarter16(off, stride, q), stride), BOUND_16)
    {
      Coefficients16Bounded(s, Quarter16(off, stride, q), stride);
    }
    CombinedBounded(Coefficients16(s, Quarter16(off, stride, 0), stride),
                    Coefficients16(s, Quarter16(off, stride, 1), stride),
                    Coefficients16(s, Quarter16(off, stride, 2), stride),
                    Coefficients16(s, Quarter16(off, stride, 3), stride),
                    4, BOUND_16 / 4);
  }

  // ---- The methods ----

  /** s with the numbers from at on replaced by t. */
  function Patched(s: seq<int>, at: nat, t: seq<int>): (r: seq<int>)
    requires at + |t| <= |s|
    ensures |r| == |s|
  {
    s[..at] + t + s[at + |t|..]
  }

  /** The butterflies in 16 bits: nothing overflows. */
  method Butterfly16(v: seq<Int16>) returns (y: seq<Int16>)
    requires Line(v) && LineBounded(v, INPUT_BOUND)
    ensures y == Spectrum(v)
  {
    hide Walsh, Spectrum;
    SpectrumIs(v);
    Butterflies(v);
    var b0: Int16, b1: Int16, b2: Int16, b3: Int16 := v[0] + v[1], v[0] - v[1], v[2] + v[3], v[2] - v[3];
    var b4: Int16, b5: Int16, b6: Int16, b7: Int16 := v[4] + v[5], v[4] - v[5], v[6] + v[7], v[6] - v[7];
    var c0: Int16, c1: Int16, c2: Int16, c3: Int16 := b0 + b2, b1 + b3, b0 - b2, b1 - b3;
    var c4: Int16, c5: Int16, c6: Int16, c7: Int16 := b4 + b6, b5 + b7, b4 - b6, b5 - b7;
    y := [c0 + c4, c2 - c6, c0 - c4, c2 + c6, c3 + c7, c3 - c7, c1 - c5, c1 + c5];
  }

  /** The butterflies in 32 bits, of any 16-bit numbers. */
  method Butterfly32(u: seq<Int16>) returns (y: seq<Int32>)
    requires Line(u)
    ensures y == Spectrum(u)
  {
    hide Walsh, Spectrum;
    var v: seq<Int32> := u;
    SpectrumIs(v);
    Butterflies(v);
    var b0: Int32, b1: Int32, b2: Int32, b3: Int32 := v[0] + v[1], v[0] - v[1], v[2] + v[3], v[2] - v[3];
    var b4: Int32, b5: Int32, b6: Int32, b7: Int32 := v[4] + v[5], v[4] - v[5], v[6] + v[7], v[6] - v[7];
    var c0: Int32, c1: Int32, c2: Int32, c3: Int32 := b0 + b2, b1 + b3, b0 - b2, b1 - b3;
    var c4: Int32, c5: Int32, c6: Int32, c7: Int32 := b4 + b6, b5 + b7, b4 - b6, b5 - b7;
    y := [c0 + c4, c2 - c6, c0 - c4, c2 + c6, c3 + c7, c3 - c7, c1 - c5, c1 + c5];
  }

  /** hadamard_highbd_col8_first_pass */
  method FirstPass(src: array<Int16>, base: int, stride: int, coeff: array<Int16>, at: nat)
    requires src != coeff && FitsLine(src.Length, base, stride) && at + 8 <= coeff.Length
    requires LineBounded(Strided(src[..], base, stride), INPUT_BOUND)
    modifies coeff
    ensures coeff[..] == Patched(old(coeff[..]), at, Spectrum(Strided(src[..], base, stride)))
  {
    hide Spectrum;
    var y := Butterfly16([src[base], src[base + stride], src[base + 2 * stride], src[base + 3 * stride],
                          src[base + 4 * stride], src[base + 5 * stride], src[base + 6 * stride],
                          src[base + 7 * stride]]);
    forall k | 0 <= k < 8 {
      coeff[at + k] := y[k];
    }
  }

  /** hadamard_highbd_col8_second_pass */
  method SecondPass(src: array<Int16>, base: int, stride: int, coeff: array<Int32>, at: nat)
    requires FitsLine(src.Length, base, stride) && at + 8 <= coeff.Length
    modifies coeff
    ensures coeff[..] == Patched(old(coeff[..]), at, Spectrum(Strided(old(src[..]), base, stride)))
  {
    hide Spectrum;
    var y := Butterfly32([src[base], src[base + stride], src[base + 2 * stride], src[base + 3 * stride],
                          src[base + 4 * stride], src[base + 5 * stride], src[base + 6 * stride],
                          src[base + 7 * stride]]);
    forall k | 0 <= k < 8 {
      coeff[at + k] := y[k];
    }
  }

  /** The first n lines of a buffer. */
  predicate Lines(buf: seq<int>, n: nat, g: seq<seq<int>>)
    requires n <= 8 && |buf| == 64 && Grid(g)
  {
    forall j :: 0 <= j < n ==> buf[8 * j..8 * j + 8] == g[j]
  }

  lemma NoLines(buf: seq<int>, g: seq<seq<int>>)
    requires |buf| == 64 && Grid(g)
    ensures Lines(buf, 0, g)
  {}

  lemma NextLine(buf: seq<int>, n: nat, g: seq<seq<int>>)
    requires n < 8 && |buf| == 64 && Grid(g) && Lines(buf, n, g)
    ensures Lines(Patched(buf, 8 * n, g[n]), n + 1, g)
  {}

  lemma AllLines(buf: seq<int>, g: seq<seq<int>>)
    requires |buf| == 64 && Grid(g) && Lines(buf, 8, g)
    ensures buf == Flat(g)
  {}

  lemma MiddleLine(buf: seq<int>, columns: seq<seq<int>>, k: nat)
    requires Grid(columns) && |buf| == 64 && k < 8 && Lines(buf, 8, Spectra(columns))
    ensures Strided(buf, k, 8) == Transposed(Spectra(columns))[k]
  {}

  lemma ColumnIs(s: seq<int>, off: int, stride: int, j: nat)
    requires Input8(s, off, stride) && j < 8
    ensures Columns(s, off, stride)[j] == Strided(s, off + j, stride)
    ensures LineBounded(Strided(s, off + j, stride), INPUT_BOUND)
  {}

  /** The first pass over all columns, each to a line of the buffer. */
  method ColumnPasses(src: array<Int16>, off: int, stride: int) returns (buffer: array<Int16>)
    requires Input8(src[..], off, stride)
    ensures fresh(buffer) && buffer.Length == 64
    ensures Lines(buffer[..], 8, Spectra(Columns(src[..], off, stride)))
  {
    hide Spectrum, Strided, Columns, Lines, Bounded, LineBounded, Patched;
    ghost var g := Spectra(Columns(src[..], off, stride));
    buffer := new Int16[64];
    NoLines(buffer[..], g);
    for idx := 0 to 8
      invariant unchanged(src) && Lines(buffer[..], idx, g)
    {
      ColumnIs(src[..], off, stride, idx);
      NextLine(buffer[..], idx, g);
      FirstPass(src, off + idx, stride, buffer, 8 * idx);
    }
  }

  /** The second pass, over the columns of the buffer. */
  method RowPasses(buffer: array<Int16>, ghost columns: seq<seq<int>>) returns (buffer2: array<Int32>)
    requires buffer.Length == 64 && Grid(columns) && Lines(buffer[..], 8, Spectra(columns))
    ensures fresh(buffer2) && buffer2.Length == 64
    ensures buffer2[..] == Flat(Transform8(columns))
  {
    hide Spectrum, Strided, Lines, Transposed, Spectra, Flat, Patched;
    ghost var rows := Transposed(Spectra(columns));
    buffer2 := new Int32[64];
    NoLines(buffer2[..], Spectra(rows));
    for idx := 0 to 8
      invariant Lines(buffer2[..], idx, Spectra(rows))
    {
      MiddleLine(buffer[..], columns, idx);
      LineOfSpectra(rows, idx);
      NextLine(buffer2[..], idx, Spectra(rows));
      SecondPass(buffer, idx, 8, buffer2, 8 * idx);
    }
    AllLines(buffer2[..], Spectra(rows));
  }

  lemma LineOfSpectra(g: seq<seq<int>>, j: nat)
    requires Grid(g) && j < 8
    ensures Spectra(g)[j] == Spectrum(g[j])
  {}

  /** avm_highbd_hadamard_8x8_c */
  method Hadamard8x8(src: array<Int16>, off: int, stride: int, coeff: array<Int32>, at: nat)
    requires Input8(src[..], off, stride) && at + 64 <= coeff.Length
    modifies coeff
    ensures coeff[..] == Patched(old(coeff[..]), at, Coefficients8(old(src[..]), off, stride))
  {
    hide Spectrum, Strided, Columns, Lines, Bounded, Flat, Transform8;
    ghost var columns := Columns(src[..], off, stride);
    ghost var t := Flat(Transform8(columns));
    var buffer := ColumnPasses(src, off, stride);
    var buffer2 := RowPasses(buffer, columns);
    assert coeff[..] == Patched(old(coeff[..]), at, t[..0]);
    for idx := 0 to 64
      invariant buffer2[..] == t && coeff[..] == Patched(old(coeff[..]), at, t[..idx])
    {
      coeff[at + idx] := buffer2[idx];
    }
    assert t[..64] == t;
  }

  // ---- 16x16 and 32x32 ----

  /** One butterfly of the last stage. */
  method Mix(a0: Int32, a1: Int32, a2: Int32, a3: Int32, d: nat) returns (r0: Int32, r1: Int32, r2: Int32, r3: Int32)
    requires d == 2 || d == 4
    requires -BOUND_16 <= a0 <= BOUND_16 && -BOUND_16 <= a1 <= BOUND_16
    requires -BOUND_16 <= a2 <= BOUND_16 && -BOUND_16 <= a3 <= BOUND_16
    ensures r0 == Mixed(0, a0, a1, a2, a3, d) && r1 == Mixed(1, a0, a1, a2, a3, d)
    ensures r2 == Mixed(2, a0, a1, a2, a3, d) && r3 == Mixed(3, a0, a1, a2, a3, d)
  {
    var b0: Int32, b1: Int32 := (a0 + a1) / d, (a0 - a1) / d;
    var b2: Int32, b3: Int32 := (a2 + a3) / d, (a2 - a3) / d;
    r0, r1, r2, r3 := b0 + b2, b1 + b3, b0 - b2, b1 - b3;
  }

  /** now holds the first i entries of new from place at on, and was elsewhere up to the end of the quarter. */
  predicate QuarterDone(now: seq<int>, was: seq<int>, at: nat, m: seq<int>, i: nat)
    requires |now| == |was| && at + |m| <= |was|
  {
    forall p :: at <= p < at + |m| ==> now[p] == if p < at + i then m[p - at] else was[p]
  }

  lemma OneMore(now: seq<int>, was: seq<int>, at: nat, m: seq<int>, i: nat, next: seq<int>)
    requires |now| == |was| == |next| && at + |m| <= |was| && i < |m| && QuarterDone(now, was, at, m, i)
    requires forall p :: at <= p < at + |m| && p != at + i ==> next[p] == now[p]
    requires next[at + i] == m[i]
    ensures QuarterDone(next, was, at, m, i + 1)
  {}

  /** Four quarters of n entries from at on, each with its first i entries replaced. */
  ghost predicate QuartersDone(now: seq<int>, was: seq<int>, at: nat, m: seq<seq<int>>, n: nat, i: nat)
    requires |now| == |was| && |m| == 4 && |m[0]| == |m[1]| == |m[2]| == |m[3]| == n && at + 4 * n <= |was|
  {
    && (forall p :: 0 <= p < at || at + 4 * n <= p < |was| ==> now[p] == was[p])
    && QuarterDone(now, was, at, m[0], i) && QuarterDone(now, was, at + n, m[1], i)
    && QuarterDone(now, was, at + 2 * n, m[2], i) && QuarterDone(now, was, at + 3 * n, m[3], i)
  }

  /** The array after one butterfly. */
  function Stored(s: seq<int>, at: nat, n: nat, i: nat, r0: int, r1: int, r2: int, r3: int): (t: seq<int>)
    requires at + 4 * n <= |s| && i < n
    ensures |t| == |s|
  {
    s[at + i := r0][at + n + i := r1][at + 2 * n + i := r2][at + 3 * n + i := r3]
  }

  lemma StoredElsewhere(s: seq<int>, at: nat, n: nat, i: nat, r0: int, r1: int, r2: int, r3: int)
    requires at + 4 * n <= |s| && i < n
    ensures var t := Stored(s, at, n, i, r0, r1, r2, r3);
      && (forall p :: 0 <= p < at || at + 4 * n <= p < |s| ==> t[p] == s[p])
      && (forall p :: at <= p < at + n && p != at + i ==> t[p] == s[p])
      && (forall p :: at + n <= p < at + 2 * n && p != at + n + i ==> t[p] == s[p])
      && (forall p :: at + 2 * n <= p < at + 3 * n && p != at + 2 * n + i ==> t[p] == s[p])
      && (forall p :: at + 3 * n <= p < at + 4 * n && p != at + 3 * n + i ==> t[p] == s[p])
      && t[at + i] == r0 && t[at + n + i] == r1 && t[at + 2 * n + i] == r2 && t[at + 3 * n + i] == r3
  {}

  lemma QuartersStep(now: seq<int>, was: seq<int>, at: nat, m: seq<seq<int>>, n: nat, i: nat)
    requires |now| == |was| && |m| == 4 && |m[0]| == |m[1]| == |m[2]| == |m[3]| == n && at + 4 * n <= |was|
    requires i < n && QuartersDone(now, was, at, m, n, i)
    ensures QuartersDone(Stored(now, at, n, i, m[0][i], m[1][i], m[2][i], m[3][i]), was, at, m, n, i + 1)
  {
    hide QuarterDone, Stored;
    var next := Stored(now, at, n, i, m[0][i], m[1][i], m[2][i], m[3][i]);
    StoredElsewhere(now, at, n, i, m[0][i], m[1][i], m[2][i], m[3][i]);
    OneMore(now, was, at, m[0], i, next);
    OneMore(now, was, at + n, m[1], i, next);
    OneMore(now, was, at + 2 * n, m[2], i, next);
    OneMore(now, was, at + 3 * n, m[3], i, next);
  }

  lemma QuartersStart(was: seq<int>, at: nat, m: seq<seq<int>>, n: nat)
    requires |m| == 4 && |m[0]| == |m[1]| == |m[2]| == |m[3]| == n && at + 4 * n <= |was|
    ensures QuartersDone(was, was, at, m, n, 0)
  {}

  lemma QuartersEnd(now: seq<int>, was: seq<int>, at: nat, m: seq<seq<int>>, n: nat)
    requires |now| == |was| && |m| == 4 && |m[0]| == |m[1]| == |m[2]| == |m[3]| == n && at + 4 * n <= |was|
    requires QuartersDone(now, was, at, m, n, n)
    ensures now == Patched(was, at, m[0] + m[1] + m[2] + m[3])
  {}

  /** Entries not reached yet are as before. */
  lemma QuartersAhead(now: seq<int>, was: seq<int>, at: nat, m: seq<seq<int>>, n: nat, i: nat)
    requires |now| == |was| && |m| == 4 && |m[0]| == |m[1]| == |m[2]| == |m[3]| == n && at + 4 * n <= |was|
    requires i < n && QuartersDone(now, was, at, m, n, i)
    ensures now[at + i] == was[at + i] && now[at + n + i] == was[at + n + i]
    ensures now[at + 2 * n + i] == was[at + 2 * n + i] && now[at + 3 * n + i] == was[at + 3 * n + i]
  {}

  lemma InBound(s: seq<int>, at: nat, n: nat)
    requires at + n <= |s| && LineBounded(s[at..at + n], BOUND_16)
    ensures forall p :: at <= p < at + n ==> -BOUND_16 <= s[p] <= BOUND_16
  {}

  function MixedQuarters(s: seq<int>, at: nat, n: nat, d: nat): (m: seq<seq<int>>)
    requires at + 4 * n <= |s| && d > 0
    ensures |m| == 4 && |m[0]| == |m[1]| == |m[2]| == |m[3]| == n
    ensures m[0] + m[1] + m[2] + m[3]
         == Combined(s[at..at + n], s[at + n..at + 2 * n], s[at + 2 * n..at + 3 * n], s[at + 3 * n..at + 4 * n], d)
  {
    var a0, a1, a2, a3 := s[at..at + n], s[at + n..at + 2 * n], s[at + 2 * n..at + 3 * n], s[at + 3 * n..at + 4 * n];
    [MixedQuarter(0, a0, a1, a2, a3, d), MixedQuarter(1, a0, a1, a2, a3, d),
     MixedQuarter(2, a0, a1, a2, a3, d), MixedQuarter(3, a0, a1, a2, a3, d)]
  }

  lemma MixedQuartersAt(s: seq<int>, at: nat, n: nat, d: nat, i: nat)
    requires at + 4 * n <= |s| && d > 0 && i < n
    ensures var m := MixedQuarters(s, at, n, d);
      forall q :: 0 <= q < 4 ==>
        m[q][i] == Mixed(q, s[at + i], s[at + n + i], s[at + 2 * n + i], s[at + 3 * n + i], d)
  {}

  /** The last stage of both: sums and differences of four quarters of n coefficients, in place. */
  method CombineQuarters(coeff: array<Int32>, at: nat, n: nat, d: nat)
    requires at + 4 * n <= coeff.Length && (d == 2 || d == 4)
    requires LineBounded(coeff[at..at + 4 * n], BOUND_16)
    modifies coeff
    ensures coeff[..] == Patched(old(coeff[..]), at, Combined(old(coeff[at..at + n]), old(coeff[at + n..at + 2 * n]),
                                 old(coeff[at + 2 * n..at + 3 * n]), old(coeff[at + 3 * n..at + 4 * n]), d))
  {
    hide Mixed, Patched, QuartersDone, LineBounded, MixedQuarters, Combined;
    ghost var was := coeff[..];
    ghost var m := MixedQuarters(was, at, n, d);
    InBound(was, at, 4 * n);
    QuartersStart(was, at, m, n);
    for i := 0 to n
      invariant QuartersDone(coeff[..], was, at, m, n, i)
    {
      ghost var now := coeff[..];
      QuartersAhead(now, was, at, m, n, i);
      QuartersStep(now, was, at, m, n, i);
      MixedQuartersAt(was, at, n, d, i);
      var r0, r1, r2, r3 := Mix(coeff[at + i], coeff[at + n + i], coeff[at + 2 * n + i], coeff[at + 3 * n + i], d);
      coeff[at + i] := r0;
      coeff[at + n + i] := r1;
      coeff[at + 2 * n + i] := r2;
      coeff[at + 3 * n + i] := r3;
      assert coeff[..] == Stored(now, at, n, i, r0, r1, r2, r3);
    }
    QuartersEnd(coeff[..], was, at, m, n);
  }

  function Blocks8(s: seq<int>, off: int, stride: int): (t: seq<int>)
    requires Fits16(s, off, stride)
    ensures |t| == 256
  {
    QuartersFit8(s, off, stride);
    Coefficients8(s, Quarter8(off, stride, 0), stride) + Coefficients8(s, Quarter8(off, stride, 1), stride)
    + Coefficients8(s, Quarter8(off, stride, 2), stride) + Coefficients8(s, Quarter8(off, stride, 3), stride)
  }

  function Blocks16(s: seq<int>, off: int, stride: int): (t: seq<int>)
    requires Fits32(s, off, stride)
    ensures |t| == 1024
  {
    QuartersFit16(s, off, stride);
    Coefficients16(s, Quarter16(off, stride, 0), stride) + Coefficients16(s, Quarter16(off, stride, 1), stride)
    + Coefficients16(s, Quarter16(off, stride, 2), stride) + Coefficients16(s, Quarter16(off, stride, 3), stride)
  }

  lemma BlockAt8(s: seq<int>, off: int, stride: int, q: nat)
    requires Input16(s, off, stride) && q < 4
    ensures Input8(s, Quarter8(off, stride, q), stride)
    ensures Blocks8(s, off, stride)[64 * q..64 * q + 64] == Coefficients8(s, Quarter8(off, stride, q), stride)
    ensures LineBounded(Coefficients8(s, Quarter8(off, stride, q), stride), BOUND_8)
  {
    hide Coefficients8, Input8, LineBounded;
    Coefficients8Bounded(s, Quarter8(off, stride, q), stride);
  }

  lemma BlockAt16(s: seq<int>, off: int, stride: int, q: nat)
    requires Input32(s, off, stride) && q < 4
    ensures Input16(s, Quarter16(off, stride, q), stride)
    ensures Blocks16(s, off, stride)[256 * q..256 * q + 256] == Coefficients16(s, Quarter16(off, stride, q), stride)
    ensures LineBounded(Coefficients16(s, Quarter16(off, stride, q), stride), BOUND_16)
  {
    hide Coefficients16, Input16, LineBounded;
    Coefficients16Bounded(s, Quarter16(off, stride, q), stride);
  }

  lemma PatchedMore(s: seq<int>, at: nat, t: seq<int>, u: seq<int>)
    requires at + |t| + |u| <= |s|
    ensures Patched(Patched(s, at, t), at + |t|, u) == Patched(s, at, t + u)
  {}

  lemma PatchedAgain(s: seq<int>, at: nat, t: seq<int>, u: seq<int>)
    requires |t| == |u| && at + |t| <= |s|
    ensures Patched(Patched(s, at, t), at, u) == Patched(s, at, u)
  {}

  lemma PatchedSlice(s: seq<int>, at: nat, t: seq<int>, i: nat, j: nat)
    requires i <= j <= |t| && at + |t| <= |s|
    ensures Patched(s, at, t)[at + i..at + j] == t[i..j]
  {}

  lemma PatchedNothing(s: seq<int>, at: nat, t: seq<int>)
    requires at <= |s| && t == []
    ensures Patched(s, at, t) == s
  {}

  /** The last stage over n coefficients a quarter gives t. */
  predicate CombinesTo(s: seq<int>, at: nat, n: nat, d: nat, t: seq<int>)
    requires at + 4 * n <= |s| && d > 0
  {
    && LineBounded(s[at..at + 4 * n], BOUND_16)
    && Combined(s[at..at + n], s[at + n..at + 2 * n], s[at + 2 * n..at + 3 * n], s[at + 3 * n..at + 4 * n], d) == t
  }

  /** avm_highbd_hadamard_16x16_c */
  method Hadamard16x16(src: array<Int16>, off: int, stride: int, coeff: array<Int32>, at: nat)
    requires Input16(src[..], off, stride) && at + 256 <= coeff.Length
    modifies coeff
    ensures coeff[..] == Patched(old(coeff[..]), at, Coefficients16(old(src[..]), off, stride))
  {
    hide Coefficients8, Input8, Blocks8, LineBounded, Patched;
    ghost var s := src[..];
    ghost var was := coeff[..];
    ghost var all := Blocks8(s, off, stride);
    PatchedNothing(was, at, all[..0]);
    for idx := 0 to 4
      invariant src[..] == s && coeff[..] == Patched(was, at, all[..64 * idx])
    {
      BlockAt8(s, off, stride, idx);
      PatchedMore(was, at, all[..64 * idx], all[64 * idx..64 * idx + 64]);
      assert all[..64 * idx] + all[64 * idx..64 * idx + 64] == all[..64 * (idx + 1)];
      Hadamard8x8(src, off + (if idx / 2 == 1 then 8 * stride else 0) + (if idx % 2 == 1 then 8 else 0), stride,
                  coeff, at + 64 * idx);
    }
    assert all[..256] == all;
    Last16(s, off, stride, was, at);
    CombineQuarters(coeff, at, 64, 2);
    PatchedAgain(was, at, all, Coefficients16(s, off, stride));
  }

  /** What the last stage finds after the four 8x8 transforms. */
  lemma Last16(s: seq<int>, off: int, stride: int, was: seq<int>, at: nat)
    requires Input16(s, off, stride) && at + 256 <= |was|
    ensures CombinesTo(Patched(was, at, Blocks8(s, off, stride)), at, 64, 2, Coefficients16(s, off, stride))
  {
    hide Coefficients8, Input8, Patched, Combined, Blocks8;
    var all := Blocks8(s, off, stride);
    forall q | 0 <= q < 4
      ensures Patched(was, at, all)[at + 64 * q..at + 64 * q + 64] == Coefficients8(s, Quarter8(off, stride, q), stride)
      ensures LineBounded(all[64 * q..64 * q + 64], BOUND_16)
    {
      BlockAt8(s, off, stride, q);
      PatchedSlice(was, at, all, 64 * q, 64 * q + 64);
    }
    PatchedSlice(was, at, all, 0, 256);
    assert all[0..256] == all;
    forall i | 0 <= i < 256
      ensures -BOUND_16 <= all[i] <= BOUND_16
    {
      var q := i / 64;
      assert LineBounded(all[64 * q..64 * q + 64], BOUND_16);
      assert all[i] == all[64 * q..64 * q + 64][i % 64];
    }
  }

  /** avm_highbd_hadamard_32x32_c */
  method Hadamard32x32(src: array<Int16>, off: int, stride: int, coeff: array<Int32>, at: nat)
    requires Input32(src[..], off, stride) && at + 1024 <= coeff.Length
    modifies coeff
    ensures coeff[..] == Patched(old(coeff[..]), at, Coefficients32(old(src[..]), off, stride))
  {
    hide Coefficients16, Input16, Blocks16, LineBounded, Patched;
    ghost var s := src[..];
    ghost var was := coeff[..];
    ghost var all := Blocks16(s, off, stride);
    PatchedNothing(was, at, all[..0]);
    for idx := 0 to 4
      invariant src[..] == s && coeff[..] == Patched(was, at, all[..256 * idx])
    {
      BlockAt16(s, off, stride, idx);
      PatchedMore(was, at, all[..256 * idx], all[256 * idx..256 * idx + 256]);
      assert all[..256 * idx] + all[256 * idx..256 * idx + 256] == all[..256 * (idx + 1)];
      Hadamard16x16(src, off + (if idx / 2 == 1 then 16 * stride else 0) + (if idx % 2 == 1 then 16 else 0), stride,
                  coeff, at + 256 * idx);
    }
    assert all[..1024] == all;
    Last32(s, off, stride, was, at);
    CombineQuarters(coeff, at, 256, 4);
    PatchedAgain(was, at, all, Coefficients32(s, off, stride));
  }

  /** What the last stage finds after the four 16x16 transforms. */
  lemma Last32(s: seq<int>, off: int, stride: int, was: seq<int>, at: nat)
    requires Input32(s, off, stride) && at + 1024 <= |was|
    ensures CombinesTo(Patched(was, at, Blocks16(s, off, stride)), at, 256, 4, Coefficients32(s, off, stride))
  {
    hide Coefficients16, Input16, Patched, Combined, Blocks16;
    var all := Blocks16(s, off, stride);
    forall q | 0 <= q < 4
      ensures Patched(was, at, all)[at + 256 * q..at + 256 * q + 256]
        == Coefficients16(s, Quarter16(off, stride, q), stride)
      ensures LineBounded(all[256 * q..256 * q + 256], BOUND_16)
    {
      BlockAt16(s, off, stride, q);
      PatchedSlice(was, at, all, 256 * q, 256 * q + 256);
    }
    PatchedSlice(was, at, all, 0, 1024);
    assert all[0..1024] == all;
    forall i | 0 <= i < 1024
      ensures -BOUND_16 <= all[i] <= BOUND_16
    {
      var q := i / 256;
      assert LineBounded(all[256 * q..256 * q + 256], BOUND_16);
      assert all[i] == all[256 * q..256 * q + 256][i % 256];
    }
  }
}
