/**
 Two-pass scaled convolution (avm_dsp/avm_convolve.c): horizontal filtering into
 a fixed scratch buffer, then vertical filtering out of it.

 Pixels have at most 12 bits, the largest bit depth the clipping knows.
 */
module ScaledConvolve {
  import opened MachineInts
  import opened Powers

  type Pixel = x: int | 0 <= x <= 4095
  type Tap = x: int | -0x8000 <= x < 0x8000

  const TAPS := 8
  const TEMP_STRIDE := 64
  const TEMP_ROWS := 135

  /** A filter for each of the 16 sub-pixel positions. */
  predicate Kernels(filters: seq<seq<Tap>>) {
    |filters| == 16 && forall i :: 0 <= i < 16 ==> |filters[i]| == 8
  }

  /** Rows of pixels, each w wide. */
  predicate Image(img: seq<seq<Pixel>>, w: nat) {
    forall r :: 0 <= r < |img| ==> |img[r]| == w
  }

  // ---- The filters ----

  function MaxPixel(bd: int): Pixel {
    if bd == 10 then 1023 else if bd == 12 then 4095 else 255
  }

  /** clip_pixel_highbd */
  function ClipPixel(v: int, bd: int): Pixel {
    if v < 0 then 0 else if v > MaxPixel(bd) then MaxPixel(bd) else v
  }

  /** ROUND_POWER_OF_TWO with FILTER_BITS, on any int: the shift rounds down. */
  function Rounded(sum: int): int {
    (sum + 64) / 128
  }

  /** The first n products. */
  function Dot(v: seq<int>, f: seq<int>, n: nat): int
    requires n <= |v| && n <= |f|
  {
    if n == 0 then 0 else Dot(v, f, n - 1) + Product(v[n - 1], f[n - 1])
  }

  function Product(x: int, y: int): int {
    x * y
  }

  lemma ProductBounded(x: Pixel, y: Tap)
    ensures -0x0800_0000 <= Product(x, y) <= 0x0800_0000
  {
    var z: int := y;
    if z >= 0 {
      MulMono(x, 4095, z);
    } else {
      MulMono(x, 4095, -z);
    }
  }

  function Filtered(v: seq<Pixel>, f: seq<Tap>, bd: int): Pixel
    requires |v| == 8 && |f| == 8
  {
    ClipPixel(Rounded(Dot(v, f, 8)), bd)
  }

  // ---- The image the two passes define ----

  datatype View = View(off: int, stride: int)

  function Cell(v: View, r: int, c: int): int {
    v.off + r * v.stride + c
  }

  /** Position in sixteenths of a pixel of sample i. */
  function Position(q0: int, step: int, i: nat): int {
    q0 + i * step
  }

  function Whole(q: int): int {
    q / 16
  }

  function Fraction(q: int): (f: nat)
    ensures f < 16
  {
    q % 16
  }

  /** Where the eight samples under the filter for (r, x) start. */
  function WindowStart(v: View, x0: int, xStep: int, r: int, x: nat): int {
    Cell(v, r, Whole(Position(x0, xStep, x)) - 3)
  }

  /** All samples that the horizontal filter looks at are there. */
  ghost predicate Readable(len: nat, v: View, x0: int, xStep: int, w: nat, h: int) {
    forall r, x {:trigger WindowStart(v, x0, xStep, r, x)} :: 0 <= r < h && 0 <= x < w ==>
      0 <= WindowStart(v, x0, xStep, r, x) <= len - 8
  }

  function HorizontalPixel(s: seq<Pixel>, v: View, filters: seq<seq<Tap>>, x0: int, xStep: int, bd: int, r: nat,
                           x: nat): Pixel
    requires Kernels(filters) && 0 <= WindowStart(v, x0, xStep, r, x) <= |s| - 8
  {
    var start := WindowStart(v, x0, xStep, r, x);
    Filtered(s[start..start + 8], filters[Fraction(Position(x0, xStep, x))], bd)
  }

  function Horizontal(s: seq<Pixel>, v: View, filters: seq<seq<Tap>>, x0: int, xStep: int, w: nat, h: nat, bd: int):
      (img: seq<seq<Pixel>>)
    requires Kernels(filters) && Readable(|s|, v, x0, xStep, w, h)
    ensures |img| == h && Image(img, w)
  {
    seq(h, r requires 0 <= r < h =>
      seq(w, x requires 0 <= x < w && 0 <= WindowStart(v, x0, xStep, r, x) <= |s| - 8 =>
        HorizontalPixel(s, v, filters, x0, xStep, bd, r, x)))
  }

  /** Eight pixels of a column. */
  function ColumnOf(img: seq<seq<Pixel>>, w: nat, row: nat, x: nat): (v: seq<Pixel>)
    requires Image(img, w) && x < w && row + 8 <= |img|
    ensures |v| == 8
  {
    [img[row][x], img[row + 1][x], img[row + 2][x], img[row + 3][x],
     img[row + 4][x], img[row + 5][x], img[row + 6][x], img[row + 7][x]]
  }

  /** Rows the vertical filter needs for h output rows. */
  function RowsNeeded(y0: int, yStep: int, h: int): int {
    Whole((h - 1) * yStep + y0) + TAPS
  }

  /** Rows the horizontal filter writes: none for a negative count. */
  function RowCount(y0: int, yStep: int, h: int): nat {
    if RowsNeeded(y0, yStep, h) < 0 then 0 else RowsNeeded(y0, yStep, h)
  }

  predicate EnoughRows(rows: nat, y0: int, yStep: int, h: nat) {
    forall y :: 0 <= y < h ==> 0 <= Whole(Position(y0, yStep, y)) <= rows - 8
  }

  function VerticalPixel(img: seq<seq<Pixel>>, filters: seq<seq<Tap>>, y0: int, yStep: int, w: nat, bd: int, y: nat,
                         x: nat): Pixel
    requires Kernels(filters) && Image(img, w) && x < w && 0 <= Whole(Position(y0, yStep, y)) <= |img| - 8
  {
    Filtered(ColumnOf(img, w, Whole(Position(y0, yStep, y)), x), filters[Fraction(Position(y0, yStep, y))], bd)
  }

  function Vertical(img: seq<seq<Pixel>>, filters: seq<seq<Tap>>, y0: int, yStep: int, w: nat, h: nat, bd: int):
      (out: seq<seq<Pixel>>)
    requires Kernels(filters) && Image(img, w) && EnoughRows(|img|, y0, yStep, h)
    ensures |out| == h && Image(out, w)
  {
    seq(h, y requires 0 <= y < h =>
      seq(w, x requires 0 <= x < w && 0 <= Whole(Position(y0, yStep, y)) <= |img| - 8 =>
        VerticalPixel(img, filters, y0, yStep, w, bd, y, x)))
  }

  // ---- Scratch rows ----

  /** The rows needed reach at most 134 of the scratch buffer's 135, and hold every filter window. */
  lemma ScratchSuffices(y0: int, yStep: int, h: nat)
    requires 0 <= y0 <= 15 && 0 <= yStep && h <= 64 && (yStep <= 32 || (yStep <= 64 && h <= 32))
    ensures 4 <= RowsNeeded(y0, yStep, h) == RowCount(y0, yStep, h) <= 134
    ensures EnoughRows(RowCount(y0, yStep, h), y0, yStep, h)
  {
    if h == 0 {
    } else {
      MulMono(h - 1, if yStep <= 32 then 63 else 31, yStep);
      MulMono(0, h - 1, yStep);
    }
    forall y | 0 <= y < h
      ensures 0 <= Whole(Position(y0, yStep, y)) <= RowsNeeded(y0, yStep, h) - 8
    {
      MulMono(0, y, yStep);
      MulMono(y, h - 1, yStep);
    }
  }

  /** Exactly when the rows written hold every window: the first and the last one decide, for steps of either sign. */
  lemma EnoughRowsIff(y0: int, yStep: int, h: nat)
    requires h >= 1
    ensures EnoughRows(RowCount(y0, yStep, h), y0, yStep, h)
      <==> 0 <= Whole(y0) <= Whole(Position(y0, yStep, h - 1))
  {
    hide EnoughRows;
    PositionSteps(y0, yStep, 0);
    if 0 <= Whole(y0) <= Whole(Position(y0, yStep, h - 1)) {
      forall y | 0 <= y < h
        ensures 0 <= Whole(Position(y0, yStep, y)) <= RowCount(y0, yStep, h) - 8
      {
        PositionBetween(y0, yStep, h, y);
      }
      AllWindows(RowCount(y0, yStep, h), y0, yStep, h);
    }
    if EnoughRows(RowCount(y0, yStep, h), y0, yStep, h) {
      FirstAndLast(RowCount(y0, yStep, h), y0, yStep, h);
    }
  }

  lemma AllWindows(rows: nat, y0: int, yStep: int, h: nat)
    requires forall y :: 0 <= y < h ==> 0 <= Whole(Position(y0, yStep, y)) <= rows - 8
    ensures EnoughRows(rows, y0, yStep, h)
  {}

  lemma FirstAndLast(rows: nat, y0: int, yStep: int, h: nat)
    requires h >= 1 && EnoughRows(rows, y0, yStep, h)
    ensures 0 <= Whole(Position(y0, yStep, 0)) <= rows - 8 && 0 <= Whole(Position(y0, yStep, h - 1)) <= rows - 8
  {
    hide Position;
  }

  lemma PositionBetween(y0: int, yStep: int, h: nat, y: nat)
    requires y < h
    ensures if yStep >= 0 then y0 <= Position(y0, yStep, y) <= Position(y0, yStep, h - 1)
      else Position(y0, yStep, h - 1) <= Position(y0, yStep, y) <= y0
  {
    if yStep >= 0 {
      MulMono(y, h - 1, yStep);
      MulMono(0, y, yStep);
    } else {
      MulMono(y, h - 1, -yStep);
      MulMono(0, y, -yStep);
    }
  }

  /** 134 rows are reached, so the bound is exact; 135 rows are one more than any call needs. */
  lemma MostRows()
    ensures RowsNeeded(15, 32, 64) == 134 == TEMP_ROWS - 1 && TEMP_STRIDE * TEMP_ROWS == 64 * 135
  {}

  // ---- Pixels in memory ----

  /** Rows of w pixels a stride apart do not overlap, be they stored upwards or downwards. */
  predicate Apart(v: View, w: nat) {
    v.stride >= w || -v.stride >= w
  }

  /** A w by h rectangle whose rows do not overlap. */
  predicate Fits(len: nat, v: View, w: nat, h: nat) {
    Apart(v, w) && (w > 0 && h > 0 ==> 0 <= Cell(v, 0, 0) <= len - w && 0 <= Cell(v, h - 1, 0) <= len - w)
  }

  lemma CellInRange(len: nat, v: View, w: nat, h: nat, r: nat, c: nat)
    requires Fits(len, v, w, h) && r < h && c < w
    ensures 0 <= Cell(v, r, c) < len
  {
    if v.stride >= 0 {
      MulMono(0, r, v.stride);
      MulMono(r, h - 1, v.stride);
    } else {
      MulMono(0, r, -v.stride);
      MulMono(r, h - 1, -v.stride);
    }
  }

  lemma CellInjective(v: View, w: nat, r: int, c: nat, r': int, c': nat)
    requires Apart(v, w) && c < w && c' < w && Cell(v, r, c) == Cell(v, r', c')
    ensures r == r' && c == c'
  {
    if v.stride >= w {
      QuotientUnique(v.stride, r, c, r', c');
    } else {
      QuotientUnique(-v.stride, -r, c, -r', c');
    }
  }

  /** Which cells have been written: in row order or in column order, up to (y, x). */
  datatype Progress = ByRows(y: nat, x: nat) | ByColumns(x: nat, y: nat)

  predicate Done(done: Progress, r: nat, c: nat) {
    match done
    case ByRows(y, x) => r < y || (r == y && c < x)
    case ByColumns(x, y) => c < x || (c == x && r < y)
  }

  /** The written cells hold the pixels of the image. */
  ghost predicate Shows(now: seq<Pixel>, v: View, img: seq<seq<Pixel>>, w: nat, done: Progress)
    requires Image(img, w)
  {
    forall r, c {:trigger img[r][c]} :: 0 <= r < |img| && 0 <= c < w && Done(done, r, c) ==>
      0 <= Cell(v, r, c) < |now| && now[Cell(v, r, c)] == img[r][c]
  }

  ghost predicate InRectangle(v: View, w: nat, h: nat, p: int) {
    exists r, c :: 0 <= r < h && 0 <= c < w && p == Cell(v, r, c)
  }

  ghost predicate SameElsewhere(now: seq<Pixel>, was: seq<Pixel>, v: View, w: nat, h: nat) {
    |now| == |was| && forall p :: 0 <= p < |now| && !InRectangle(v, w, h, p) ==> now[p] == was[p]
  }

  lemma ShowsNothing(now: seq<Pixel>, v: View, img: seq<seq<Pixel>>, w: nat, h: nat)
    requires Image(img, w)
    ensures Shows(now, v, img, w, ByRows(0, 0)) && Shows(now, v, img, w, ByColumns(0, 0))
    ensures SameElsewhere(now, now, v, w, h)
  {
    assert forall r: nat, c: nat :: !Done(ByRows(0, 0), r, c) && !Done(ByColumns(0, 0), r, c);
  }

  /** A cell that is done under one progress shows its pixel. */
  lemma ShowsAt(now: seq<Pixel>, v: View, img: seq<seq<Pixel>>, w: nat, done: Progress, r: nat, c: nat)
    requires Image(img, w) && Shows(now, v, img, w, done) && r < |img| && c < w && Done(done, r, c)
    ensures 0 <= Cell(v, r, c) < |now| && now[Cell(v, r, c)] == img[r][c]
  {
    hide Cell, Done;
    var pixel := img[r][c];
  }

  lemma ShowsLine(now: seq<Pixel>, v: View, img: seq<seq<Pixel>>, w: nat, done: Progress, next: Progress)
    requires Image(img, w) && Shows(now, v, img, w, done)
    requires done.ByRows? ==> done.x == w && next == ByRows(done.y + 1, 0)
    requires done.ByColumns? ==> done.y == |img| && next == ByColumns(done.x + 1, 0)
    ensures Shows(now, v, img, w, next)
  {
    hide Cell;
    forall r, c | 0 <= r < |img| && 0 <= c < w && Done(next, r, c)
      ensures 0 <= Cell(v, r, c) < |now| && now[Cell(v, r, c)] == img[r][c]
    {
      ShowsAt(now, v, img, w, done, r, c);
    }
  }

  /** Writing the pixel of the next cell. */
  lemma ShowsMore(now: seq<Pixel>, was: seq<Pixel>, v: View, img: seq<seq<Pixel>>, w: nat, done: Progress,
                  next: Progress)
    requires Image(img, w) && done.y < |img| && done.x < w && Fits(|now|, v, w, |img|)
    requires next == if done.ByRows? then ByRows(done.y, done.x + 1) else ByColumns(done.x, done.y + 1)
    requires Shows(now, v, img, w, done) && SameElsewhere(now, was, v, w, |img|)
    ensures 0 <= Cell(v, done.y, done.x) < |now|
    ensures Shows(now[Cell(v, done.y, done.x) := img[done.y][done.x]], v, img, w, next)
    ensures SameElsewhere(now[Cell(v, done.y, done.x) := img[done.y][done.x]], was, v, w, |img|)
  {
    hide Cell, Fits;
    var r, c := done.y, done.x;
    CellInRange(|now|, v, w, |img|, r, c);
    StrideOf(|now|, v, w, |img|);
    var after := now[Cell(v, r, c) := img[r][c]];
    forall i, j | 0 <= i < |img| && 0 <= j < w && Done(next, i, j)
      ensures 0 <= Cell(v, i, j) < |after| && after[Cell(v, i, j)] == img[i][j]
    {
      if !(i == r && j == c) {
        ShowsAt(now, v, img, w, done, i, j);
        if Cell(v, i, j) == Cell(v, r, c) {
          CellInjective(v, w, i, j, r, c);
        }
      }
    }
    assert InRectangle(v, w, |img|, Cell(v, r, c));
  }

  lemma StrideOf(len: nat, v: View, w: nat, h: nat)
    requires Fits(len, v, w, h)
    ensures Apart(v, w)
  {}

  // ---- The methods ----

  lemma {:induction false} DotBounded(v: seq<Pixel>, f: seq<Tap>, n: nat)
    requires n <= |v| && n <= |f| && n <= 8
    ensures -(n as int) * 0x0800_0000 <= Dot(v, f, n) <= n * 0x0800_0000
  {
    hide Product;
    if n > 0 {
      DotBounded(v, f, n - 1);
      ProductBounded(v[n - 1], f[n - 1]);
    }
  }

  /** highbd_horz_scalar_product: no partial sum overflows. */
  method HorzScalarProduct(a: array<Pixel>, at: nat, b: seq<Tap>) returns (sum: Int32)
    requires at + 8 <= a.Length && |b| == 8
    ensures sum == Dot(a[at..at + 8], b, 8)
  {
    hide Product;
    ghost var v := a[at..at + 8];
    sum := 0;
    for k := 0 to TAPS
      invariant sum == Dot(v, b, k)
    {
      DotBounded(v, b, k + 1);
      DotBounded(v, b, k);
      ProductBounded(a[at + k], b[k]);
      sum := sum + Product(a[at + k], b[k]);
    }
  }

  /** Eight pixels a stride apart. */
  function Strided(s: seq<Pixel>, at: nat, stride: nat): (v: seq<Pixel>)
    requires at + 7 * stride < |s|
    ensures |v| == 8
  {
    [s[at], s[at + stride], s[at + 2 * stride], s[at + 3 * stride],
     s[at + 4 * stride], s[at + 5 * stride], s[at + 6 * stride], s[at + 7 * stride]]
  }

  lemma StridedAt(s: seq<Pixel>, at: nat, stride: nat, k: nat)
    requires at + 7 * stride < |s| && k < 8
    ensures at + k * stride < |s| && Strided(s, at, stride)[k] == s[at + k * stride]
  {}

  /** highbd_vert_scalar_product */
  method VertScalarProduct(a: array<Pixel>, at: nat, stride: nat, b: seq<Tap>) returns (sum: Int32)
    requires at + 7 * stride < a.Length && |b| == 8
    ensures sum == Dot(Strided(a[..], at, stride), b, 8)
  {
    hide Product, Strided;
    ghost var v := Strided(a[..], at, stride);
    sum := 0;
    for k := 0 to TAPS
      invariant sum == Dot(v, b, k)
    {
      StridedAt(a[..], at, stride, k);
      DotBounded(v, b, k + 1);
      DotBounded(v, b, k);
      ProductBounded(a[at + k * stride], b[k]);
      sum := sum + Product(a[at + k * stride], b[k]);
    }
  }

  lemma CellSteps(v: View, r: int, c: int)
    ensures Cell(v, 0, c) == v.off + c
    ensures Cell(v, r + 1, c) == Cell(v, r, c) + v.stride
    ensures Cell(v, r, c) == Cell(v, r, 0) + c
  {}

  lemma PositionSteps(q0: int, step: int, i: nat)
    ensures Position(q0, step, 0) == q0
    ensures Position(q0, step, i + 1) == Position(q0, step, i) + step
  {}

  lemma HorizontalAt(s: seq<Pixel>, v: View, filters: seq<seq<Tap>>, x0: int, xStep: int, w: nat, h: nat, bd: int,
                     r: nat, x: nat)
    requires Kernels(filters) && Readable(|s|, v, x0, xStep, w, h) && r < h && x < w
    ensures 0 <= WindowStart(v, x0, xStep, r, x) <= |s| - 8
    ensures Horizontal(s, v, filters, x0, xStep, w, h, bd)[r][x] == HorizontalPixel(s, v, filters, x0, xStep, bd, r, x)
  {}

  /** highbd_convolve_horiz */
  method ConvolveHoriz(src: array<Pixel>, sv: View, dst: array<Pixel>, dv: View, filters: seq<seq<Tap>>,
                       x0: int, xStep: int, w: nat, h: nat, bd: int)
    requires src != dst && Kernels(filters)
    requires Readable(src.Length, sv, x0, xStep, w, h) && Fits(dst.Length, dv, w, h)
    modifies dst
    ensures Shows(dst[..], dv, Horizontal(src[..], sv, filters, x0, xStep, w, h, bd), w, ByRows(h, 0))
    ensures SameElsewhere(dst[..], old(dst[..]), dv, w, h)
  {
    hide Cell, Readable, Fits, Shows, SameElsewhere, Position, Horizontal;
    ghost var img := Horizontal(src[..], sv, filters, x0, xStep, w, h, bd);
    ghost var was := dst[..];
    ShowsNothing(was, dv, img, w, h);
    CellSteps(sv, 0, -3);
    CellSteps(dv, 0, 0);
    var s, d := sv.off - 3, dv.off;
    for y := 0 to h
      invariant s == Cell(sv, y, -3) && d == Cell(dv, y, 0)
      invariant Shows(dst[..], dv, img, w, ByRows(y, 0)) && SameElsewhere(dst[..], was, dv, w, h)
    {
      var xq := x0;
      PositionSteps(x0, xStep, 0);
      for x := 0 to w
        invariant xq == Position(x0, xStep, x)
        invariant Shows(dst[..], dv, img, w, ByRows(y, x)) && SameElsewhere(dst[..], was, dv, w, h)
      {
        HorizontalAt(src[..], sv, filters, x0, xStep, w, h, bd, y, x);
        CellSteps(sv, y, -3);
        CellSteps(sv, y, Whole(xq) - 3);
        CellSteps(dv, y, x);
        ShowsMore(dst[..], was, dv, img, w, ByRows(y, x), ByRows(y, x + 1));
        PositionSteps(x0, xStep, x);
        var sum := HorzScalarProduct(src, s + Whole(xq), filters[Fraction(xq)]);
        dst[d + x] := ClipPixel(Rounded(sum), bd);
        xq := xq + xStep;
      }
      ShowsLine(dst[..], dv, img, w, ByRows(y, w), ByRows(y + 1, 0));
      CellSteps(sv, y, -3);
      CellSteps(dv, y, 0);
      s := s + sv.stride;
      d := d + dv.stride;
    }
  }

  /** What the vertical filter finds in memory under output (y, x). */
  lemma ColumnInMemory(s: seq<Pixel>, v: View, img: seq<seq<Pixel>>, w: nat, row: nat, x: nat)
    requires Image(img, w) && row + 8 <= |img| && x < w && Shows(s, v, img, w, ByRows(|img|, 0))
    requires v.stride >= 0
    ensures 0 <= Cell(v, row, x) && Cell(v, row, x) + 7 * v.stride < |s|
    ensures Strided(s, Cell(v, row, x), v.stride) == ColumnOf(img, w, row, x)
  {
    hide Cell;
    PixelInMemory(s, v, img, w, row, x, 0);
    PixelInMemory(s, v, img, w, row, x, 1);
    PixelInMemory(s, v, img, w, row, x, 2);
    PixelInMemory(s, v, img, w, row, x, 3);
    PixelInMemory(s, v, img, w, row, x, 4);
    PixelInMemory(s, v, img, w, row, x, 5);
    PixelInMemory(s, v, img, w, row, x, 6);
    PixelInMemory(s, v, img, w, row, x, 7);
  }

  lemma PixelInMemory(s: seq<Pixel>, v: View, img: seq<seq<Pixel>>, w: nat, row: nat, x: nat, k: nat)
    requires Image(img, w) && row + k < |img| && x < w && Shows(s, v, img, w, ByRows(|img|, 0))
    ensures 0 <= Cell(v, row, x) + k * v.stride < |s| && s[Cell(v, row, x) + k * v.stride] == img[row + k][x]
  {
    hide Cell;
    RowsApart(v, row, k, x);
    ShowsAt(s, v, img, w, ByRows(|img|, 0), row + k, x);
  }

  lemma RowsApart(v: View, row: int, k: int, x: int)
    ensures Cell(v, row + k, x) == Cell(v, row, x) + k * v.stride
  {}

  lemma VerticalAt(img: seq<seq<Pixel>>, filters: seq<seq<Tap>>, y0: int, yStep: int, w: nat, h: nat, bd: int, y: nat,
                   x: nat)
    requires Kernels(filters) && Image(img, w) && EnoughRows(|img|, y0, yStep, h) && y < h && x < w
    ensures 0 <= Whole(Position(y0, yStep, y)) <= |img| - 8
    ensures Vertical(img, filters, y0, yStep, w, h, bd)[y][x] == VerticalPixel(img, filters, y0, yStep, w, bd, y, x)
  {}

  /** highbd_convolve_vert, whose source starts three rows into the image. */
  method ConvolveVert(src: array<Pixel>, sv: View, ghost img: seq<seq<Pixel>>, dst: array<Pixel>, dv: View,
                      filters: seq<seq<Tap>>, y0: int, yStep: int, w: nat, h: nat, bd: int)
    requires src != dst && Kernels(filters) && Image(img, w) && sv.stride >= 0
    requires Shows(src[..], View(sv.off - 3 * sv.stride, sv.stride), img, w, ByRows(|img|, 0))
    requires EnoughRows(|img|, y0, yStep, h) && Fits(dst.Length, dv, w, h)
    modifies dst
    ensures Shows(dst[..], dv, Vertical(img, filters, y0, yStep, w, h, bd), w, ByColumns(w, 0))
    ensures SameElsewhere(dst[..], old(dst[..]), dv, w, h)
  {
    hide Cell, EnoughRows, Fits, Shows, SameElsewhere, Position, Vertical, Strided, ColumnOf;
    ghost var out := Vertical(img, filters, y0, yStep, w, h, bd);
    ghost var was := dst[..];
    ghost var view := View(sv.off - 3 * sv.stride, sv.stride);
    ShowsNothing(was, dv, out, w, h);
    CellSteps(view, 0, 0);
    CellSteps(dv, 0, 0);
    var s, d := sv.off - 3 * sv.stride, dv.off;
    for x := 0 to w
      invariant s == Cell(view, 0, x) && d == Cell(dv, 0, x)
      invariant Shows(dst[..], dv, out, w, ByColumns(x, 0)) && SameElsewhere(dst[..], was, dv, w, h)
    {
      var yq := y0;
      PositionSteps(y0, yStep, 0);
      for y := 0 to h
        invariant yq == Position(y0, yStep, y)
        invariant Shows(dst[..], dv, out, w, ByColumns(x, y)) && SameElsewhere(dst[..], was, dv, w, h)
      {
        VerticalAt(img, filters, y0, yStep, w, h, bd, y, x);
        RowsApart(view, 0, Whole(yq), x);
        RowsApart(dv, 0, y, x);
        ColumnInMemory(src[..], view, img, w, Whole(yq), x);
        ShowsMore(dst[..], was, dv, out, w, ByColumns(x, y), ByColumns(x, y + 1));
        PositionSteps(y0, yStep, y);
        var sum := VertScalarProduct(src, s + Whole(yq) * sv.stride, sv.stride, filters[Fraction(yq)]);
        dst[d + y * dv.stride] := ClipPixel(Rounded(sum), bd);
        yq := yq + yStep;
      }
      ShowsLine(dst[..], dv, out, w, ByColumns(x, h), ByColumns(x + 1, 0));
      CellSteps(view, 0, x);
      CellSteps(view, 0, x + 1);
      CellSteps(dv, 0, x);
      CellSteps(dv, 0, x + 1);
      s := s + 1;
      d := d + 1;
    }
  }

  /**
   avm_highbd_convolve8_c: whatever the scratch buffer held, the destination shows
   the vertically filtered image of horizontally filtered rows, and nothing else changes.
   */
  method Convolve8(src: array<Pixel>, sv: View, dst: array<Pixel>, dv: View, filters: seq<seq<Tap>>,
                   x0: int, xStep: int, y0: int, yStep: int, w: nat, h: nat, bd: int)
    requires Kernels(filters) && w <= 64 && h <= 64 && xStep <= 64
    requires yStep <= 32 || (yStep <= 64 && h <= 32)
    requires RowCount(y0, yStep, h) <= TEMP_ROWS && EnoughRows(RowCount(y0, yStep, h), y0, yStep, h)
    requires Readable(src.Length, View(sv.off - 3 * sv.stride, sv.stride), x0, xStep, w, RowCount(y0, yStep, h))
    requires Fits(dst.Length, dv, w, h)
    modifies dst
    ensures ConvolveReady(old(src[..]), sv, filters, x0, xStep, y0, yStep, w, h)
    ensures Shows(dst[..], dv, Convolved(old(src[..]), sv, filters, x0, xStep, y0, yStep, w, h, bd), w, ByColumns(w, 0))
    ensures SameElsewhere(dst[..], old(dst[..]), dv, w, h)
  {
    hide Cell, EnoughRows, Readable, Fits, Shows, SameElsewhere, Position, Vertical, Horizontal, RowsNeeded, RowCount;
    var temp := new Pixel[TEMP_STRIDE * TEMP_ROWS];
    var rows := RowCount(y0, yStep, h);
    ScratchFits(w, rows);
    ghost var img := Horizontal(src[..], View(sv.off - 3 * sv.stride, sv.stride), filters, x0, xStep, w, rows, bd);
    ConvolveHoriz(src, View(sv.off - 3 * sv.stride, sv.stride), temp, View(0, TEMP_STRIDE), filters, x0, xStep, w,
                  rows, bd);
    ConvolveVert(temp, View(TEMP_STRIDE * 3, TEMP_STRIDE), img, dst, dv, filters, y0, yStep, w, h, bd);
  }

  lemma ScratchFits(w: nat, rows: nat)
    requires w <= 64 && rows <= TEMP_ROWS
    ensures Fits(TEMP_STRIDE * TEMP_ROWS, View(0, TEMP_STRIDE), w, rows)
  {}

  ghost predicate ConvolveReady(s: seq<Pixel>, sv: View, filters: seq<seq<Tap>>, x0: int, xStep: int, y0: int,
                                yStep: int, w: nat, h: nat)
  {
    && Kernels(filters)
    && Readable(|s|, View(sv.off - 3 * sv.stride, sv.stride), x0, xStep, w, RowCount(y0, yStep, h))
    && EnoughRows(RowCount(y0, yStep, h), y0, yStep, h)
  }

  function Convolved(s: seq<Pixel>, sv: View, filters: seq<seq<Tap>>, x0: int, xStep: int, y0: int, yStep: int,
                     w: nat, h: nat, bd: int): (out: seq<seq<Pixel>>)
    requires ConvolveReady(s, sv, filters, x0, xStep, y0, yStep, w, h)
    ensures |out| == h && Image(out, w)
  {
    var view := View(sv.off - 3 * sv.stride, sv.stride);
    Vertical(Horizontal(s, view, filters, x0, xStep, w, RowCount(y0, yStep, h), bd), filters, y0, yStep, w, h, bd)
  }

  /** The horizontally filtered pixel of source row r for output column x. */
  function RowPixel(s: seq<Pixel>, sv: View, filters: seq<seq<Tap>>, x0: int, xStep: int, bd: int, r: int,
                    x: nat): Pixel
    requires Kernels(filters) && 0 <= WindowStart(sv, x0, xStep, r, x) <= |s| - 8
  {
    var start := WindowStart(sv, x0, xStep, r, x);
    Filtered(s[start..start + 8], filters[Fraction(Position(x0, xStep, x))], bd)
  }

  /** The samples that output (y, x) depends on are all there. */
  ghost predicate Surrounded(len: nat, sv: View, x0: int, xStep: int, row: int, x: nat) {
    forall r {:trigger WindowStart(sv, x0, xStep, r, x)} :: row - 3 <= r < row + 5 ==>
      0 <= WindowStart(sv, x0, xStep, r, x) <= len - 8
  }

  /** The horizontally filtered pixels from three rows above to four below. */
  function PixelColumn(s: seq<Pixel>, sv: View, filters: seq<seq<Tap>>, x0: int, xStep: int, bd: int, row: int, x: nat):
      (column: seq<Pixel>)
    requires Kernels(filters) && Surrounded(|s|, sv, x0, xStep, row, x)
    ensures |column| == 8
  {
    [RowPixel(s, sv, filters, x0, xStep, bd, row - 3, x), RowPixel(s, sv, filters, x0, xStep, bd, row - 2, x),
     RowPixel(s, sv, filters, x0, xStep, bd, row - 1, x), RowPixel(s, sv, filters, x0, xStep, bd, row, x),
     RowPixel(s, sv, filters, x0, xStep, bd, row + 1, x), RowPixel(s, sv, filters, x0, xStep, bd, row + 2, x),
     RowPixel(s, sv, filters, x0, xStep, bd, row + 3, x), RowPixel(s, sv, filters, x0, xStep, bd, row + 4, x)]
  }

  /** Per pixel, with no scratch buffer: the clipped vertical sum of clipped horizontal sums. */
  lemma ConvolvedPixel(s: seq<Pixel>, sv: View, filters: seq<seq<Tap>>, x0: int, xStep: int, y0: int, yStep: int,
                       w: nat, h: nat, bd: int, y: nat, x: nat)
    requires ConvolveReady(s, sv, filters, x0, xStep, y0, yStep, w, h) && y < h && x < w
    ensures Surrounded(|s|, sv, x0, xStep, Whole(Position(y0, yStep, y)), x)
    ensures Convolved(s, sv, filters, x0, xStep, y0, yStep, w, h, bd)[y][x]
         == Filtered(PixelColumn(s, sv, filters, x0, xStep, bd, Whole(Position(y0, yStep, y)), x),
                     filters[Fraction(Position(y0, yStep, y))], bd)
  {
    hide Filtered, Horizontal, Vertical, Readable, Cell, Position;
    var view, rows := View(sv.off - 3 * sv.stride, sv.stride), RowCount(y0, yStep, h);
    var img := Horizontal(s, view, filters, x0, xStep, w, rows, bd);
    VerticalAt(img, filters, y0, yStep, w, h, bd, y, x);
    var row := Whole(Position(y0, yStep, y));
    forall r | row - 3 <= r < row + 5
      ensures 0 <= WindowStart(sv, x0, xStep, r, x) <= |s| - 8
      ensures img[r + 3][x] == RowPixel(s, sv, filters, x0, xStep, bd, r, x)
    {
      HorizontalAt(s, view, filters, x0, xStep, w, rows, bd, r + 3, x);
      ThreeRowsUp(sv, r + 3, Whole(Position(x0, xStep, x)) - 3);
    }
    assert ColumnOf(img, w, row, x) == PixelColumn(s, sv, filters, x0, xStep, bd, row, x);
  }

  lemma ThreeRowsUp(v: View, r: int, c: int)
    ensures Cell(View(v.off - 3 * v.stride, v.stride), r, c) == Cell(v, r - 3, c)
  {}

  // ---- The result in numbers ----

  /** The products of eight pixels from a place of memory on and the taps of a kernel, added up. */
  function SumAt(s: seq<int>, at: int, f: seq<int>): int
    requires |f| == 8 && 0 <= at <= |s| - 8
  {
    s[at] * f[0] + s[at + 1] * f[1] + s[at + 2] * f[2] + s[at + 3] * f[3]
    + s[at + 4] * f[4] + s[at + 5] * f[5] + s[at + 6] * f[6] + s[at + 7] * f[7]
  }

  /** r is the nearest to sum / 128 of the numbers from 0 to top, the upper one of two. */
  predicate Rounds(r: int, sum: int, top: int) {
    && 0 <= r <= top && (0 < r < top ==> -64 <= sum - 128 * r < 64)
    && (r == 0 <==> sum < 64) && (r == top <==> sum >= 128 * top - 64)
  }

  function Top(bd: int): (top: int) {
    if bd == 10 then 1023 else if bd == 12 then 4095 else 255
  }

  lemma FilteredRounds(v: seq<Pixel>, f: seq<Tap>, bd: int)
    requires |v| == 8 && |f| == 8
    ensures Rounds(Filtered(v, f, bd), SumAt(v, 0, f), Top(bd))
  {
    DotIsSum(v, f);
    hide Dot;
  }

  lemma DotIsSum(v: seq<int>, f: seq<int>)
    requires |v| == 8 && |f| == 8
    ensures Dot(v, f, 8) == SumAt(v, 0, f)
  {
    hide Dot;
    DotStep(v, f, 0);
    DotStep(v, f, 1);
    DotStep(v, f, 2);
    DotStep(v, f, 3);
    DotStep(v, f, 4);
    DotStep(v, f, 5);
    DotStep(v, f, 6);
    DotStep(v, f, 7);
  }

  lemma DotStep(v: seq<int>, f: seq<int>, n: nat)
    requires n < |v| && n < |f|
    ensures Dot(v, f, 0) == 0 && Dot(v, f, n + 1) == Dot(v, f, n) + v[n] * f[n]
  {}

  /** Half a step up goes up: a single pixel of 1 between two taps of 64. */
  lemma HalfRoundsUp(v: seq<Pixel>, f: seq<Tap>)
    requires v == [0, 0, 0, 1, 0, 0, 0, 0] && f == [0, 0, 0, 64, 64, 0, 0, 0]
    ensures Filtered(v, f, 8) == 1
  {
    hide Filtered;
    FilteredRounds(v, f, 8);
  }

  /**
   Output (y, x), where step positions are in sixteenths: column is the eight rounded
   horizontal sums around it, from three rows and three columns before to four after,
   and the output is their rounded vertical sum.
   */
  lemma ConvolvedInNumbers(s: seq<Pixel>, sv: View, filters: seq<seq<Tap>>, x0: int, xStep: int, y0: int, yStep: int,
                           w: nat, h: nat, bd: int, y: nat, x: nat) returns (column: seq<int>)
    requires ConvolveReady(s, sv, filters, x0, xStep, y0, yStep, w, h) && y < h && x < w
    ensures var row, col := (y0 + y * yStep) / 16, (x0 + x * xStep) / 16;
      && |column| == 8
      && (forall j :: 0 <= j < 8 ==>
            RoundsAt(s, sv.off + (row - 3 + j) * sv.stride + col - 3, filters[(x0 + x * xStep) % 16], column[j],
                     Top(bd)))
      && Rounds(Convolved(s, sv, filters, x0, xStep, y0, yStep, w, h, bd)[y][x],
                SumAt(column, 0, filters[(y0 + y * yStep) % 16]), Top(bd))
  {
    hide Filtered, Convolved, Readable, RowsNeeded, EnoughRows, RowCount, RowPixel, SumAt, Rounds;
    ConvolvedPixel(s, sv, filters, x0, xStep, y0, yStep, w, h, bd, y, x);
    var row := Whole(Position(y0, yStep, y));
    column := PixelColumn(s, sv, filters, x0, xStep, bd, row, x);
    FilteredRounds(column, filters[Fraction(Position(y0, yStep, y))], bd);
    forall j | 0 <= j < 8
      ensures RoundsAt(s, Cell(sv, row - 3 + j, Whole(Position(x0, xStep, x)) - 3),
                       filters[Fraction(Position(x0, xStep, x))], column[j], Top(bd))
    {
      assert column[j] == RowPixel(s, sv, filters, x0, xStep, bd, row - 3 + j, x);
      RowPixelRounds(s, sv, filters, x0, xStep, bd, row - 3 + j, x);
    }
  }

  /** r is the rounded sum of the eight pixels at a place of memory. */
  predicate RoundsAt(s: seq<int>, at: int, f: seq<int>, r: int, top: int) {
    0 <= at <= |s| - 8 && |f| == 8 && Rounds(r, SumAt(s, at, f), top)
  }

  lemma RowPixelRounds(s: seq<Pixel>, sv: View, filters: seq<seq<Tap>>, x0: int, xStep: int, bd: int, r: int, x: nat)
    requires Kernels(filters) && 0 <= WindowStart(sv, x0, xStep, r, x) <= |s| - 8
    ensures RoundsAt(s, WindowStart(sv, x0, xStep, r, x), filters[Fraction(Position(x0, xStep, x))],
                     RowPixel(s, sv, filters, x0, xStep, bd, r, x), Top(bd))
  {
    hide Filtered, Rounds, WindowStart, Position, Fraction;
    var start := WindowStart(sv, x0, xStep, r, x);
    var f := filters[Fraction(Position(x0, xStep, x))];
    FilteredRounds(s[start..start + 8], f, bd);
    assert SumAt(s[start..start + 8], 0, f) == SumAt(s, start, f);
  }

  /** Where all kernels add up to 128, an image of one value stays what it is. */
  lemma ConstantStays(s: seq<Pixel>, sv: View, filters: seq<seq<Tap>>, x0: int, xStep: int, y0: int, yStep: int,
                      w: nat, h: nat, bd: int, y: nat, x: nat, c: Pixel)
    requires ConvolveReady(s, sv, filters, x0, xStep, y0, yStep, w, h) && y < h && x < w
    requires c <= Top(bd) && forall i :: 0 <= i < |s| ==> s[i] == c
    requires forall n :: 0 <= n < 16 ==> TapSum(filters[n]) == 128
    ensures Convolved(s, sv, filters, x0, xStep, y0, yStep, w, h, bd)[y][x] == c
  {
    hide ConvolveReady, Convolved, SumAt, TapSum, Kernels;
    var column := ConvolvedInNumbers(s, sv, filters, x0, xStep, y0, yStep, w, h, bd, y, x);
    KernelsAre(s, sv, filters, x0, xStep, y0, yStep, w, h);
    var row, col := (y0 + y * yStep) / 16, (x0 + x * xStep) / 16;
    forall j | 0 <= j < 8
      ensures column[j] == c
    {
      assert RoundsAt(s, sv.off + (row - 3 + j) * sv.stride + col - 3, filters[(x0 + x * xStep) % 16], column[j],
                      Top(bd));
      ConstantSum(s, sv.off + (row - 3 + j) * sv.stride + col - 3, filters[(x0 + x * xStep) % 16], c);
    }
    ConstantSum(column, 0, filters[(y0 + y * yStep) % 16], c);
  }

  lemma KernelsAre(s: seq<Pixel>, sv: View, filters: seq<seq<Tap>>, x0: int, xStep: int, y0: int, yStep: int,
                   w: nat, h: nat)
    requires ConvolveReady(s, sv, filters, x0, xStep, y0, yStep, w, h)
    ensures |filters| == 16 && forall n :: 0 <= n < 16 ==> |filters[n]| == 8
  {}

  function TapSum(f: seq<int>): int {
    if |f| != 8 then 0 else f[0] + f[1] + f[2] + f[3] + f[4] + f[5] + f[6] + f[7]
  }

  lemma ConstantSum(s: seq<int>, at: int, f: seq<int>, c: int)
    requires |f| == 8 && 0 <= at <= |s| - 8 && (forall i :: at <= i < at + 8 ==> s[i] == c) && TapSum(f) == 128
    ensures SumAt(s, at, f) == 128 * c
  {
    SumTimes(c, f[0], f[1], f[2], f[3]);
    SumTimes(c, f[4], f[5], f[6], f[7]);
    SumTimes(c, f[0] + f[1] + f[2] + f[3], f[4] + f[5] + f[6] + f[7], 0, 0);
  }

  lemma SumTimes(c: int, a0: int, a1: int, a2: int, a3: int)
    ensures c * a0 + c * a1 + c * a2 + c * a3 == c * (a0 + a1 + a2 + a3)
  {}

  /** A kernel that is one tap of 128 in the middle. */
  predicate CopyKernel(f: seq<Tap>) {
    f == [0, 0, 0, 128, 0, 0, 0, 0]
  }

  lemma CopyKernelCopies(v: seq<Pixel>, f: seq<Tap>, bd: int)
    requires |v| == 8 && CopyKernel(f) && v[3] <= MaxPixel(bd)
    ensures Filtered(v, f, bd) == v[3]
  {
    assert Dot(v, f, 0) == Dot(v, f, 1) == Dot(v, f, 2) == Dot(v, f, 3) == 0;
    assert Dot(v, f, 4) == Product(v[3], 128);
    assert Dot(v, f, 4) == Dot(v, f, 5) == Dot(v, f, 6) == Dot(v, f, 7) == Dot(v, f, 8);
  }

  /** Where sixteenths are whole pixels. */
  lemma WholePositions(i: nat)
    ensures Whole(Position(0, 16, i)) == i && Fraction(Position(0, 16, i)) == 0
  {}

  lemma RowPixelCopies(s: seq<Pixel>, sv: View, filters: seq<seq<Tap>>, bd: int, r: int, x: nat)
    requires Kernels(filters) && CopyKernel(filters[0]) && 0 <= WindowStart(sv, 0, 16, r, x) <= |s| - 8
    ensures 0 <= Cell(sv, r, x) < |s|
    ensures s[Cell(sv, r, x)] <= MaxPixel(bd) ==> RowPixel(s, sv, filters, 0, 16, bd, r, x) == s[Cell(sv, r, x)]
  {
    hide Filtered, MaxPixel, Whole, Fraction, Position, Cell;
    WholePositions(x);
    CellSteps(sv, r, x - 3);
    CellSteps(sv, r, x);
    var start := WindowStart(sv, 0, 16, r, x);
    if s[Cell(sv, r, x)] <= MaxPixel(bd) {
      CopyKernelCopies(s[start..start + 8], filters[0], bd);
    }
  }

  /** Unscaled and at whole positions, with the copying kernel there, the source is copied. */
  lemma UnscaledCopies(s: seq<Pixel>, sv: View, filters: seq<seq<Tap>>, w: nat, h: nat, bd: int, y: nat, x: nat)
    requires ConvolveReady(s, sv, filters, 0, 16, 0, 16, w, h) && y < h && x < w && CopyKernel(filters[0])
    ensures 0 <= Cell(sv, y, x) < |s|
    ensures s[Cell(sv, y, x)] <= MaxPixel(bd) ==>
      Convolved(s, sv, filters, 0, 16, 0, 16, w, h, bd)[y][x] == s[Cell(sv, y, x)]
  {
    hide Filtered, Convolved, Readable, RowsNeeded, MaxPixel, RowCount, EnoughRows, RowPixel, Whole, Fraction,
         Position, Cell, WindowStart;
    ConvolvedPixel(s, sv, filters, 0, 16, 0, 16, w, h, bd, y, x);
    WholePositions(y);
    RowPixelCopies(s, sv, filters, bd, y, x);
    if s[Cell(sv, y, x)] <= MaxPixel(bd) {
      CopyKernelCopies(PixelColumn(s, sv, filters, 0, 16, bd, y, x), filters[0], bd);
    }
  }
}
