/** `stack_blur::blur_x` of `agg_blur.h` for 8-bit gray pixels: the same running sums into a line buffer, with a
    true division where the tables end, for every radius whose divisor fits 32 bits. */
module StackBlurAnyRadius {
  import opened Basics
  import opened StackBlurTables
  import opened StackBlur
  import opened StackBlurImage

  /** The largest radius at which no sum of 8-bit pixels exceeds 32 bits. */
  const LAST_EXACT := 4103

  /** `calc_pix` on a 32-bit sum: by the tables below radius 255, by division from there on. */
  function Stored(sum: nat, r: nat): Pixel
    requires r < 65535
  {
    if r < 255 then MulShift(sum, r) % 256 else sum % UINT_RANGE / ((r + 1) * (r + 1)) % 256
  }

  // The exact weighted mean, rounded down.
  ghost function Mean(line: seq<Pixel>, x: int, r: nat): int
    requires line != []
  {
    TriangleSum(line, x, r) / ((r + 1) * (r + 1))
  }

  ghost function BlurredX(line: seq<Pixel>, x: int, r: nat): Pixel
    requires line != [] && r < 65535
  {
    TriangleSumBetween(line, x, r, 0, 255);
    Stored(TriangleSum(line, x, r), r)
  }

  /** Below radius 255 this is the in-place blur of the 8-bit functions. */
  lemma TableRadius(line: seq<Pixel>, x: int, r: nat)
    requires line != [] && r <= MAX_RADIUS
    ensures BlurredX(line, x, r) == Blurred(line, x, r)
  {
    hide Mul, Shr, Shifted;
    TriangleSumBetween(line, x, r, 0, 255);
    ReciprocalStaysBetween(TriangleSum(line, x, r), r, 0, 255);
    NoWrap(TriangleSum(line, x, r), r);
  }

  lemma Squares(a: nat, b: nat)
    requires a <= b
    ensures a * a <= b * b
  {
    MulLe(a, b, a);
    MulLe(a, b, b);
  }

  lemma StoredExactly(sum: nat, r: nat)
    requires 255 <= r <= LAST_EXACT && sum <= 255 * ((r + 1) * (r + 1))
    ensures Stored(sum, r) == sum / ((r + 1) * (r + 1))
  {
    Squares(r + 1, LAST_EXACT + 1);
    DivideBetween(sum, (r + 1) * (r + 1), 0, 255);
  }

  lemma ExactMean(line: seq<Pixel>, x: int, r: nat)
    requires line != [] && 255 <= r <= LAST_EXACT
    ensures BlurredX(line, x, r) == Mean(line, x, r)
  {
    hide Stored, TriangleSum;
    TriangleSumBetween(line, x, r, 0, 255);
    StoredExactly(TriangleSum(line, x, r), r);
  }

  lemma Wrapped(sum: nat, d: nat)
    requires sum == 255 * d && 4105 * 4105 <= d < UINT_RANGE
    ensures sum % UINT_RANGE < 255 * d
  {
    assert sum >= UINT_RANGE;
  }

  /** Past that radius a white line does not stay white. */
  lemma WhiteLine(x: int, r: nat)
    requires LAST_EXACT < r < 65535
    ensures Mean([255], x, r) == 255 && BlurredX([255], x, r) < 255
  {
    var d := (r + 1) * (r + 1);
    var line: seq<Pixel> := [255];
    TriangleSumBetween(line, x, r, 255, 255);
    var sum := TriangleSum(line, x, r);
    assert sum == 255 * d;
    DivideBetween(sum, d, 255, 255);
    Squares(LAST_EXACT + 2, r + 1);
    Squares(r + 1, 65535);
    Wrapped(sum, d);
    DivideBetween(sum % UINT_RANGE, d, 0, 254);
  }

  /** From radius 255 on the exact mean is stored for every line if and only if the radius is at most 4103: beyond
      that a white line already overflows its sum. */
  lemma ExactUpToLimit(r: nat)
    requires 255 <= r < 65535
    ensures (forall line: seq<Pixel>, x :: line != [] ==> BlurredX(line, x, r) == Mean(line, x, r)) <==> r <= LAST_EXACT
  {
    hide Stored, Mean;
    if r <= LAST_EXACT {
      forall line: seq<Pixel>, x | line != [] ensures BlurredX(line, x, r) == Mean(line, x, r) {
        ExactMean(line, x, r);
      }
    } else {
      WhiteLine(0, r);
    }
  }

  // The pixel at a column, or at the last one past the border.
  method PixelAt(buf: array<Pixel>, start: int, step: int, n: int, at: nat) returns (pix: Pixel)
    requires StripFits(buf.Length, start, step, n)
    ensures pix == Strip(buf[..], start, step, n)[LastRead(at, n)]
  {
    CellsInRange(buf.Length, start, step, n);
    var xp := at;
    if xp > n - 1 {
      xp := n - 1;
    }
    pix := buf[start + xp * step];
    assert start + xp * step == Cell(start, step, xp);
  }

  lemma SumIs(ring: seq<Pixel>, ptr: int, sum: int, sumIn: int, sumOut: int, pix: Pixel, line: seq<Pixel>, x: int,
              r: int)
    requires line != [] && 1 <= r < 65535 && 0 <= x && Registers(ring, ptr, sum, sumIn, sumOut, pix, line, x, r)
    ensures 0 <= sum && Stored(sum, r) == BlurredX(line, x, r)
  {
    hide Stored;
    TriangleSumBetween(line, x, r, 0, 255);
  }

  /** The loop over the columns. */
  method BlurToBuffer(buf: array<Pixel>, start: int, step: int, n: int, r: int) returns (out: array<Pixel>)
    requires 1 <= r < 65535 && StripFits(buf.Length, start, step, n)
    ensures fresh(out) && out.Length == n
    ensures var line := Strip(buf[..], start, step, n);
            forall x :: 0 <= x < n ==> out[x] == BlurredX(line, x, r)
  {
    hide Registers, ReadAhead, TriangleSum, Cell, Stored;
    ghost var was, line := buf[..], Strip(buf[..], start, step, n);
    CellsInRange(buf.Length, start, step, n);
    var ring := new Pixel[2 * r + 1];
    out := new Pixel[n];
    var ptr := r;
    var sum: int, sumIn: int, sumOut: int, pix: Pixel := FillRing(buf, start, step, n, r, ring);
    var x := 0;
    while x < n
      invariant 0 <= x <= n && buf[..] == was
      invariant Registers(ring[..], ptr, sum, sumIn, sumOut, pix, line, x, r)
      invariant forall k :: 0 <= k < x ==> out[k] == BlurredX(line, k, r)
    {
      SumIs(ring[..], ptr, sum, sumIn, sumOut, pix, line, x, r);
      ghost var turned := ring[..];
      out[x] := Stored(sum, r);
      assert ring[..] == turned && buf[..] == was;
      ghost var last := pix;
      pix := PixelAt(buf, start, step, n, x + r + 1);
      NowReadAhead(ring[..], ptr, sum, sumIn, sumOut, last, pix, line, x, r);
      ghost var done := out[..];
      ptr, sum, sumIn, sumOut := TurnRing(ring, ptr, sum, sumIn, sumOut, pix, r, line, x);
      assert out[..] == done && buf[..] == was;
      x := x + 1;
    }
  }

  /** `copy_color_hspan`. */
  method CopyBack(buf: array<Pixel>, start: int, step: int, n: int, out: array<Pixel>)
    requires StripFits(buf.Length, start, step, n) && out != buf && out.Length == n
    modifies buf
    ensures forall i :: 0 <= i < n ==> Strip(buf[..], start, step, n)[i] == out[i]
    ensures forall p :: 0 <= p < buf.Length && !OnStrip(start, step, n, p) ==> buf[p] == old(buf[p])
  {
    CellsInRange(buf.Length, start, step, n);
    var i := 0;
    while i < n
      invariant 0 <= i <= n
      invariant forall k :: 0 <= k < i ==> buf[Cell(start, step, k)] == out[k]
      invariant forall p :: 0 <= p < buf.Length && !OnStrip(start, step, n, p) ==> buf[p] == old(buf[p])
    {
      CellsDistinct(start, step, n, i);
      hide Cell;
      var at := Cell(start, step, i);
      assert OnStrip(start, step, n, at);
      buf[at] := out[i];
      i := i + 1;
    }
  }

  ghost function BlurLineX(line: seq<Pixel>, r: nat): (out: seq<Pixel>)
    requires line != [] && r < 65535
    ensures |out| == |line|
  {
    seq(|line|, x requires 0 <= x < |line| => BlurredX(line, x, r))
  }

  /** The strip holds its blurred line, and nothing off the strip has changed. */
  ghost predicate StripBlurredX(now: seq<Pixel>, was: seq<Pixel>, start: int, step: int, n: int, r: int) {
    && |now| == |was| && StripFits(|was|, start, step, n) && 0 <= r < 65535
    && Strip(now, start, step, n) == BlurLineX(Strip(was, start, step, n), r)
    && (forall p :: 0 <= p < |now| && !OnStrip(start, step, n, p) ==> now[p] == was[p])
  }

  /** One row, or one column of the transposed image: the whole strip is read for the line buffer, which is then
      copied back. */
  method BlurStripX(buf: array<Pixel>, start: int, step: int, n: int, r: int)
    requires 1 <= r < 65535 && StripFits(buf.Length, start, step, n)
    modifies buf
    ensures StripBlurredX(buf[..], old(buf[..]), start, step, n, r)
  {
    ghost var was := buf[..];
    var out := BlurToBuffer(buf, start, step, n, r);
    assert buf[..] == was;
    CopyBack(buf, start, step, n, out);
    hide BlurredX;
    assert Strip(buf[..], start, step, n) == BlurLineX(Strip(was, start, step, n), r);
  }

  /** The rows before `y` are blurred, the others untouched. */
  ghost predicate RowsBlurredX(now: seq<Pixel>, was: seq<Pixel>, w: int, h: int, stride: int, y: int, r: int) {
    && ImageFits(|was|, w, h, stride) && 0 <= r < 65535 && PaddingKept(now, was, w, h, stride)
    && (forall v :: 0 <= v < y && v < h ==> Row(now, w, h, stride, v) == BlurLineX(Row(was, w, h, stride, v), r))
    && (forall v :: y <= v < h && 0 <= v ==> Row(now, w, h, stride, v) == Row(was, w, h, stride, v))
  }

  /** The columns before `x` are blurred, the others untouched. */
  ghost predicate ColumnsBlurredX(now: seq<Pixel>, was: seq<Pixel>, w: int, h: int, stride: int, x: int, r: int) {
    && ImageFits(|was|, w, h, stride) && 0 <= r < 65535 && PaddingKept(now, was, w, h, stride)
    && (forall u :: 0 <= u < x && u < w ==>
          Column(now, w, h, stride, u) == BlurLineX(Column(was, w, h, stride, u), r))
    && (forall u :: x <= u < w && 0 <= u ==> Column(now, w, h, stride, u) == Column(was, w, h, stride, u))
  }

  lemma RowStepX(next: seq<Pixel>, now: seq<Pixel>, was: seq<Pixel>, w: int, h: int, stride: int, y: int, r: int)
    requires 0 <= y < h && RowsBlurredX(now, was, w, h, stride, y, r)
    requires StripBlurredX(next, now, y * stride, 1, w, r)
    ensures RowsBlurredX(next, was, w, h, stride, y + 1, r)
  {
    OtherRowsKept(next, now, w, h, stride, y);
  }

  lemma ColumnStepX(next: seq<Pixel>, now: seq<Pixel>, was: seq<Pixel>, w: int, h: int, stride: int, x: int, r: int)
    requires 0 <= x < w && ColumnsBlurredX(now, was, w, h, stride, x, r)
    requires StripBlurredX(next, now, x, stride, h, r)
    ensures ColumnsBlurredX(next, was, w, h, stride, x + 1, r)
  {
    OtherColumnsKept(next, now, w, h, stride, x);
  }

  /** `blur_x`: every row of the image becomes its blurred row; a radius of 0 changes nothing. */
  method BlurX(buf: array<Pixel>, w: int, h: int, stride: int, radius: nat)
    requires radius < 65535 && ImageFits(buf.Length, w, h, stride)
    modifies buf
    ensures if radius == 0 then buf[..] == old(buf[..])
            else RowsBlurredX(buf[..], old(buf[..]), w, h, stride, h, radius)
  {
    if radius < 1 {
      return;
    }
    var y := 0;
    while y < h
      invariant 0 <= y <= h
      invariant RowsBlurredX(buf[..], old(buf[..]), w, h, stride, y, radius)
    {
      hide RowsBlurredX, StripBlurredX;
      StripsFit(buf.Length, w, h, stride, 0, y);
      ghost var now := buf[..];
      BlurStripX(buf, y * stride, 1, w, radius);
      RowStepX(buf[..], now, old(buf[..]), w, h, stride, y, radius);
      y := y + 1;
    }
  }

  /** `blur_y`: the same on the transposed image. */
  method BlurY(buf: array<Pixel>, w: int, h: int, stride: int, radius: nat)
    requires radius < 65535 && ImageFits(buf.Length, w, h, stride)
    modifies buf
    ensures if radius == 0 then buf[..] == old(buf[..])
            else ColumnsBlurredX(buf[..], old(buf[..]), w, h, stride, w, radius)
  {
    if radius < 1 {
      return;
    }
    var x := 0;
    while x < w
      invariant 0 <= x <= w
      invariant ColumnsBlurredX(buf[..], old(buf[..]), w, h, stride, x, radius)
    {
      hide ColumnsBlurredX, StripBlurredX;
      StripsFit(buf.Length, w, h, stride, x, 0);
      ghost var now := buf[..];
      BlurStripX(buf, x, stride, h, radius);
      ColumnStepX(buf[..], now, old(buf[..]), w, h, stride, x, radius);
      x := x + 1;
    }
  }

  lemma SameLine(line: seq<Pixel>, r: nat)
    requires line != [] && r <= MAX_RADIUS
    ensures BlurLineX(line, r) == BlurLine(line, r)
  {
    hide BlurredX, Blurred;
    forall x | 0 <= x < |line| ensures BlurredX(line, x, r) == Blurred(line, x, r) {
      TableRadius(line, x, r);
    }
  }

  lemma SameBlur(was: seq<Pixel>, rows: seq<Pixel>, now: seq<Pixel>, w: int, h: int, stride: int, r: nat)
    requires 0 < r <= MAX_RADIUS
    requires RowsBlurredX(rows, was, w, h, stride, h, r) && ColumnsBlurredX(now, rows, w, h, stride, w, r)
    ensures RowsBlurred(rows, was, w, h, stride, h, r) && ColumnsBlurred(now, rows, w, h, stride, w, r)
  {
    hide Row, Column, PaddingKept, BlurLine, BlurLineX;
    forall v | 0 <= v < h ensures BlurLineX(Row(was, w, h, stride, v), r) == BlurLine(Row(was, w, h, stride, v), r) {
      SameLine(Row(was, w, h, stride, v), r);
    }
    forall u | 0 <= u < w
      ensures BlurLineX(Column(rows, w, h, stride, u), r) == BlurLine(Column(rows, w, h, stride, u), r)
    {
      SameLine(Column(rows, w, h, stride, u), r);
    }
  }

  /** `blur`: rows, then columns; `rows` is the image in between. Up to radius 254 it is the 8-bit blur with both
      radii equal. */
  method Blur(buf: array<Pixel>, w: int, h: int, stride: int, radius: nat) returns (ghost rows: seq<Pixel>)
    requires radius < 65535 && ImageFits(buf.Length, w, h, stride)
    modifies buf
    ensures |rows| == buf.Length && (radius == 0 ==> rows == old(buf[..]) && buf[..] == rows)
    ensures radius > 0 ==>
              && RowsBlurredX(rows, old(buf[..]), w, h, stride, h, radius)
              && ColumnsBlurredX(buf[..], rows, w, h, stride, w, radius)
    ensures 0 < radius <= MAX_RADIUS ==>
              && RowsBlurred(rows, old(buf[..]), w, h, stride, h, radius)
              && ColumnsBlurred(buf[..], rows, w, h, stride, w, radius)
  {
    BlurX(buf, w, h, stride, radius);
    rows := buf[..];
    BlurY(buf, w, h, stride, radius);
    if 0 < radius <= MAX_RADIUS {
      SameBlur(old(buf[..]), rows, buf[..], w, h, stride, radius);
    }
  }
}
