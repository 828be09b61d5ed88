/** `stack_blur_gray8`: every row, then every column, of an image blurred in place. Pixel (x, y) of a
    w * h image lies at y * stride + x with w <= stride; what lies between rows is padding. */
module StackBlurImage {
  import opened Basics
  import opened StackBlurTables
  import opened StackBlur

  ghost predicate ImageFits(size: int, w: int, h: int, stride: int) {
    1 <= w <= stride && 1 <= h && (h - 1) * stride + w <= size
  }

  lemma StripsFit(size: int, w: int, h: int, stride: int, x: int, y: int)
    requires ImageFits(size, w, h, stride) && 0 <= x < w && 0 <= y < h
    ensures StripFits(size, y * stride, 1, w) && StripFits(size, x, stride, h)
    ensures Cell(y * stride, 1, x) == y * stride + x == Cell(x, stride, y)
    ensures 0 <= y * stride + x < size
  {
    MulLe(y, h - 1, stride);
    MulLe(0, y, stride);
  }

  lemma AddressOrder(w: int, stride: int, x0: int, y0: int, x1: int, y1: int)
    requires 0 <= x0 < w <= stride && 0 <= x1 && 0 <= y0 < y1
    ensures y0 * stride + x0 < y1 * stride + x1
  {
    MulLe(y0 + 1, y1, stride);
    MulNext(y0, stride);
  }

  /** Distinct pixels have distinct addresses. */
  lemma AddressUnique(w: int, stride: int, x0: int, y0: int, x1: int, y1: int)
    requires 0 <= x0 < w <= stride && 0 <= x1 < w && 0 <= y0 && 0 <= y1
    requires y0 * stride + x0 == y1 * stride + x1
    ensures x0 == x1 && y0 == y1
  {
    if y0 < y1 { AddressOrder(w, stride, x0, y0, x1, y1); }
    if y1 < y0 { AddressOrder(w, stride, x1, y1, x0, y0); }
  }

  ghost function Row(img: seq<Pixel>, w: int, h: int, stride: int, y: int): (line: seq<Pixel>)
    requires ImageFits(|img|, w, h, stride) && 0 <= y < h
    ensures |line| == w
  {
    StripsFit(|img|, w, h, stride, 0, y);
    Strip(img, y * stride, 1, w)
  }

  ghost function Column(img: seq<Pixel>, w: int, h: int, stride: int, x: int): (line: seq<Pixel>)
    requires ImageFits(|img|, w, h, stride) && 0 <= x < w
    ensures |line| == h
  {
    StripsFit(|img|, w, h, stride, x, 0);
    Strip(img, x, stride, h)
  }

  ghost predicate RowSpans(w: int, stride: int, y: int, p: int) {
    y * stride <= p < y * stride + w
  }

  ghost predicate InImage(w: int, h: int, stride: int, p: int) {
    exists y :: 0 <= y < h && RowSpans(w, stride, y, p)
  }

  ghost predicate PaddingKept(now: seq<Pixel>, was: seq<Pixel>, w: int, h: int, stride: int) {
    |now| == |was| && forall p :: 0 <= p < |now| && !InImage(w, h, stride, p) ==> now[p] == was[p]
  }

  /** The rows before `y` are blurred, the others untouched. */
  ghost predicate RowsBlurred(now: seq<Pixel>, was: seq<Pixel>, w: int, h: int, stride: int, y: int, r: int) {
    && ImageFits(|was|, w, h, stride) && 0 <= r <= MAX_RADIUS && PaddingKept(now, was, w, h, stride)
    && (forall v :: 0 <= v < y && v < h ==> Row(now, w, h, stride, v) == BlurLine(Row(was, w, h, stride, v), r))
    && (forall v :: y <= v < h && 0 <= v ==> Row(now, w, h, stride, v) == Row(was, w, h, stride, v))
  }

  /** The columns before `x` are blurred, the others untouched. */
  ghost predicate ColumnsBlurred(now: seq<Pixel>, was: seq<Pixel>, w: int, h: int, stride: int, x: int, r: int) {
    && ImageFits(|was|, w, h, stride) && 0 <= r <= MAX_RADIUS && PaddingKept(now, was, w, h, stride)
    && (forall u :: 0 <= u < x && u < w ==>
          Column(now, w, h, stride, u) == BlurLine(Column(was, w, h, stride, u), r))
    && (forall u :: x <= u < w && 0 <= u ==> Column(now, w, h, stride, u) == Column(was, w, h, stride, u))
  }

  /** Replacing one row changes no other row and nothing beside the image. */
  lemma OtherRowsKept(next: seq<Pixel>, now: seq<Pixel>, w: int, h: int, stride: int, y: int)
    requires ImageFits(|now|, w, h, stride) && 0 <= y < h && |next| == |now|
    requires forall p :: 0 <= p < |now| && !OnStrip(y * stride, 1, w, p) ==> next[p] == now[p]
    ensures forall v :: 0 <= v < h && v != y ==> Row(next, w, h, stride, v) == Row(now, w, h, stride, v)
    ensures PaddingKept(next, now, w, h, stride)
  {
    forall v | 0 <= v < h && v != y ensures Row(next, w, h, stride, v) == Row(now, w, h, stride, v) {
      forall u | 0 <= u < w ensures Row(next, w, h, stride, v)[u] == Row(now, w, h, stride, v)[u] {
        StripsFit(|now|, w, h, stride, u, v);
        var p := Cell(v * stride, 1, u);
        if OnStrip(y * stride, 1, w, p) {
          var i :| 0 <= i < w && p == Cell(y * stride, 1, i);
          AddressUnique(w, stride, u, v, i, y);
        }
      }
    }
    forall p | 0 <= p < |next| && !InImage(w, h, stride, p) ensures next[p] == now[p] {
      assert !RowSpans(w, stride, y, p);
    }
  }

  /** The same for a column. */
  lemma OtherColumnsKept(next: seq<Pixel>, now: seq<Pixel>, w: int, h: int, stride: int, x: int)
    requires ImageFits(|now|, w, h, stride) && 0 <= x < w && |next| == |now|
    requires forall p :: 0 <= p < |now| && !OnStrip(x, stride, h, p) ==> next[p] == now[p]
    ensures forall u :: 0 <= u < w && u != x ==> Column(next, w, h, stride, u) == Column(now, w, h, stride, u)
    ensures PaddingKept(next, now, w, h, stride)
  {
    forall u | 0 <= u < w && u != x ensures Column(next, w, h, stride, u) == Column(now, w, h, stride, u) {
      forall v | 0 <= v < h ensures Column(next, w, h, stride, u)[v] == Column(now, w, h, stride, u)[v] {
        StripsFit(|now|, w, h, stride, u, v);
        var p := Cell(u, stride, v);
        if OnStrip(x, stride, h, p) {
          var i :| 0 <= i < h && p == Cell(x, stride, i);
          AddressUnique(w, stride, u, v, x, i);
        }
      }
    }
    forall p | 0 <= p < |next| && !InImage(w, h, stride, p) ensures next[p] == now[p] {
      if OnStrip(x, stride, h, p) {
        var i :| 0 <= i < h && p == Cell(x, stride, i);
        assert RowSpans(w, stride, i, p);
        assert false;
      }
    }
  }

  lemma RowStep(next: seq<Pixel>, now: seq<Pixel>, was: seq<Pixel>, w: int, h: int, stride: int, y: int, r: int)
    requires 0 <= y < h && RowsBlurred(now, was, w, h, stride, y, r)
    requires StripBlurred(next, now, y * stride, 1, w, r)
    ensures RowsBlurred(next, was, w, h, stride, y + 1, r)
  {
    OtherRowsKept(next, now, w, h, stride, y);
  }

  lemma ColumnStep(next: seq<Pixel>, now: seq<Pixel>, was: seq<Pixel>, w: int, h: int, stride: int, x: int, r: int)
    requires 0 <= x < w && ColumnsBlurred(now, was, w, h, stride, x, r)
    requires StripBlurred(next, now, x, stride, h, r)
    ensures ColumnsBlurred(next, was, w, h, stride, x + 1, r)
  {
    OtherColumnsKept(next, now, w, h, stride, x);
  }

  method BlurRows(buf: array<Pixel>, w: int, h: int, stride: int, r: int)
    requires 1 <= r <= MAX_RADIUS && ImageFits(buf.Length, w, h, stride)
    modifies buf
    ensures RowsBlurred(buf[..], old(buf[..]), w, h, stride, h, r)
  {
    var y := 0;
    while y < h
      invariant 0 <= y <= h
      invariant RowsBlurred(buf[..], old(buf[..]), w, h, stride, y, r)
    {
      hide RowsBlurred, StripBlurred;
      StripsFit(buf.Length, w, h, stride, 0, y);
      ghost var now := buf[..];
      BlurStrip(buf, y * stride, 1, w, r);
      RowStep(buf[..], now, old(buf[..]), w, h, stride, y, r);
      y := y + 1;
    }
  }

  method BlurColumns(buf: array<Pixel>, w: int, h: int, stride: int, r: int)
    requires 1 <= r <= MAX_RADIUS && ImageFits(buf.Length, w, h, stride)
    modifies buf
    ensures ColumnsBlurred(buf[..], old(buf[..]), w, h, stride, w, r)
  {
    var x := 0;
    while x < w
      invariant 0 <= x <= w
      invariant ColumnsBlurred(buf[..], old(buf[..]), w, h, stride, x, r)
    {
      hide ColumnsBlurred, StripBlurred;
      StripsFit(buf.Length, w, h, stride, x, 0);
      ghost var now := buf[..];
      BlurStrip(buf, x, stride, h, r);
      ColumnStep(buf[..], now, old(buf[..]), w, h, stride, x, r);
      x := x + 1;
    }
  }

  function Capped(radius: int): (r: int)
    ensures r == if radius >= 254 then 254 else radius
  {
    if radius > MAX_RADIUS then MAX_RADIUS else radius
  }

  /** `rows` is the image between the two passes. A radius of 0 leaves out its pass, and radii
      above 254 count as 254. */
  method StackBlurGray8(buf: array<Pixel>, w: int, h: int, stride: int, rx: nat, ry: nat)
    returns (ghost rows: seq<Pixel>)
    requires ImageFits(buf.Length, w, h, stride)
    modifies buf
    ensures if rx == 0 then rows == old(buf[..])
            else RowsBlurred(rows, old(buf[..]), w, h, stride, h, Capped(rx))
    ensures |rows| == buf.Length
    ensures if ry == 0 then buf[..] == rows
            else ColumnsBlurred(buf[..], rows, w, h, stride, w, Capped(ry))
  {
    if rx > 0 {
      BlurRows(buf, w, h, stride, Capped(rx));
    }
    rows := buf[..];
    if ry > 0 {
      BlurColumns(buf, w, h, stride, Capped(ry));
    }
  }

  /** In pixels: a row pass stores at (x, y) the blurred value of row y of the image before, at x. */
  lemma RowPixels(now: seq<Pixel>, was: seq<Pixel>, w: int, h: int, stride: int, r: int, x: int, y: int)
    requires RowsBlurred(now, was, w, h, stride, h, r) && 0 <= x < w && 0 <= y < h
    ensures 0 <= y * stride + x < |now|
    ensures now[y * stride + x] == Blurred(Row(was, w, h, stride, y), x, r)
    ensures Row(was, w, h, stride, y)[x] == was[y * stride + x]
  {
    StripsFit(|was|, w, h, stride, x, y);
    hide Blurred;
    assert Row(now, w, h, stride, y) == BlurLine(Row(was, w, h, stride, y), r);
    assert Row(now, w, h, stride, y)[x] == now[y * stride + x];
  }

  lemma ColumnPixels(now: seq<Pixel>, was: seq<Pixel>, w: int, h: int, stride: int, r: int, x: int, y: int)
    requires ColumnsBlurred(now, was, w, h, stride, w, r) && 0 <= x < w && 0 <= y < h
    ensures 0 <= y * stride + x < |now|
    ensures now[y * stride + x] == Blurred(Column(was, w, h, stride, x), y, r)
    ensures Column(was, w, h, stride, x)[y] == was[y * stride + x]
  {
    StripsFit(|was|, w, h, stride, x, y);
    hide Blurred;
    assert Column(now, w, h, stride, x) == BlurLine(Column(was, w, h, stride, x), r);
    assert Column(now, w, h, stride, x)[y] == now[y * stride + x];
  }

  /** What lies behind the end of a row or of the image keeps its value. */
  lemma PaddingIs(now: seq<Pixel>, was: seq<Pixel>, w: int, h: int, stride: int, p: int)
    requires PaddingKept(now, was, w, h, stride) && 1 <= w <= stride && 0 <= p < |now|
    requires p % stride >= w || p / stride >= h
    ensures now[p] == was[p]
  {
    if y :| 0 <= y < h && RowSpans(w, stride, y, p) {
      RemainderIs(p, stride, y, p - y * stride);
      QuotientIs(p, stride, y, p - y * stride);
    }
  }

  ghost predicate PixelsBetween(img: seq<Pixel>, w: int, h: int, stride: int, lo: int, hi: int)
    requires ImageFits(|img|, w, h, stride)
  {
    forall x, y :: 0 <= x < w && 0 <= y < h ==> lo <= Row(img, w, h, stride, y)[x] <= hi
  }

  lemma RowMeetsColumn(img: seq<Pixel>, w: int, h: int, stride: int, x: int, y: int)
    requires ImageFits(|img|, w, h, stride) && 0 <= x < w && 0 <= y < h
    ensures Row(img, w, h, stride, y)[x] == Column(img, w, h, stride, x)[y]
  {
    StripsFit(|img|, w, h, stride, x, y);
  }

  lemma RowsKeepBounds(was: seq<Pixel>, rows: seq<Pixel>, w: int, h: int, stride: int, r: int, lo: nat, hi: nat)
    requires RowsBlurred(rows, was, w, h, stride, h, r) && PixelsBetween(was, w, h, stride, lo, hi)
    ensures PixelsBetween(rows, w, h, stride, lo, hi)
  {
    hide Row, Blurred;
    forall x, y | 0 <= x < w && 0 <= y < h ensures lo <= Row(rows, w, h, stride, y)[x] <= hi {
      var line := Row(was, w, h, stride, y);
      assert Row(rows, w, h, stride, y) == BlurLine(line, r);
      BlurredStaysInRange(line, x, r, lo, hi);
    }
  }

  lemma ColumnsKeepBounds(rows: seq<Pixel>, now: seq<Pixel>, w: int, h: int, stride: int, r: int, lo: nat, hi: nat)
    requires ColumnsBlurred(now, rows, w, h, stride, w, r) && PixelsBetween(rows, w, h, stride, lo, hi)
    ensures PixelsBetween(now, w, h, stride, lo, hi)
  {
    hide Row, Column, Blurred;
    forall x, y | 0 <= x < w && 0 <= y < h ensures lo <= Row(now, w, h, stride, y)[x] <= hi {
      var line := Column(rows, w, h, stride, x);
      forall v | 0 <= v < h ensures lo <= line[v] <= hi { RowMeetsColumn(rows, w, h, stride, x, v); }
      assert Column(now, w, h, stride, x) == BlurLine(line, r);
      BlurredStaysInRange(line, y, r, lo, hi);
      RowMeetsColumn(now, w, h, stride, x, y);
    }
  }

  /** Whatever bounds all pixels kept before the blur, they keep after both passes; with lo = hi,
      a constant image is a fixed point. */
  lemma BlurKeepsBounds(was: seq<Pixel>, rows: seq<Pixel>, now: seq<Pixel>, w: int, h: int, stride: int,
                        rx: int, ry: int, lo: nat, hi: nat)
    requires RowsBlurred(rows, was, w, h, stride, h, rx) && ColumnsBlurred(now, rows, w, h, stride, w, ry)
    requires PixelsBetween(was, w, h, stride, lo, hi)
    ensures PixelsBetween(now, w, h, stride, lo, hi)
  {
    RowsKeepBounds(was, rows, w, h, stride, rx, lo, hi);
    ColumnsKeepBounds(rows, now, w, h, stride, ry, lo, hi);
  }
}
