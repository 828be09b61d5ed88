/** Alpha-mask spans of `agg_alpha_mask_u8.h`: clipped row and column fills and combinations
    against the lookup of single pixels. */
module AlphaMask {
  import opened Basics

  type Cover = v: int | 0 <= v < 256

  const COVER_FULL := 255

  lemma QuarterK(p: nat, val: Cover, mask: Cover)
    requires p <= 255 * mask && p <= 255 * val
    ensures (COVER_FULL + p) / 256 <= val && (COVER_FULL + p) / 256 <= mask
  {
  }

  lemma ScaledBound(val: Cover, mask: Cover)
    ensures 0 <= (COVER_FULL + val * mask) / 256 <= val && (COVER_FULL + val * mask) / 256 <= mask
  {
    MulLe(val, 255, mask);
    MulLe(mask, 255, val);
    MulLe(0, val, mask);
    QuarterK(val * mask, val, mask);
  }

  /** The cover arithmetic: v * m / 256 rounded up, never above either factor. */
  function Scaled(val: Cover, mask: Cover): (r: Cover)
    ensures 256 * (r - 1) < val * mask <= 256 * r
    ensures r <= val && r <= mask
    ensures mask == COVER_FULL ==> r == val
    ensures val == COVER_FULL ==> r == mask
  {
    ScaledBound(val, mask);
    (COVER_FULL + val * mask) / 256
  }

  method Zero(dst: array<Cover>, lo: nat, hi: nat)
    requires lo <= hi <= dst.Length
    modifies dst
    ensures forall p :: 0 <= p < dst.Length ==> dst[p] == if lo <= p < hi then 0 else old(dst[p])
  {
    var i := lo;
    while i < hi
      invariant lo <= i <= hi
      invariant forall p :: 0 <= p < dst.Length ==> dst[p] == if lo <= p < i then 0 else old(dst[p])
    {
      dst[i] := 0;
      i := i + 1;
    }
  }

  /** The clipping that all four spans share: zeroes what lies before 0 or from `extent` on, and leaves
      `count` elements from `covers` on that lie inside, the first of them at `at`. */
  method Clip(at0: int, extent: nat, dst: array<Cover>, off: nat, numPix: nat)
    returns (at: int, count: int, covers: nat)
    requires numPix >= 1 && off + numPix <= dst.Length
    modifies dst
    ensures 0 <= count && off <= covers && covers + count <= off + numPix
    ensures count > 0 ==> at == at0 + (covers - off) && 0 <= at && at + count <= extent
    ensures forall p {:trigger dst[p]} :: off <= p < off + numPix ==>
              (0 <= at0 + (p - off) < extent <==> covers <= p < covers + count)
    ensures forall p :: 0 <= p < dst.Length ==>
              dst[p] == if off <= p < off + numPix && !(covers <= p < covers + count) then 0 else old(dst[p])
  {
    var max := extent - 1;
    at, count, covers := at0, numPix, off;
    if at < 0 {
      count := count + at;
      if count <= 0 {
        Zero(dst, off, off + numPix);
        return at, 0, off;
      }
      Zero(dst, covers, covers - at);
      covers := covers - at;
      at := 0;
    }
    if at + count > max {
      var rest := at + count - max - 1;
      count := count - rest;
      if count <= 0 {
        Zero(dst, off, off + numPix);
        return at, 0, off;
      }
      Zero(dst, covers + count, covers + count + rest);
    }
  }

  /** The mask values, by row and column, as the mask function computes them from the buffer. */
  class Mask {
    const values: array2<Cover>

    constructor (values: array2<Cover>)
      ensures this.values == values
    {
      this.values := values;
    }

    function Width(): int { values.Length1 }

    function Height(): int { values.Length0 }

    /** `pixel`: the mask value, and nothing outside the mask. */
    function Pixel(x: int, y: int): Cover
      reads values
    {
      if 0 <= x < Width() && 0 <= y < Height() then values[y, x] else 0
    }

    /** `combine_pixel`: a cover scaled by the mask value. */
    function CombinePixel(x: int, y: int, val: Cover): Cover
      reads values
    {
      if 0 <= x < Width() && 0 <= y < Height() then Scaled(val, values[y, x]) else 0
    }

    /** Rows: sets each dst[p] of the span to the mask value at (x0 + p - off, y). */
    method FillHSpan(x0: int, y: int, dst: array<Cover>, off: nat, numPix: nat)
      requires numPix >= 1 && off + numPix <= dst.Length
      modifies dst
      ensures forall p :: off <= p < off + numPix ==> dst[p] == Pixel(x0 + (p - off), y)
      ensures forall p :: 0 <= p < dst.Length && !(off <= p < off + numPix) ==> dst[p] == old(dst[p])
    {
      if y < 0 || y > Height() - 1 {
        Zero(dst, off, off + numPix);
        return;
      }
      var x, count, covers := Clip(x0, Width(), dst, off, numPix);
      ghost var first, total := covers, count;
      while count > 0
        invariant 0 <= count <= total && covers == first + (total - count) && (total > 0 ==> x == x0 + (covers - off))
        invariant forall p :: off <= p < covers ==> dst[p] == Pixel(x0 + (p - off), y)
        invariant forall p :: first + total <= p < off + numPix ==> dst[p] == 0
        invariant forall p :: 0 <= p < dst.Length && !(off <= p < off + numPix) ==> dst[p] == old(dst[p])
      {
        dst[covers] := values[y, x];
        covers, x, count := covers + 1, x + 1, count - 1;
      }
    }

    /** Rows: scales each dst[p] of the span by the mask value at (x0 + p - off, y). */
    method CombineHSpan(x0: int, y: int, dst: array<Cover>, off: nat, numPix: nat)
      requires numPix >= 1 && off + numPix <= dst.Length
      modifies dst
      ensures forall p :: off <= p < off + numPix ==> dst[p] == CombinePixel(x0 + (p - off), y, old(dst[p]))
      ensures forall p :: 0 <= p < dst.Length && !(off <= p < off + numPix) ==> dst[p] == old(dst[p])
    {
      if y < 0 || y > Height() - 1 {
        Zero(dst, off, off + numPix);
        return;
      }
      var x, count, covers := Clip(x0, Width(), dst, off, numPix);
      ghost var first, total := covers, count;
      while count > 0
        invariant 0 <= count <= total && covers == first + (total - count) && (total > 0 ==> x == x0 + (covers - off))
        invariant forall p :: off <= p < covers ==> dst[p] == CombinePixel(x0 + (p - off), y, old(dst[p]))
        invariant forall p :: covers <= p < first + total ==> dst[p] == old(dst[p])
        invariant forall p :: first + total <= p < off + numPix ==> dst[p] == 0
        invariant forall p :: 0 <= p < dst.Length && !(off <= p < off + numPix) ==> dst[p] == old(dst[p])
      {
        dst[covers] := Scaled(dst[covers], values[y, x]);
        covers, x, count := covers + 1, x + 1, count - 1;
      }
    }

    /** Columns: sets each dst[p] of the span to the mask value at (x, y0 + p - off). */
    method FillVSpan(x: int, y0: int, dst: array<Cover>, off: nat, numPix: nat)
      requires numPix >= 1 && off + numPix <= dst.Length
      modifies dst
      ensures forall p :: off <= p < off + numPix ==> dst[p] == Pixel(x, y0 + (p - off))
      ensures forall p :: 0 <= p < dst.Length && !(off <= p < off + numPix) ==> dst[p] == old(dst[p])
    {
      if x < 0 || x > Width() - 1 {
        Zero(dst, off, off + numPix);
        return;
      }
      var y, count, covers := Clip(y0, Height(), dst, off, numPix);
      ghost var first, total := covers, count;
      while count > 0
        invariant 0 <= count <= total && covers == first + (total - count) && (total > 0 ==> y == y0 + (covers - off))
        invariant forall p :: off <= p < covers ==> dst[p] == Pixel(x, y0 + (p - off))
        invariant forall p :: first + total <= p < off + numPix ==> dst[p] == 0
        invariant forall p :: 0 <= p < dst.Length && !(off <= p < off + numPix) ==> dst[p] == old(dst[p])
      {
        dst[covers] := values[y, x];
        covers, y, count := covers + 1, y + 1, count - 1;
      }
    }

    /** Columns: scales each dst[p] of the span by the mask value at (x, y0 + p - off). */
    method CombineVSpan(x: int, y0: int, dst: array<Cover>, off: nat, numPix: nat)
      requires numPix >= 1 && off + numPix <= dst.Length
      modifies dst
      ensures forall p :: off <= p < off + numPix ==> dst[p] == CombinePixel(x, y0 + (p - off), old(dst[p]))
      ensures forall p :: 0 <= p < dst.Length && !(off <= p < off + numPix) ==> dst[p] == old(dst[p])
    {
      if x < 0 || x > Width() - 1 {
        Zero(dst, off, off + numPix);
        return;
      }
      var y, count, covers := Clip(y0, Height(), dst, off, numPix);
      ghost var first, total := covers, count;
      while count > 0
        invariant 0 <= count <= total && covers == first + (total - count) && (total > 0 ==> y == y0 + (covers - off))
        invariant forall p :: off <= p < covers ==> dst[p] == CombinePixel(x, y0 + (p - off), old(dst[p]))
        invariant forall p :: covers <= p < first + total ==> dst[p] == old(dst[p])
        invariant forall p :: first + total <= p < off + numPix ==> dst[p] == 0
        invariant forall p :: 0 <= p < dst.Length && !(off <= p < off + numPix) ==> dst[p] == old(dst[p])
      {
        dst[covers] := Scaled(dst[covers], values[y, x]);
        covers, y, count := covers + 1, y + 1, count - 1;
      }
    }
  }
}
