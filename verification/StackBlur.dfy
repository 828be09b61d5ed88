/** The stack blur of `agg_blur.h` for 8-bit pixels: three running sums and a ring buffer
    stand in for a convolution with a triangle, computed in place along rows and columns. */
module StackBlur {
  import opened Basics
  import opened StackBlurTables

  type Pixel = v: int | 0 <= v < 256

  const MAX_RADIUS := 254

  // ----- The convolution that the blur stands for -----

  /** The pixel at `i`, the border pixels repeating for ever. */
  function Src(line: seq<Pixel>, i: int): Pixel
    requires line != []
  {
    if i < 0 then line[0] else if i >= |line| then line[|line| - 1] else line[i]
  }

  /** Sum over j in [-r, k] of (r + 1 - |j|) * Src(x + j). */
  ghost function Triangle(line: seq<Pixel>, x: int, r: int, k: int): int
    requires line != [] && 0 <= r && -r - 1 <= k
    decreases k + r + 1
  {
    if k == -r - 1 then 0 else Triangle(line, x, r, k - 1) + (r + 1 - Abs(k)) * Src(line, x + k)
  }

  ghost function TriangleSum(line: seq<Pixel>, x: int, r: int): int
    requires line != [] && 0 <= r
  {
    Triangle(line, x, r, r)
  }

  /** Sum of Src over [lo, hi). */
  ghost function Window(line: seq<Pixel>, lo: int, hi: int): int
    requires line != []
    decreases hi - lo
  {
    if hi <= lo then 0 else Window(line, lo, hi - 1) + Src(line, hi - 1)
  }

  lemma {:induction false} WindowFront(line: seq<Pixel>, lo: int, hi: int)
    requires line != [] && lo < hi
    ensures Window(line, lo, hi) == Src(line, lo) + Window(line, lo + 1, hi)
    decreases hi - lo
  {
    if lo + 1 < hi { WindowFront(line, lo, hi - 1); }
  }

  lemma Distribute(a: int, b: int, s: int)
    ensures (a + b) * s == a * s + b * s
  {
  }

  /** Moving the triangle one to the right: its left half loses one of each weight, its right half gains one. */
  lemma {:induction false} TriangleShift(line: seq<Pixel>, x: int, r: int, k: int)
    requires line != [] && 0 <= r && -r - 1 <= k <= r
    ensures k < 0 ==> Triangle(line, x + 1, r, k) == Triangle(line, x, r, k + 1) - Window(line, x - r, x + k + 2)
    ensures k >= 0 ==>
              Triangle(line, x + 1, r, k)
              == Triangle(line, x, r, k + 1) - Window(line, x - r, x + 1) + Window(line, x + 1, x + k + 2)
    decreases k + r + 1
  {
    var s := Src(line, x + k + 1);
    if k == -r - 1 {
      assert Triangle(line, x, r, -r) == Triangle(line, x, r, -r - 1) + 1 * s;
      assert Window(line, x - r, x - r + 1) == Window(line, x - r, x - r) + s;
    } else {
      TriangleShift(line, x, r, k - 1);
      if k < 0 {
        assert Abs(k) == Abs(k + 1) + 1;
        Distribute(r + 1 - Abs(k), 1, s);
      } else {
        assert Abs(k + 1) == Abs(k) + 1;
        Distribute(r - Abs(k), 1, s);
      }
    }
  }

  lemma TriangleStep(line: seq<Pixel>, x: int, r: int)
    requires line != [] && 0 <= r
    ensures TriangleSum(line, x + 1, r)
         == TriangleSum(line, x, r) - Window(line, x - r, x + 1) + Window(line, x + 1, x + r + 2)
  {
    TriangleShift(line, x, r, r);
    assert Triangle(line, x, r, r + 1) == Triangle(line, x, r, r) + 0 * Src(line, x + r + 1);
  }

  /** Total of the weights -r .. k. */
  ghost function Weights(r: int, k: int): int
    requires 0 <= r && -r - 1 <= k
    decreases k + r + 1
  {
    if k == -r - 1 then 0 else Weights(r, k - 1) + (r + 1 - Abs(k))
  }

  lemma {:induction false} WeightsClosed(r: int, k: int)
    requires 0 <= r && -r - 1 <= k <= r
    ensures k <= 0 ==> 2 * Weights(r, k) == (r + 1 + k) * (r + 2 + k)
    ensures k >= 0 ==> 2 * Weights(r, k) == 2 * (r + 1) * (r + 1) - (r - k) * (r + 1 - k)
    decreases k + r + 1
  {
    if k > -r - 1 {
      WeightsClosed(r, k - 1);
    }
  }

  lemma AddWeighted(lo: nat, hi: nat, total: int, w: int, sum: int, s: nat)
    requires lo * total <= sum <= hi * total && lo <= s <= hi && 0 <= w
    ensures lo * (total + w) <= sum + w * s <= hi * (total + w)
  {
    Distribute(total, w, lo);
    Distribute(total, w, hi);
    MulLe(lo, s, w);
    MulLe(s, hi, w);
  }

  lemma {:induction false} TriangleBetween(line: seq<Pixel>, x: int, r: int, k: int, lo: nat, hi: nat)
    requires line != [] && 0 <= r && -r - 1 <= k <= r
    requires forall i :: 0 <= i < |line| ==> lo <= line[i] <= hi
    ensures lo * Weights(r, k) <= Triangle(line, x, r, k) <= hi * Weights(r, k)
    decreases k + r + 1
  {
    if k > -r - 1 {
      TriangleBetween(line, x, r, k - 1, lo, hi);
      var w, s := r + 1 - Abs(k), Src(line, x + k);
      AddWeighted(lo, hi, Weights(r, k - 1), w, Triangle(line, x, r, k - 1), s);
    }
  }

  lemma TriangleSumBetween(line: seq<Pixel>, x: int, r: int, lo: nat, hi: nat)
    requires line != [] && 0 <= r
    requires forall i :: 0 <= i < |line| ==> lo <= line[i] <= hi
    ensures lo * ((r + 1) * (r + 1)) <= TriangleSum(line, x, r) <= hi * ((r + 1) * (r + 1))
  {
    WeightsClosed(r, r);
    assert Weights(r, r) == (r + 1) * (r + 1);
    TriangleBetween(line, x, r, r, lo, hi);
  }

  /** What the blur stores at column `x`. */
  ghost function Blurred(line: seq<Pixel>, x: int, r: int): (v: Pixel)
    requires line != [] && 0 <= r <= MAX_RADIUS
  {
    TriangleSumBetween(line, x, r, 0, 255);
    ReciprocalStaysBetween(TriangleSum(line, x, r), r, 0, 255);
    Reciprocal(TriangleSum(line, x, r), r)
  }

  /** The stored value is the weighted mean rounded down, or one more. */
  lemma BlurredIsWeightedMean(line: seq<Pixel>, x: int, r: int)
    requires line != [] && 0 <= r <= MAX_RADIUS
    ensures var mean := TriangleSum(line, x, r) / ((r + 1) * (r + 1));
            mean <= Blurred(line, x, r) <= mean + 1
  {
    TriangleSumBetween(line, x, r, 0, 255);
    ReciprocalIsQuotient(TriangleSum(line, x, r), r);
  }

  /** Exactly: it is the sum times the multiplier of the radius, shifted right by its shift. */
  lemma BlurredIsTableDivision(line: seq<Pixel>, x: int, r: int)
    requires line != [] && 0 <= r <= MAX_RADIUS
    ensures var product, p := TriangleSum(line, x, r) * Mul(r), Pow2(Shr(r));
            Blurred(line, x, r) * p <= product < (Blurred(line, x, r) + 1) * p
  {
    hide Mul, Shr, Reciprocal, Pow2, TriangleSum;
    TriangleSumBetween(line, x, r, 0, 255);
    ReciprocalIsDivision(TriangleSum(line, x, r), r);
  }

  /** The blur never leaves the range of the row it is given. */
  lemma BlurredStaysInRange(line: seq<Pixel>, x: int, r: int, lo: nat, hi: nat)
    requires line != [] && 0 <= r <= MAX_RADIUS
    requires forall i :: 0 <= i < |line| ==> lo <= line[i] <= hi
    ensures lo <= Blurred(line, x, r) && Blurred(line, x, r) <= hi
  {
    var top := if hi <= 255 then hi else 255;
    assert line[0] <= top;
    TriangleSumBetween(line, x, r, lo, top);
    ReciprocalStaysBetween(TriangleSum(line, x, r), r, lo, top);
  }

  /** A constant row is a fixed point. */
  lemma BlurredFixesConstantRows(line: seq<Pixel>, x: int, r: int)
    requires line != [] && 0 <= r <= MAX_RADIUS
    requires forall i :: 0 <= i < |line| ==> line[i] == line[0]
    ensures Blurred(line, x, r) == line[0]
  {
    BlurredStaysInRange(line, x, r, line[0], line[0]);
  }

  // ----- The ring buffer -----

  /** The slot `k` places after `ptr` in a ring of 2 * r + 1 slots. */
  function Slot(ptr: int, k: int, r: int): int {
    var div := 2 * r + 1;
    if ptr + k < 0 then ptr + k + div else if ptr + k >= div then ptr + k - div else ptr + k
  }

  /** Around `ptr` the ring holds the 2 * r + 1 source pixels around `x`. */
  ghost predicate RingHolds(ring: seq<Pixel>, ptr: int, line: seq<Pixel>, x: int, r: int)
    requires line != [] && 0 <= r
  {
    && |ring| == 2 * r + 1 && 0 <= ptr < |ring|
    && forall k :: -r <= k <= r ==> ring[Slot(ptr, k, r)] == Src(line, x + k)
  }

  /** Overwriting the oldest pixel and turning the ring by one moves it from `x` to `x + 1`. */
  lemma RingAdvance(ring: seq<Pixel>, ptr: int, line: seq<Pixel>, x: int, r: int)
    requires line != [] && 0 <= r && RingHolds(ring, ptr, line, x, r)
    ensures RingHolds(ring[Slot(ptr, -r, r) := Src(line, x + r + 1)], Slot(ptr, 1, r), line, x + 1, r)
  {
    var next := ring[Slot(ptr, -r, r) := Src(line, x + r + 1)];
    forall k | -r <= k <= r ensures next[Slot(Slot(ptr, 1, r), k, r)] == Src(line, x + 1 + k) {
      if k < r {
        assert Slot(Slot(ptr, 1, r), k, r) == Slot(ptr, k + 1, r);
        assert ring[Slot(ptr, k + 1, r)] == Src(line, x + (k + 1));
      }
    }
  }

  // ----- Strips of a pixel buffer -----
  // A row or a column: `n` cells that start at `start` and lie `step` apart.

  function Cell(start: int, step: int, i: int): int {
    start + i * step
  }

  ghost predicate StripFits(size: int, start: int, step: int, n: int) {
    n >= 1 && step >= 1 && 0 <= start && Cell(start, step, n - 1) < size
  }

  ghost predicate OnStrip(start: int, step: int, n: int, p: int) {
    exists i :: 0 <= i < n && p == Cell(start, step, i)
  }

  lemma MulGrows(d: int, step: int)
    requires d >= 1 && step >= 1
    ensures d * step >= step
  {
  }

  lemma CellOrder(start: int, step: int, i: int, j: int)
    requires step >= 1 && i < j
    ensures Cell(start, step, i) < Cell(start, step, j)
  {
    MulGrows(j - i, step);
    Distribute(i, j - i, step);
  }

  lemma CellNext(start: int, step: int, i: int)
    ensures Cell(start, step, i + 1) == Cell(start, step, i) + step
  {
    MulNext(i, step);
  }

  lemma CellsInRange(size: int, start: int, step: int, n: int)
    requires StripFits(size, start, step, n)
    ensures forall i :: 0 <= i < n ==> 0 <= Cell(start, step, i) < size
    ensures Cell(start, step, 0) == start
  {
    forall i | 0 <= i < n ensures 0 <= Cell(start, step, i) < size {
      assert 0 <= i * step;
      if i < n - 1 { CellOrder(start, step, i, n - 1); }
    }
  }

  lemma CellsDistinct(start: int, step: int, n: int, i: int)
    requires step >= 1 && 0 <= i < n
    ensures forall j :: 0 <= j < n && j != i ==> Cell(start, step, j) != Cell(start, step, i)
  {
    forall j | 0 <= j < n && j != i ensures Cell(start, step, j) != Cell(start, step, i) {
      if i < j { CellOrder(start, step, i, j); } else { CellOrder(start, step, j, i); }
    }
  }

  ghost function Strip(buf: seq<Pixel>, start: int, step: int, n: int): (line: seq<Pixel>)
    requires StripFits(|buf|, start, step, n)
    ensures |line| == n && forall i :: 0 <= i < n ==> line[i] == buf[Cell(start, step, i)]
  {
    CellsInRange(|buf|, start, step, n);
    seq(n, i requires 0 <= i < n => buf[Cell(start, step, i)])
  }

  // ----- The in-place algorithm -----

  /** The column of the last pixel read once column `i` is in reach. */
  function LastRead(i: nat, n: nat): (at: nat)
    requires n > 0
    ensures at < n
  {
    if i < n then i else n - 1
  }

  /** Everything the main loop knows about its registers when it is about to store column `x`. */
  ghost predicate Registers(ring: seq<Pixel>, ptr: int, sum: int, sumIn: int, sumOut: int, pix: Pixel,
                            line: seq<Pixel>, x: int, r: int)
    requires line != [] && 0 <= r && 0 <= x
  {
    && RingHolds(ring, ptr, line, x, r)
    && sum == TriangleSum(line, x, r)
    && sumOut == Window(line, x - r, x + 1)
    && sumIn == Window(line, x + 1, x + r + 1)
    && pix == line[LastRead(x + r, |line|)]
  }

  lemma StartOfSums(line: seq<Pixel>, r: int)
    requires line != [] && 0 <= r
    ensures Triangle(line, 0, r, -r - 1) == 0 && Window(line, 0 - r, 0 - r) == 0 && Window(line, 1, 1) == 0
  {
  }

  lemma NextOfSums(line: seq<Pixel>, r: int, k: int, lo: int)
    requires line != [] && 0 <= r && -r <= k <= r && lo <= k
    ensures Triangle(line, 0, r, k) == Triangle(line, 0, r, k - 1) + Src(line, k) * (r + 1 - Abs(k))
    ensures Window(line, lo, k + 1) == Window(line, lo, k) + Src(line, k)
  {
  }

  /** The left half of the ring and the centre: column 0 and its repetitions to the left. */
  method FillLeft(pix: Pixel, r: int, ring: array<Pixel>, ghost line: seq<Pixel>) returns (sum: int, sumOut: int)
    requires line != [] && pix == line[0] && 1 <= r && ring.Length == 2 * r + 1
    modifies ring
    ensures forall k :: 0 <= k <= r ==> ring[k] == Src(line, k - r)
    ensures sum == Triangle(line, 0, r, 0) && sumOut == Window(line, 0 - r, 1)
  {
    hide Triangle, Window;
    StartOfSums(line, r);
    sum, sumOut := 0, 0;
    var i := 0;
    while i <= r
      invariant 0 <= i <= r + 1
      invariant forall k :: 0 <= k < i ==> ring[k] == pix
      invariant sum == Triangle(line, 0, r, i - 1 - r)
      invariant sumOut == Window(line, 0 - r, i - r)
    {
      NextOfSums(line, r, i - r, 0 - r);
      ring[i] := pix;
      sum := sum + pix * (i + 1);
      sumOut := sumOut + pix;
      i := i + 1;
    }
  }

  /** The right half of the ring: columns 1 .. r, the last column repeating. */
  method FillRight(buf: array<Pixel>, start: int, step: int, n: int, r: int, ring: array<Pixel>, sum0: int)
    returns (sum: int, sumIn: int, pix: Pixel)
    requires 1 <= r && StripFits(buf.Length, start, step, n) && ring.Length == 2 * r + 1 && ring != buf
    requires sum0 == Triangle(Strip(buf[..], start, step, n), 0, r, 0)
    modifies ring
    ensures forall k :: 0 <= k <= r ==> ring[k] == old(ring[k])
    ensures var line := Strip(buf[..], start, step, n);
            && (forall k :: 1 <= k <= r ==> ring[r + k] == Src(line, k))
            && sum == Triangle(line, 0, r, r) && sumIn == Window(line, 1, r + 1)
            && pix == line[LastRead(r, n)]
  {
    ghost var line := Strip(buf[..], start, step, n);
    CellsInRange(buf.Length, start, step, n);
    StartOfSums(line, r);
    hide Cell, Triangle, Window;
    var src := start;
    sum, sumIn, pix := sum0, 0, buf[src];
    var i := 1;
    ghost var at := 0;
    while i <= r
      invariant 1 <= i <= r + 1
      invariant at == (if i - 1 < n then i - 1 else n - 1) && src == Cell(start, step, at) && pix == line[at]
      invariant forall k :: 0 <= k <= r ==> ring[k] == old(ring[k])
      invariant forall k :: 1 <= k < i ==> ring[r + k] == Src(line, k)
      invariant sum == Triangle(line, 0, r, i - 1)
      invariant sumIn == Window(line, 1, i)
    {
      NextOfSums(line, r, i, 1);
      if i <= n - 1 {
        CellNext(start, step, at);
        src := src + step;
        at := at + 1;
      }
      pix := buf[src];
      ring[i + r] := pix;
      sum := sum + pix * (r + 1 - i);
      sumIn := sumIn + pix;
      i := i + 1;
    }
  }

  /** The division as the code computes it, in 32-bit unsigned arithmetic. */
  function MulShift(sum: nat, r: nat): nat
    requires r < 255
  {
    (sum * Mul(r) % UINT_RANGE) / Shifted(Shr(r))
  }

  lemma RegistersAtZero(ring: seq<Pixel>, sum: int, sumIn: int, sumOut: int, pix: Pixel, line: seq<Pixel>, r: int)
    requires line != [] && 1 <= r && |ring| == 2 * r + 1
    requires forall k :: 0 <= k < |ring| ==> ring[k] == Src(line, k - r)
    requires sum == Triangle(line, 0, r, r) && sumIn == Window(line, 1, r + 1) && sumOut == Window(line, 0 - r, 1)
    requires pix == line[LastRead(r, |line|)]
    ensures Registers(ring, r, sum, sumIn, sumOut, pix, line, 0, r)
  {
  }

  /** Fills the ring and the sums for column 0. */
  method FillRing(buf: array<Pixel>, start: int, step: int, n: int, r: int, ring: array<Pixel>)
    returns (sum: int, sumIn: int, sumOut: int, pix: Pixel)
    requires 1 <= r && StripFits(buf.Length, start, step, n) && ring.Length == 2 * r + 1 && ring != buf
    modifies ring
    ensures var line := Strip(buf[..], start, step, n);
            Registers(ring[..], r, sum, sumIn, sumOut, pix, line, 0, r)
  {
    ghost var line := Strip(buf[..], start, step, n);
    CellsInRange(buf.Length, start, step, n);
    pix := buf[start];
    sum, sumOut := FillLeft(pix, r, ring, line);
    assert Strip(buf[..], start, step, n) == line;
    sum, sumIn, pix := FillRight(buf, start, step, n, r, ring, sum);
    forall k | 0 <= k < ring.Length ensures ring[..][k] == Src(line, k - r) {
      if k > r { assert ring[r + (k - r)] == Src(line, k - r); }
    }
    RegistersAtZero(ring[..], sum, sumIn, sumOut, pix, line, r);
  }

  ghost function BlurLine(line: seq<Pixel>, r: int): (out: seq<Pixel>)
    requires line != [] && 0 <= r <= MAX_RADIUS
    ensures |out| == |line|
  {
    seq(|line|, x requires 0 <= x < |line| => Blurred(line, x, r))
  }

  /** The strip holds its blurred line, and nothing off the strip has changed. */
  ghost predicate StripBlurred(now: seq<Pixel>, was: seq<Pixel>, start: int, step: int, n: int, r: int) {
    && |now| == |was| && StripFits(|was|, start, step, n) && 0 <= r <= MAX_RADIUS
    && Strip(now, start, step, n) == BlurLine(Strip(was, start, step, n), r)
    && (forall p :: 0 <= p < |now| && !OnStrip(start, step, n, p) ==> now[p] == was[p])
  }

  /** The registers of column `x`, but with the pixel that enters at column `x + 1` already read. */
  ghost predicate ReadAhead(ring: seq<Pixel>, ptr: int, sum: int, sumIn: int, sumOut: int, pix: Pixel,
                            line: seq<Pixel>, x: int, r: int)
    requires line != [] && 0 <= r && 0 <= x
  {
    && RingHolds(ring, ptr, line, x, r)
    && sum == TriangleSum(line, x, r)
    && sumOut == Window(line, x - r, x + 1)
    && sumIn == Window(line, x + 1, x + r + 1)
    && pix == line[LastRead(x + r + 1, |line|)]
  }

  /** Reads the next source pixel, or repeats the last one at the border. */
  method ReadNext(buf: array<Pixel>, src0: int, xp0: int, pix0: Pixel, n: int, step: int, ghost start: int,
                  ghost want: Pixel)
    returns (src: int, pix: Pixel, xp: int)
    requires 0 <= xp0 < n && src0 == Cell(start, step, xp0)
    requires xp0 < n - 1 ==>
               0 <= Cell(start, step, xp0 + 1) < buf.Length && buf[Cell(start, step, xp0 + 1)] == want
    requires xp0 == n - 1 ==> pix0 == want
    ensures pix == want && xp == LastRead(xp0 + 1, n) && src == Cell(start, step, xp)
  {
    hide Cell;
    src, pix, xp := src0, pix0, xp0;
    if xp < n - 1 {
      CellNext(start, step, xp);
      src := src + step;
      pix := buf[src];
      xp := xp + 1;
    }
  }

  lemma NowReadAhead(ring: seq<Pixel>, ptr: int, sum: int, sumIn: int, sumOut: int, pix0: Pixel, pix: Pixel,
                     line: seq<Pixel>, x: int, r: int)
    requires line != [] && 0 <= r && 0 <= x
    requires Registers(ring, ptr, sum, sumIn, sumOut, pix0, line, x, r)
    requires pix == line[LastRead(x + r + 1, |line|)]
    ensures ReadAhead(ring, ptr, sum, sumIn, sumOut, pix, line, x, r)
  {
  }

  /** The first `x` cells hold blurred values, everything else what it held at the start. */
  ghost predicate StripDone(now: seq<Pixel>, was: seq<Pixel>, start: int, step: int, n: int, x: int, r: int) {
    && |now| == |was| && 0 <= r <= MAX_RADIUS && StripFits(|was|, start, step, n)
    && (forall i :: 0 <= i < x && i < n ==>
          0 <= Cell(start, step, i) < |now|
          && now[Cell(start, step, i)] == Blurred(Strip(was, start, step, n), i, r))
    && (forall i :: x <= i < n && 0 <= i ==>
          0 <= Cell(start, step, i) < |now| && now[Cell(start, step, i)] == was[Cell(start, step, i)])
    && (forall p :: 0 <= p < |now| && !OnStrip(start, step, n, p) ==> now[p] == was[p])
  }

  /** Storing column `x` leaves every later column readable as it was. */
  lemma StripStore(now: seq<Pixel>, was: seq<Pixel>, start: int, step: int, n: int, x: int, r: int)
    requires 0 <= x < n && StripDone(now, was, start, step, n, x, r)
    ensures 0 <= Cell(start, step, x) < |now|
    ensures var line := Strip(was, start, step, n);
            var next := now[Cell(start, step, x) := Blurred(line, x, r)];
            && StripDone(next, was, start, step, n, x + 1, r)
            && forall i :: x < i < n ==> 0 <= Cell(start, step, i) < |next| && next[Cell(start, step, i)] == line[i]
  {
    CellsInRange(|was|, start, step, n);
    CellsDistinct(start, step, n, x);
    assert OnStrip(start, step, n, Cell(start, step, x));
    hide Cell, Blurred, OnStrip, StripFits;
  }

  /** Stores column `x`; a later column `ahead` stays readable as it was. */
  method StoreColumn(buf: array<Pixel>, dst: int, sum: int, r: int,
                     ghost was: seq<Pixel>, ghost start: int, ghost step: int, ghost n: int, ghost x: int,
                     ghost ahead: int)
    requires 0 <= x < n && dst == Cell(start, step, x)
    requires StripDone(buf[..], was, start, step, n, x, r)
    requires 0 <= sum && MulShift(sum, r) == Blurred(Strip(was, start, step, n), x, r)
    modifies buf
    ensures StripDone(buf[..], was, start, step, n, x + 1, r)
    ensures x < ahead < n ==>
              0 <= Cell(start, step, ahead) < buf.Length
              && buf[Cell(start, step, ahead)] == Strip(was, start, step, n)[ahead]
  {
    StripStore(buf[..], was, start, step, n, x, r);
    hide StripDone, Cell, Blurred, MulShift;
    ghost var before := buf[..];
    assert 0 <= dst < buf.Length;
    buf[dst] := MulShift(sum, r);
    assert buf[..] == before[dst := Blurred(Strip(was, start, step, n), x, r)];
  }

  lemma NoWrap(sum: nat, r: nat)
    requires r < 255 && sum * Mul(r) < UINT_RANGE
    ensures MulShift(sum, r) == Reciprocal(sum, r)
  {
    hide Mul, Shr, Shifted;
  }

  lemma StoredValue(ring: seq<Pixel>, ptr: int, sum: int, sumIn: int, sumOut: int, pix: Pixel,
                    line: seq<Pixel>, x: int, r: int)
    requires line != [] && 1 <= r <= MAX_RADIUS && 0 <= x < |line|
    requires Registers(ring, ptr, sum, sumIn, sumOut, pix, line, x, r)
    ensures 0 <= sum && MulShift(sum, r) == Blurred(line, x, r)
    ensures |ring| == 2 * r + 1 && 0 <= ptr < |ring|
    ensures pix == line[LastRead(x + r, |line|)]
  {
    hide Mul, Shr, Shifted;
    TriangleSumBetween(line, x, r, 0, 255);
    ReciprocalStaysBetween(sum, r, 0, 255);
    NoWrap(sum, r);
  }

  /** Stores column `x` and only then reads the next source pixel, which the store has not touched. */
  method StoreAndRead(buf: array<Pixel>, dst: int, src0: int, xp0: int, pix0: Pixel, sum: int, n: int, step: int,
                      r: int,
                      ghost ring: seq<Pixel>, ghost ptr: int, ghost sumIn: int, ghost sumOut: int,
                      ghost was: seq<Pixel>, ghost start: int, ghost x: int)
    returns (src: int, pix: Pixel, xp: int)
    requires 1 <= r <= MAX_RADIUS && 0 <= x < n && StripFits(|was|, start, step, n)
    requires Registers(ring, ptr, sum, sumIn, sumOut, pix0, Strip(was, start, step, n), x, r)
    requires StripDone(buf[..], was, start, step, n, x, r)
    requires xp0 == LastRead(x + r, n)
    requires dst == Cell(start, step, x) && src0 == Cell(start, step, xp0)
    modifies buf
    ensures StripDone(buf[..], was, start, step, n, x + 1, r)
    ensures xp == LastRead(x + r + 1, n) && src == Cell(start, step, xp)
    ensures ReadAhead(ring, ptr, sum, sumIn, sumOut, pix, Strip(was, start, step, n), x, r)
  {
    ghost var line := Strip(was, start, step, n);
    hide Cell, Blurred, StripFits, StripDone, Registers, ReadAhead, MulShift;
    StoredValue(ring, ptr, sum, sumIn, sumOut, pix0, line, x, r);
    StoreColumn(buf, dst, sum, r, was, start, step, n, x, xp0 + 1);
    src, pix, xp := ReadNext(buf, src0, xp0, pix0, n, step, start, line[LastRead(x + r + 1, n)]);
    NowReadAhead(ring, ptr, sum, sumIn, sumOut, pix0, pix, line, x, r);
  }

  /** One turn of the loop body, as an equation between register values. */
  lemma RegistersStep(ring: seq<Pixel>, ptr: int, sum: int, sumIn: int, sumOut: int, pix: Pixel,
                      line: seq<Pixel>, x: int, r: int)
    requires line != [] && 1 <= r && 0 <= x < |line|
    requires ReadAhead(ring, ptr, sum, sumIn, sumOut, pix, line, x, r)
    ensures |ring| == 2 * r + 1 && 0 <= ptr < |ring|
    ensures var oldest := Slot(ptr, -r, r);
            var ptr' := Slot(ptr, 1, r);
            var ring' := ring[oldest := pix];
            var sumIn' := sumIn + pix;
            Registers(ring', ptr', sum - sumOut + sumIn', sumIn' - ring'[ptr'], sumOut - ring[oldest] + ring'[ptr'],
                      pix, line, x + 1, r)
  {
    RingAdvance(ring, ptr, line, x, r);
    TriangleStep(line, x, r);
    WindowFront(line, x - r, x + 1);
    WindowFront(line, x + 1, x + r + 2);
    assert ring[Slot(ptr, -r, r)] == Src(line, x - r);
    var next := ring[Slot(ptr, -r, r) := Src(line, x + r + 1)];
    assert next[Slot(Slot(ptr, 1, r), 0, r)] == Src(line, x + 1);
  }

  /** Retires the oldest pixel, takes in `pix`, and moves the sums and the ring one column on. */
  method TurnRing(ring: array<Pixel>, ptr0: int, sum0: int, sumIn0: int, sumOut0: int, pix: Pixel, r: int,
                  ghost line: seq<Pixel>, ghost x: int)
    returns (ptr: int, sum: int, sumIn: int, sumOut: int)
    requires 1 <= r && 0 <= x < |line|
    requires ReadAhead(ring[..], ptr0, sum0, sumIn0, sumOut0, pix, line, x, r)
    modifies ring
    ensures Registers(ring[..], ptr, sum, sumIn, sumOut, pix, line, x + 1, r)
  {
    RegistersStep(ring[..], ptr0, sum0, sumIn0, sumOut0, pix, line, x, r);
    ghost var ring0 := ring[..];
    var div := 2 * r + 1;
    sum := sum0 - sumOut0;
    var oldest := ptr0 + div - r;
    if oldest >= div { oldest := oldest - div; }
    sumOut := sumOut0 - ring[oldest];
    ring[oldest] := pix;
    sumIn := sumIn0 + pix;
    sum := sum + sumIn;
    ptr := ptr0 + 1;
    if ptr >= div { ptr := 0; }
    var incoming := ring[ptr];
    sumOut := sumOut + incoming;
    sumIn := sumIn - incoming;
    assert oldest == Slot(ptr0, -r, r) && ptr == Slot(ptr0, 1, r);
    assert ring[..] == ring0[oldest := pix];
  }

  /** The main loop, entered with the ring and the sums filled for column 0. */
  method BlurColumns(buf: array<Pixel>, start: int, step: int, n: int, r: int, ring: array<Pixel>,
                     sum0: int, sumIn0: int, sumOut0: int, pix0: Pixel)
    requires 1 <= r <= MAX_RADIUS && StripFits(buf.Length, start, step, n) && ring != buf
    requires Registers(ring[..], r, sum0, sumIn0, sumOut0, pix0,
                       Strip(buf[..], start, step, n), 0, r)
    requires StripDone(buf[..], buf[..], start, step, n, 0, r)
    modifies buf, ring
    ensures StripDone(buf[..], old(buf[..]), start, step, n, n, r)
  {
    ghost var was := buf[..];
    ghost var line := Strip(was, start, step, n);
    assert n >= 1 && Cell(start, step, 0) == start;
    hide Cell, Registers, ReadAhead, Blurred, StripFits, StripDone, MulShift;
    var ptr, sum, sumIn, sumOut, pix, xp := r, sum0, sumIn0, sumOut0, pix0, r;
    if xp > n - 1 { xp := n - 1; }
    var src, dst := Cell(start, step, xp), start;
    var x := 0;
    while x < n
      invariant 0 <= x <= n && xp == LastRead(x + r, n)
      invariant Registers(ring[..], ptr, sum, sumIn, sumOut, pix, line, x, r)
      invariant src == Cell(start, step, xp) && dst == Cell(start, step, x)
      invariant StripDone(buf[..], was, start, step, n, x, r)
    {
      src, pix, xp := StoreAndRead(buf, dst, src, xp, pix, sum, n, step, r, ring[..], ptr, sumIn, sumOut, was, start,
                                   x);
      ptr, sum, sumIn, sumOut := TurnRing(ring, ptr, sum, sumIn, sumOut, pix, r, line, x);
      CellNext(start, step, x);
      dst := dst + step;
      x := x + 1;
    }
  }

  lemma StripStart(was: seq<Pixel>, start: int, step: int, n: int, r: int)
    requires 0 <= r <= MAX_RADIUS && StripFits(|was|, start, step, n)
    ensures StripDone(was, was, start, step, n, 0, r)
  {
    CellsInRange(|was|, start, step, n);
  }

  lemma StripEnd(now: seq<Pixel>, was: seq<Pixel>, start: int, step: int, n: int, r: int)
    requires StripDone(now, was, start, step, n, n, r)
    ensures StripBlurred(now, was, start, step, n, r)
  {
    hide Cell, Blurred;
    assert Strip(now, start, step, n) == BlurLine(Strip(was, start, step, n), r);
  }

  /** Blurs one row or column in place. Every pixel is read before the store that replaces it,
      the 32-bit product never wraps, and nothing off the strip changes. */
  method BlurStrip(buf: array<Pixel>, start: int, step: int, n: int, r: int)
    requires 1 <= r <= MAX_RADIUS && StripFits(buf.Length, start, step, n)
    modifies buf
    ensures StripBlurred(buf[..], old(buf[..]), start, step, n, r)
  {
    hide StripBlurred, StripDone, Registers;
    var ring := new Pixel[2 * r + 1];
    var sum: int, sumIn: int, sumOut: int, pix: Pixel := FillRing(buf, start, step, n, r, ring);
    StripStart(buf[..], start, step, n, r);
    BlurColumns(buf, start, step, n, r, ring, sum, sumIn, sumOut, pix);
    StripEnd(buf[..], old(buf[..]), start, step, n, r);
  }
}
