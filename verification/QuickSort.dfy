/** The iterative quicksort of `agg_array.h`: median-of-three partitioning with
    unguarded scans, insertion sort below a threshold, and an explicit stack of
    80 slots in place of recursion. */
module QuickSort {
  import opened Basics

  const THRESHOLD := 9
  const STACK_SLOTS := 80
  const MAX_INT := 0x7FFF_FFFF

  // ----- Orders, sortedness, rearrangement -----

  ghost predicate NotLessChains<T>(less: (T, T) -> bool, x: T, y: T, z: T) {
    !less(x, y) && !less(y, z) ==> !less(x, z)
  }

  /** What the sort may assume of its comparison: a strict weak order, given as asymmetry and
      transitivity of "not after" (which imply irreflexivity and transitivity of `less`). */
  ghost predicate StrictWeakOrder<T(!new)>(less: (T, T) -> bool) {
    && (forall x, y :: less(x, y) ==> !less(y, x))
    && (forall x, y, z :: NotLessChains(less, x, y, z))
  }

  ghost predicate Sorted<T>(less: (T, T) -> bool, s: seq<T>) {
    forall p, q :: 0 <= p < q < |s| ==> !less(s[q], s[p])
  }

  /** The integers are ordered so, and their ascending sequences are the sorted ones. */
  lemma IntegersAreOrdered(s: seq<int>)
    ensures StrictWeakOrder((x: int, y: int) => x < y)
    ensures Sorted((x: int, y: int) => x < y, s) <==> forall p, q :: 0 <= p < q < |s| ==> s[p] <= s[q]
  {
  }

  /** `t` holds the elements of `s` with their multiplicities, and may differ from it only inside [lo, hi). */
  ghost predicate Rearranged<T>(s: seq<T>, t: seq<T>, lo: int, hi: int) {
    && |s| == |t|
    && multiset(s) == multiset(t)
    && (forall p :: 0 <= p < |s| && !(lo <= p < hi) ==> s[p] == t[p])
  }

  lemma MultisetOfThree<T>(s: seq<T>, lo: int, hi: int)
    requires 0 <= lo <= hi <= |s|
    ensures multiset(s) == multiset(s[..lo]) + multiset(s[lo..hi]) + multiset(s[hi..])
  {
    assert s == s[..lo] + s[lo..hi] + s[hi..];
  }

  lemma CancelMultiset<T>(a: multiset<T>, x: multiset<T>, y: multiset<T>, b: multiset<T>)
    requires a + x + b == a + y + b
    ensures x == y
  {
    forall e ensures x[e] == y[e] {
      assert (a + x + b)[e] == a[e] + x[e] + b[e];
      assert (a + y + b)[e] == a[e] + y[e] + b[e];
    }
  }

  lemma RearrangedSource<T>(s: seq<T>, t: seq<T>, lo: int, hi: int, q: int)
    requires Rearranged(s, t, lo, hi) && 0 <= lo <= q < hi <= |s|
    ensures exists r :: lo <= r < hi && s[r] == t[q]
  {
    MultisetOfThree(s, lo, hi);
    MultisetOfThree(t, lo, hi);
    assert s[..lo] == t[..lo] && s[hi..] == t[hi..];
    CancelMultiset(multiset(s[..lo]), multiset(s[lo..hi]), multiset(t[lo..hi]), multiset(s[hi..]));
    assert t[q] == t[lo..hi][q - lo];
    assert t[q] in multiset(t[lo..hi]);
    assert t[q] in s[lo..hi];
  }

  /** Nothing at or after `c` belongs strictly before anything that precedes `c`. */
  ghost predicate Cut<T>(less: (T, T) -> bool, s: seq<T>, c: int) {
    forall p, q :: 0 <= p < c <= q < |s| ==> !less(s[q], s[p])
  }

  lemma CutSurvives<T>(less: (T, T) -> bool, s: seq<T>, t: seq<T>, lo: int, hi: int, c: int)
    requires 0 <= lo <= hi <= |s| && Rearranged(s, t, lo, hi)
    requires Cut(less, s, c) && !(lo < c < hi)
    ensures Cut(less, t, c)
  {
    forall p, q | 0 <= p < c <= q < |t| ensures !less(t[q], t[p]) {
      if lo <= p < hi {
        RearrangedSource(s, t, lo, hi, p);
      } else if lo <= q < hi {
        RearrangedSource(s, t, lo, hi, q);
      }
    }
  }

  // ----- The pending segments -----

  datatype Segment = Segment(lo: int, hi: int) {
    ghost function Length(): int { hi - lo }

    ghost predicate HasInside(c: int) { lo < c < hi }

    ghost predicate Apart(other: Segment) { hi <= other.lo || other.hi <= lo }
  }

  /** The segments that a stack of (base, limit) pairs stands for, bottom first. */
  ghost function Segments(stack: seq<int>): (r: seq<Segment>)
    ensures |r| == |stack| / 2
  {
    if |stack| < 2 then []
    else Segments(stack[..|stack| - 2]) + [Segment(stack[|stack| - 2], stack[|stack| - 1])]
  }

  ghost predicate Settled(segs: seq<Segment>, c: int) {
    forall k :: 0 <= k < |segs| ==> !segs[k].HasInside(c)
  }

  /** Part of the loop invariant: the segments are apart from one another, their bounds are cuts,
      and so is every position that no segment has strictly inside. */
  ghost predicate Pending<T>(less: (T, T) -> bool, s: seq<T>, segs: seq<Segment>) {
    && (forall k :: 0 <= k < |segs| ==>
          0 <= segs[k].lo <= segs[k].hi <= |s| && Cut(less, s, segs[k].lo) && Cut(less, s, segs[k].hi))
    && (forall i, k :: 0 <= i < k < |segs| ==> segs[i].Apart(segs[k]))
    && (forall c :: 0 <= c <= |s| && Settled(segs, c) ==> Cut(less, s, c))
  }

  /** The k-th segment has at most n / 2^k elements: this is what bounds the stack. */
  ghost predicate Halving(n: int, segs: seq<Segment>) {
    forall k :: 0 <= k < |segs| ==> segs[k].Length() * Pow2(k) <= n
  }

  ghost function TotalLength(segs: seq<Segment>): int {
    if segs == [] then 0 else TotalLength(segs[..|segs| - 1]) + segs[|segs| - 1].Length()
  }

  lemma {:induction false} TotalLengthNonNegative(segs: seq<Segment>)
    requires forall k :: 0 <= k < |segs| ==> 0 <= segs[k].Length()
    ensures 0 <= TotalLength(segs)
  {
    if segs != [] { TotalLengthNonNegative(segs[..|segs| - 1]); }
  }

  /** Rearranging the current segment keeps what is known of the segments below it. */
  lemma PendingBelow<T>(less: (T, T) -> bool, s: seq<T>, t: seq<T>, rest: seq<Segment>, cur: Segment)
    requires Pending(less, s, rest + [cur])
    requires Rearranged(s, t, cur.lo, cur.hi)
    ensures 0 <= cur.lo <= cur.hi <= |s| && Cut(less, t, cur.lo) && Cut(less, t, cur.hi)
    ensures forall k :: 0 <= k < |rest| ==>
              0 <= rest[k].lo <= rest[k].hi <= |t| && Cut(less, t, rest[k].lo) && Cut(less, t, rest[k].hi)
    ensures forall k :: 0 <= k < |rest| ==> rest[k].Apart(cur)
    ensures forall i, k :: 0 <= i < k < |rest| ==> rest[i].Apart(rest[k])
  {
    var all := rest + [cur];
    assert all[|rest|] == cur;
    CutSurvives(less, s, t, cur.lo, cur.hi, cur.lo);
    CutSurvives(less, s, t, cur.lo, cur.hi, cur.hi);
    forall k | 0 <= k < |rest|
      ensures 0 <= rest[k].lo <= rest[k].hi <= |t| && Cut(less, t, rest[k].lo) && Cut(less, t, rest[k].hi)
      ensures rest[k].Apart(cur)
    {
      assert all[k] == rest[k];
      assert all[k].Apart(all[|rest|]);
      CutSurvives(less, s, t, cur.lo, cur.hi, rest[k].lo);
      CutSurvives(less, s, t, cur.lo, cur.hi, rest[k].hi);
    }
    forall i, k | 0 <= i < k < |rest| ensures rest[i].Apart(rest[k]) {
      assert all[i].Apart(all[k]);
    }
  }

  /** A current segment whose interior has become all cuts may be dropped. */
  lemma PendingDrop<T>(less: (T, T) -> bool, s: seq<T>, t: seq<T>, rest: seq<Segment>, cur: Segment)
    requires Pending(less, s, rest + [cur])
    requires Rearranged(s, t, cur.lo, cur.hi)
    requires forall c :: cur.HasInside(c) ==> Cut(less, t, c)
    ensures Pending(less, t, rest)
  {
    PendingBelow(less, s, t, rest, cur);
    var all := rest + [cur];
    assert all[|rest|] == cur;
    forall c | 0 <= c <= |t| && Settled(rest, c) ensures Cut(less, t, c) {
      if !cur.HasInside(c) {
        assert Settled(all, c);
        CutSurvives(less, s, t, cur.lo, cur.hi, c);
      }
    }
  }

  lemma InnerBoundsAreCuts<T>(less: (T, T) -> bool, t: seq<T>, rest: seq<Segment>,
                              cur: Segment, part: Segment, other: Segment)
    requires 0 <= cur.lo <= part.lo <= part.hi <= cur.hi <= |t|
    requires Cut(less, t, cur.lo) && Cut(less, t, cur.hi)
    requires part.Apart(other) && other.lo <= other.hi
    requires forall c :: cur.HasInside(c) && !part.HasInside(c) && !other.HasInside(c) ==> Cut(less, t, c)
    ensures Cut(less, t, part.lo) && Cut(less, t, part.hi)
  {
    assert cur.HasInside(part.lo) || part.lo == cur.lo || part.lo == cur.hi;
    assert cur.HasInside(part.hi) || part.hi == cur.lo || part.hi == cur.hi;
    assert part.lo <= part.hi;
  }

  /** Splitting the current segment around settled positions: `push` goes on the stack and
      `next` becomes current. */
  lemma PendingSplit<T>(less: (T, T) -> bool, s: seq<T>, t: seq<T>, rest: seq<Segment>,
                        cur: Segment, push: Segment, next: Segment)
    requires Pending(less, s, rest + [cur])
    requires Rearranged(s, t, cur.lo, cur.hi)
    requires cur.lo <= push.lo <= push.hi <= cur.hi && cur.lo <= next.lo <= next.hi <= cur.hi
    requires push.Apart(next)
    requires forall c :: cur.HasInside(c) && !push.HasInside(c) && !next.HasInside(c) ==> Cut(less, t, c)
    ensures Pending(less, t, rest + [push] + [next])
  {
    PendingBelow(less, s, t, rest, cur);
    var all := rest + [cur];
    var out := rest + [push] + [next];
    assert all[|rest|] == cur && out[|rest|] == push && out[|rest| + 1] == next;
    forall c | 0 <= c <= |t| && !push.HasInside(c) && !next.HasInside(c) && Settled(rest, c)
      ensures Cut(less, t, c)
    {
      if !cur.HasInside(c) {
        assert Settled(all, c);
        CutSurvives(less, s, t, cur.lo, cur.hi, c);
      }
    }
    forall c | 0 <= c <= |t| && Settled(out, c) ensures Cut(less, t, c) {
      assert forall k :: 0 <= k < |rest| ==> out[k] == rest[k];
    }
    hide Cut, Settled, Rearranged;
    InnerBoundsAreCuts(less, t, rest, cur, push, next);
    InnerBoundsAreCuts(less, t, rest, cur, next, push);
  }

  lemma HalvingSplit(n: int, rest: seq<Segment>, cur: Segment, push: Segment, next: Segment)
    requires Halving(n, rest + [cur])
    requires push.Length() <= cur.Length() && 2 * next.Length() <= cur.Length()
    ensures Halving(n, rest + [push] + [next])
  {
    var m := |rest|;
    var all := rest + [cur];
    var out := rest + [push] + [next];
    assert all[m].Length() * Pow2(m) <= n;
    forall k | 0 <= k < |out| ensures out[k].Length() * Pow2(k) <= n {
      if k < m {
        assert out[k] == all[k];
      } else if k == m {
        MulLe(push.Length(), cur.Length(), Pow2(m));
      } else {
        MulLe(2 * next.Length(), cur.Length(), Pow2(m));
        assert next.Length() * (2 * Pow2(m)) == 2 * next.Length() * Pow2(m);
      }
    }
  }

  lemma Pow2Of28()
    ensures Pow2(28) == 0x1000_0000
  {
    assert Pow2(7) == 128 && Pow2(14) == 0x4000 && Pow2(21) == 0x20_0000;
  }

  /** With fewer than 2^31 elements a segment above the threshold never sits 28 or more deep. */
  lemma DepthBound(n: int, segs: seq<Segment>)
    requires n <= MAX_INT && Halving(n, segs) && segs != []
    requires segs[|segs| - 1].Length() > THRESHOLD
    ensures |segs| <= 28
  {
    if |segs| > 28 {
      var m := |segs| - 1;
      Pow2Monotone(28, m);
      Pow2Of28();
      MulLe(10, segs[m].Length(), Pow2(m));
    }
  }

  // ----- The in-place algorithm -----

  method SwapElements<T>(a: array<T>, i: int, j: int)
    requires 0 <= i < a.Length && 0 <= j < a.Length
    modifies a
    ensures a[i] == old(a[j]) && a[j] == old(a[i])
    ensures forall k :: 0 <= k < a.Length && k != i && k != j ==> a[k] == old(a[k])
    ensures multiset(a[..]) == multiset(old(a[..]))
  {
    var temp := a[i];
    a[i] := a[j];
    a[j] := temp;
  }

  /** Orders the elements at `i`, `base` and `j`. */
  method OrderSamples<T(!new)>(a: array<T>, less: (T, T) -> bool, i: int, base: int, j: int)
    requires StrictWeakOrder(less)
    requires 0 <= base < i < j < a.Length
    modifies a
    ensures !less(a[base], a[i]) && !less(a[j], a[base])
    ensures multiset{a[i], a[base], a[j]} == multiset{old(a[i]), old(a[base]), old(a[j])}
    ensures multiset(a[..]) == multiset(old(a[..]))
    ensures forall k :: 0 <= k < a.Length && k != i && k != base && k != j ==> a[k] == old(a[k])
  {
    if less(a[j], a[i]) { SwapElements(a, i, j); }
    assert NotLessChains(less, a[j], a[i], a[base]);
    if less(a[base], a[i]) { SwapElements(a, base, i); }
    if less(a[j], a[base]) { SwapElements(a, base, j); }
  }

  /** The samples are the elements behind `base`, in the middle and at the end; the one at `base` goes to the middle. */
  ghost predicate SamplesTaken<T>(s: seq<T>, t: seq<T>, base: int, limit: int)
    requires 0 <= base && base + 1 < limit <= |s| == |t|
  {
    var middle := base + (limit - base) / 2;
    && t[middle] == s[base]
    && multiset{t[base + 1], t[base], t[limit - 1]} == multiset{s[base + 1], s[middle], s[limit - 1]}
  }

  /** Moves the middle element to `base` and orders the three samples around it: the median of them ends up there. */
  method MedianOfThree<T(!new)>(a: array<T>, less: (T, T) -> bool, base: int, limit: int)
    requires StrictWeakOrder(less)
    requires 0 <= base && base + THRESHOLD < limit <= a.Length
    modifies a
    ensures Rearranged(old(a[..]), a[..], base, limit)
    ensures !less(a[base], a[base + 1]) && !less(a[limit - 1], a[base])
    ensures SamplesTaken(old(a[..]), a[..], base, limit)
  {
    hide StrictWeakOrder;
    SwapElements(a, base, base + (limit - base) / 2);
    OrderSamples(a, less, base + 1, base, limit - 1);
  }

  /** Hoare partition of [base, limit). The scans carry no bound checks: the samples placed by
      `MedianOfThree`, and later the exchanged elements, stop them. */
  method Partition<T(!new)>(a: array<T>, less: (T, T) -> bool, base: int, limit: int) returns (i: int, j: int)
    requires StrictWeakOrder(less)
    requires 0 <= base && base + THRESHOLD < limit <= a.Length
    modifies a
    ensures base < j < i < limit
    ensures Rearranged(old(a[..]), a[..], base, limit)
    ensures forall p :: base <= p < i ==> !less(a[j], a[p])
    ensures forall q :: j <= q < limit ==> !less(a[q], a[j])
  {
    hide SamplesTaken;
    MedianOfThree(a, less, base, limit);
    i, j := base + 1, limit - 1;
    while true
      invariant base < i <= j < limit
      invariant i == j ==> base + 1 < i && j < limit - 1
      invariant Rearranged(old(a[..]), a[..], base, limit)
      invariant forall p :: base <= p <= i ==> !less(a[base], a[p])
      invariant forall q :: j <= q < limit ==> !less(a[q], a[base])
      decreases j - i
    {
      var i0, j0 := i, j;
      i := i + 1;
      while less(a[i], a[base])
        invariant i0 < i < limit
        invariant j0 <= i ==> i == j0 || (i0 == j0 && i == j0 + 1)
        invariant forall p :: base <= p < i ==> !less(a[base], a[p])
        decreases limit - i
      {
        i := i + 1;
      }
      j := j - 1;
      while less(a[base], a[j])
        invariant base < j < j0
        invariant j <= i0 ==> j == i0 || (i0 == j0 && j == i0 - 1)
        invariant forall q :: j < q < limit ==> !less(a[q], a[base])
        decreases j
      {
        j := j - 1;
      }
      if i > j { break; }
      SwapElements(a, i, j);
    }
    SwapElements(a, base, j);
  }

  /** Lets the element at `last` sink past every greater element of the sorted [base, last). */
  method Sink<T(!new)>(a: array<T>, less: (T, T) -> bool, base: int, last: int)
    requires StrictWeakOrder(less)
    requires 0 <= base < last < a.Length
    requires forall p, q :: base <= p < q < last ==> !less(a[q], a[p])
    modifies a
    ensures Rearranged(old(a[..]), a[..], base, last + 1)
    ensures forall p, q :: base <= p < q <= last ==> !less(a[q], a[p])
  {
    var j := last - 1;
    while less(a[j + 1], a[j])
      invariant base <= j < last
      invariant Rearranged(old(a[..]), a[..], base, last + 1)
      invariant forall p, q :: base <= p < q <= last && q != j + 1 ==> !less(a[q], a[p])
      decreases j
    {
      SwapElements(a, j + 1, j);
      if j == base { return; }
      j := j - 1;
    }
    forall p | base <= p <= j ensures !less(a[j + 1], a[p]) {
      if p < j { assert NotLessChains(less, a[j + 1], a[j], a[p]); }
    }
  }

  method InsertionSort<T(!new)>(a: array<T>, less: (T, T) -> bool, base: int, limit: int)
    requires StrictWeakOrder(less)
    requires 0 <= base <= limit <= a.Length
    modifies a
    ensures Rearranged(old(a[..]), a[..], base, limit)
    ensures forall p, q :: base <= p < q < limit ==> !less(a[q], a[p])
  {
    var i := base + 1;
    while i < limit
      invariant base < i && (i <= limit || limit == base)
      invariant Rearranged(old(a[..]), a[..], base, limit)
      invariant forall p, q :: base <= p < q < i && q < limit ==> !less(a[q], a[p])
    {
      ghost var before := a[..];
      Sink(a, less, base, i);
      assert Rearranged(before, a[..], base, i + 1);
      i := i + 1;
    }
  }

  lemma SegmentsPush(stack: seq<int>, lo: int, hi: int)
    requires |stack| % 2 == 0
    ensures Segments(stack + [lo, hi]) == Segments(stack) + [Segment(lo, hi)]
  {
    var out := stack + [lo, hi];
    assert out[..|out| - 2] == stack;
  }

  lemma TotalLengthPush(segs: seq<Segment>, seg: Segment)
    ensures TotalLength(segs + [seg]) == TotalLength(segs) + seg.Length()
  {
    assert (segs + [seg])[..|segs|] == segs;
  }

  lemma AtStart<T>(less: (T, T) -> bool, s: seq<T>)
    ensures LoopState(less, s, [], 0, |s|)
  {
    var segs := [Segment(0, |s|)];
    assert AllSegments([], 0, |s|) == segs;
    forall c | 0 <= c <= |s| && Settled(segs, c) ensures Cut(less, s, c) {
      assert !segs[0].HasInside(c);
    }
  }

  /** Between two settled ends, everything ordered one way round a pivot is a cut. */
  lemma PivotCuts<T(!new)>(less: (T, T) -> bool, t: seq<T>, base: int, limit: int, i: int, j: int)
    requires StrictWeakOrder(less)
    requires 0 <= base < j < i < limit <= |t|
    requires Cut(less, t, base) && Cut(less, t, limit)
    requires forall p :: base <= p < i ==> !less(t[j], t[p])
    requires forall q :: j <= q < limit ==> !less(t[q], t[j])
    ensures forall c :: j <= c <= i ==> Cut(less, t, c)
  {
    forall c | j <= c <= i ensures Cut(less, t, c) {
      forall p, q | 0 <= p < c <= q < |t| ensures !less(t[q], t[p]) {
        if base <= p && q < limit {
          assert NotLessChains(less, t[q], t[j], t[p]);
        }
      }
    }
  }

  lemma SortedCuts<T>(less: (T, T) -> bool, t: seq<T>, base: int, limit: int)
    requires 0 <= base <= limit <= |t|
    requires Cut(less, t, base) && Cut(less, t, limit)
    requires forall p, q :: base <= p < q < limit ==> !less(t[q], t[p])
    ensures forall c :: base <= c <= limit ==> Cut(less, t, c)
  {
  }

  // ----- The main loop, one step at a time -----

  ghost function AllSegments(slots: seq<int>, base: int, limit: int): seq<Segment> {
    Segments(slots) + [Segment(base, limit)]
  }

  ghost predicate LoopState<T>(less: (T, T) -> bool, s: seq<T>, slots: seq<int>, base: int, limit: int) {
    && |slots| % 2 == 0
    && Pending(less, s, AllSegments(slots, base, limit))
    && Halving(|s|, AllSegments(slots, base, limit))
  }

  lemma CurrentInBounds<T>(less: (T, T) -> bool, s: seq<T>, slots: seq<int>, base: int, limit: int)
    requires LoopState(less, s, slots, base, limit)
    ensures 0 <= base <= limit <= |s|
    ensures 0 <= TotalLength(AllSegments(slots, base, limit))
    ensures |slots| % 2 == 0
    ensures limit - base > THRESHOLD && |s| <= MAX_INT ==> |slots| <= 54
  {
    PendingBelow(less, s, s, Segments(slots), Segment(base, limit));
    TotalLengthNonNegative(AllSegments(slots, base, limit));
    if limit - base > THRESHOLD && |s| <= MAX_INT {
      DepthBound(|s|, AllSegments(slots, base, limit));
    }
  }

  /** The larger part (`pushLo`, `pushHi`) goes on the stack, the smaller becomes current. */
  lemma AfterPush<T>(less: (T, T) -> bool, s: seq<T>, t: seq<T>, slots: seq<int>, base: int, limit: int,
                     push: Segment, next: Segment)
    requires LoopState(less, s, slots, base, limit)
    requires Rearranged(s, t, base, limit)
    requires base <= push.lo <= push.hi <= limit && base <= next.lo <= next.hi <= limit
    requires push.Apart(next) && push.Length() + next.Length() < limit - base
    requires next.Length() <= push.Length()
    requires forall c :: base < c < limit && !push.HasInside(c) && !next.HasInside(c) ==> Cut(less, t, c)
    ensures LoopState(less, t, slots + [push.lo, push.hi], next.lo, next.hi)
    ensures TotalLength(AllSegments(slots + [push.lo, push.hi], next.lo, next.hi))
         < TotalLength(AllSegments(slots, base, limit))
  {
    var rest, cur := Segments(slots), Segment(base, limit);
    PendingSplit(less, s, t, rest, cur, push, next);
    HalvingSplit(|s|, rest, cur, push, next);
    SegmentsPush(slots, push.lo, push.hi);
    TotalLengthPush(rest, cur);
    TotalLengthPush(rest, push);
    TotalLengthPush(rest + [push], next);
  }

  lemma AfterPartition<T(!new)>(less: (T, T) -> bool, s: seq<T>, t: seq<T>, slots: seq<int>,
                                base: int, limit: int, i: int, j: int)
    requires StrictWeakOrder(less)
    requires LoopState(less, s, slots, base, limit)
    requires 0 <= base < j < i < limit <= |t| && Rearranged(s, t, base, limit)
    requires forall p :: base <= p < i ==> !less(t[j], t[p])
    requires forall q :: j <= q < limit ==> !less(t[q], t[j])
    ensures var (pushLo, pushHi, nextLo, nextHi) :=
              if j - base > limit - i then (base, j, i, limit) else (i, limit, base, j);
            && LoopState(less, t, slots + [pushLo, pushHi], nextLo, nextHi)
            && TotalLength(AllSegments(slots + [pushLo, pushHi], nextLo, nextHi))
               < TotalLength(AllSegments(slots, base, limit))
  {
    PendingBelow(less, s, t, Segments(slots), Segment(base, limit));
    PivotCuts(less, t, base, limit, i, j);
    if j - base > limit - i {
      AfterPush(less, s, t, slots, base, limit, Segment(base, j), Segment(i, limit));
    } else {
      AfterPush(less, s, t, slots, base, limit, Segment(i, limit), Segment(base, j));
    }
  }

  lemma AfterPop<T>(less: (T, T) -> bool, s: seq<T>, t: seq<T>, slots: seq<int>, base: int, limit: int)
    requires LoopState(less, s, slots, base, limit)
    requires 0 <= base <= limit <= |t| && Rearranged(s, t, base, limit)
    requires forall p, q :: base <= p < q < limit ==> !less(t[q], t[p])
    ensures |slots| < 2 ==> Sorted(less, t)
    ensures |slots| >= 2 ==>
              var m := |slots| - 2;
              && LoopState(less, t, slots[..m], slots[m], slots[m + 1])
              && TotalLength(AllSegments(slots[..m], slots[m], slots[m + 1]))
                  <= TotalLength(AllSegments(slots, base, limit))
  {
    var rest, cur := Segments(slots), Segment(base, limit);
    PendingBelow(less, s, t, rest, cur);
    SortedCuts(less, t, base, limit);
    PendingDrop(less, s, t, rest, cur);
    TotalLengthPush(rest, cur);
    if |slots| >= 2 {
      var m := |slots| - 2;
      assert rest == AllSegments(slots[..m], slots[m], slots[m + 1]);
      assert forall k :: 0 <= k < |rest| ==> (rest + [cur])[k] == rest[k];
    } else {
      assert forall c :: 0 <= c <= |t| ==> Settled(rest, c);
      forall p, q | 0 <= p < q < |t| ensures !less(t[q], t[p]) {
        assert Cut(less, t, q);
      }
    }
  }

  /** One round on a long segment: partition it, push the larger part, go on with the smaller. */
  method SplitStep<T(!new)>(a: array<T>, less: (T, T) -> bool, stack: array<int>, top0: int, base0: int, limit0: int)
    returns (top: int, base: int, limit: int)
    requires StrictWeakOrder(less) && a.Length <= MAX_INT
    requires a as object != stack && stack.Length == STACK_SLOTS && 0 <= top0 <= STACK_SLOTS
    requires LoopState(less, a[..], stack[..top0], base0, limit0)
    requires limit0 - base0 > THRESHOLD
    modifies a, stack
    ensures top == top0 + 2 <= STACK_SLOTS
    ensures LoopState(less, a[..], stack[..top], base, limit)
    ensures TotalLength(AllSegments(stack[..top], base, limit))
          < old(TotalLength(AllSegments(stack[..top0], base0, limit0)))
    ensures multiset(a[..]) == multiset(old(a[..]))
  {
    hide LoopState, TotalLength, AllSegments;
    ghost var before, slots := a[..], stack[..top0];
    CurrentInBounds(less, before, slots, base0, limit0);
    top, base, limit := top0, base0, limit0;
    var i, j := Partition(a, less, base, limit);
    AfterPartition(less, before, a[..], slots, base, limit, i, j);
    if j - base > limit - i {
      stack[top], stack[top + 1] := base, j;
      base := i;
    } else {
      stack[top], stack[top + 1] := i, limit;
      limit := j;
    }
    top := top + 2;
    assert stack[..top] == slots + [stack[top - 2], stack[top - 1]];
  }

  /** One round on a short segment: sort it in place; what is left is the stack. */
  method ShortStep<T(!new)>(a: array<T>, less: (T, T) -> bool, ghost slots: seq<int>, base: int, limit: int)
    requires StrictWeakOrder(less)
    requires LoopState(less, a[..], slots, base, limit)
    modifies a
    ensures multiset(a[..]) == multiset(old(a[..]))
    ensures |slots| < 2 ==> Sorted(less, a[..])
    ensures |slots| >= 2 ==>
              var m := |slots| - 2;
              && LoopState(less, a[..], slots[..m], slots[m], slots[m + 1])
              && TotalLength(AllSegments(slots[..m], slots[m], slots[m + 1]))
                  <= TotalLength(AllSegments(slots, base, limit))
  {
    ghost var before := a[..];
    CurrentInBounds(less, before, slots, base, limit);
    InsertionSort(a, less, base, limit);
    AfterPop(less, before, a[..], slots, base, limit);
  }

  /** Every array of fewer than 2^31 elements ends up a sorted rearrangement of itself. The
      explicit stack is an array of 80 slots, so that each access to it proves it large enough;
      no call reads outside [base, limit). */
  method Sort<T(!new)>(a: array<T>, less: (T, T) -> bool)
    requires StrictWeakOrder(less)
    requires a.Length <= MAX_INT
    modifies a
    ensures forall p, q :: 0 <= p < q < a.Length ==> !less(a[q], a[p])
    ensures multiset(a[..]) == multiset(old(a[..]))
  {
    if a.Length >= 2 {
      SortLong(a, less);
    }
  }

  /** The loop of the sort. */
  method SortLong<T(!new)>(a: array<T>, less: (T, T) -> bool)
    requires StrictWeakOrder(less)
    requires 2 <= a.Length <= MAX_INT
    modifies a
    ensures Sorted(less, a[..])
    ensures multiset(a[..]) == multiset(old(a[..]))
  {
    hide LoopState, TotalLength, AllSegments, Sorted;
    var stack := new int[STACK_SLOTS];
    var top, base, limit := 0, 0, a.Length;
    AtStart(less, a[..]);
    assert stack[..0] == [];
    while true
      invariant 0 <= top <= STACK_SLOTS
      invariant LoopState(less, a[..], stack[..top], base, limit)
      invariant multiset(a[..]) == multiset(old(a[..]))
      decreases TotalLength(AllSegments(stack[..top], base, limit)), top
    {
      ghost var before, slots := a[..], stack[..top];
      CurrentInBounds(less, before, slots, base, limit);
      var len := limit - base;
      if len > THRESHOLD {
        top, base, limit := SplitStep(a, less, stack, top, base, limit);
        CurrentInBounds(less, a[..], stack[..top], base, limit);
      } else {
        ShortStep(a, less, slots, base, limit);
        if top > 0 {
          top := top - 2;
          base, limit := stack[top], stack[top + 1];
          assert stack[..top] == slots[..top] && base == slots[top] && limit == slots[top + 1];
          CurrentInBounds(less, a[..], stack[..top], base, limit);
        } else {
          break;
        }
      }
    }
  }
}
