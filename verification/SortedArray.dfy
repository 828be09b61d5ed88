/** The helpers of `agg_array.h` around sorted arrays: the binary search for an insertion place, the
    insertion into a `pod_vector`, and the removal of duplicates. */
module SortedArray {
  import opened Basics
  import opened QuickSort

  // ---- Search and insertion

  /** `val` may stand at `pos`: nothing before it belongs behind it and nothing behind belongs before it. */
  ghost predicate Fits<T>(less: (T, T) -> bool, s: seq<T>, val: T, pos: int) {
    && 0 <= pos <= |s|
    && (forall p :: 0 <= p < pos ==> !less(val, s[p]))
    && (forall q :: pos <= q < |s| ==> !less(s[q], val))
  }

  ghost predicate Equivalent<T>(less: (T, T) -> bool, x: T, y: T) {
    !less(x, y) && !less(y, x)
  }

  lemma LessThanFirst<T(!new)>(less: (T, T) -> bool, s: seq<T>, val: T)
    requires StrictWeakOrder(less) && Sorted(less, s) && s != [] && less(val, s[0])
    ensures forall q :: 0 <= q < |s| ==> less(val, s[q])
  {
    forall q | 0 <= q < |s| ensures less(val, s[q]) {
      assert NotLessChains(less, val, s[q], s[0]);
    }
  }

  lemma MoreThanLast<T(!new)>(less: (T, T) -> bool, s: seq<T>, val: T)
    requires StrictWeakOrder(less) && Sorted(less, s) && s != [] && less(s[|s| - 1], val)
    ensures forall p :: 0 <= p < |s| ==> less(s[p], val)
  {
    forall p | 0 <= p < |s| ensures less(s[p], val) {
      assert NotLessChains(less, s[|s| - 1], s[p], val);
    }
  }

  // What the search has found out when it ends.
  lemma Between<T(!new)>(less: (T, T) -> bool, s: seq<T>, val: T, beg: int, end: int)
    requires StrictWeakOrder(less) && Sorted(less, s)
    requires 0 <= beg <= end < |s| && end - beg <= 1 && (beg == end ==> beg == |s| - 1 == 0)
    requires !less(val, s[beg]) && !less(s[end], val) && (end < |s| - 1 ==> less(val, s[end]))
    ensures Fits(less, s, val, end)
    ensures Equivalent(less, val, s[|s| - 1]) ==> end == |s| - 1
    ensures !Equivalent(less, val, s[|s| - 1]) ==> forall q :: end <= q < |s| ==> less(val, s[q])
  {
    forall p | 0 <= p < end ensures !less(val, s[p]) {
      assert NotLessChains(less, val, s[beg], s[p]);
    }
    forall q | end <= q < |s|
      ensures !less(s[q], val)
      ensures less(val, s[end]) ==> less(val, s[q])
    {
      assert NotLessChains(less, s[q], s[end], val);
      assert NotLessChains(less, val, s[q], s[end]);
    }
  }

  /** The place lies behind all elements equivalent to `val`, except when the last element is one of them:
      then it is the place of that last element. */
  method BinarySearchPos<T(!new)>(arr: array<T>, val: T, less: (T, T) -> bool) returns (pos: nat)
    requires StrictWeakOrder(less) && Sorted(less, arr[..])
    requires arr.Length <= UINT_RANGE / 2
    ensures Fits(less, arr[..], val, pos)
    ensures arr.Length > 0 && Equivalent(less, val, arr[arr.Length - 1]) ==> pos == arr.Length - 1
    ensures arr.Length > 0 && !Equivalent(less, val, arr[arr.Length - 1]) ==>
              forall q :: pos <= q < arr.Length ==> less(val, arr[q])
  {
    if arr.Length == 0 {
      return 0;
    }
    var beg, end := 0, arr.Length - 1;
    ghost var last := end;
    if less(val, arr[0]) {
      LessThanFirst(less, arr[..], val);
      return 0;
    }
    if less(arr[end], val) {
      MoreThanLast(less, arr[..], val);
      return end + 1;
    }
    while end - beg > 1
      invariant 0 <= beg <= end <= last
      invariant !less(val, arr[beg]) && !less(arr[end], val)
      invariant beg == end ==> beg == last == 0
      invariant end < last ==> less(val, arr[end])
    {
      var mid := (end + beg) % UINT_RANGE / 2;
      if less(val, arr[mid]) {
        end := mid;
      } else {
        beg := mid;
      }
    }
    Between(less, arr[..], val, beg, end);
    return end;
  }

  function Inserted<T>(s: seq<T>, pos: nat, val: T): seq<T> {
    if pos >= |s| then s + [val] else s[..pos] + [val] + s[pos..]
  }

  lemma InsertedElements<T>(s: seq<T>, val: T, pos: nat)
    requires pos <= |s|
    ensures var t := Inserted(s, pos, val);
            && |t| == |s| + 1 && t[pos] == val
            && (forall k :: 0 <= k < pos ==> t[k] == s[k])
            && (forall k :: pos <= k < |s| ==> t[k + 1] == s[k])
            && multiset(t) == multiset(s) + multiset{val}
  {
    assert s == s[..pos] + s[pos..];
    assert Inserted(s, pos, val) == s[..pos] + [val] + s[pos..];
  }

  /** Inserting where the search says, and nowhere else, keeps a sorted array sorted, and it adds exactly
      the one element. */
  lemma InsertionKeepsSorted<T>(less: (T, T) -> bool, s: seq<T>, val: T, pos: nat)
    requires Sorted(less, s) && pos <= |s|
    ensures multiset(Inserted(s, pos, val)) == multiset(s) + multiset{val}
    ensures Sorted(less, Inserted(s, pos, val)) <==> Fits(less, s, val, pos)
  {
    hide Inserted;
    InsertedElements(s, val, pos);
    var t := Inserted(s, pos, val);
    if Fits(less, s, val, pos) {
      forall p, q | 0 <= p < q < |t| ensures !less(t[q], t[p]) {
        assert t[p] == if p < pos then s[p] else if p == pos then val else s[p - 1];
        assert t[q] == if q < pos then s[q] else if q == pos then val else s[q - 1];
      }
    }
    if Sorted(less, t) {
      forall q | pos <= q < |s| ensures !less(s[q], val) {
        assert !less(t[q + 1], t[pos]);
      }
    }
  }

  lemma InsertedPlaces<T>(s: seq<T>, t: seq<T>, pos: nat, val: T)
    requires pos < |s| && |t| == |s| + 1 && t[pos] == val
    requires forall k :: 0 <= k < pos ==> t[k] == s[k]
    requires forall k :: pos < k < |t| ==> t[k] == s[k - 1]
    ensures t == Inserted(s, pos, val)
  {}

  /** `pod_vector`: an allocated array of which the first `size` elements are in use. */
  class PodVector<T> {
    var data: array<T>
    var size: nat

    ghost predicate Valid()
      reads this
    {
      size <= data.Length
    }

    function Contents(): seq<T>
      requires Valid()
      reads this, data
    {
      data[..size]
    }

    constructor (capacity: nat, init: T)
      ensures Valid() && Contents() == [] && data.Length == capacity && fresh(data)
    {
      data := new T[capacity](_ => init);
      size := 0;
    }

    // Room for the new element is the caller's duty.
    method InsertAt(pos: nat, val: T)
      requires Valid() && size < data.Length
      modifies this`size, data
      ensures Valid() && Contents() == Inserted(old(Contents()), pos, val)
    {
      ghost var s := Contents();
      if pos >= size {
        data[size] := val;
      } else {
        MoveTail(pos);
        data[pos] := val;
        InsertedPlaces(s, data[..size + 1], pos, val);
      }
      size := size + 1;
    }

    // The memmove of the tail, one place up; from the end, because the ranges overlap.
    method MoveTail(pos: nat)
      requires pos <= size < data.Length
      modifies data
      ensures forall k :: 0 <= k < pos ==> data[k] == old(data[k])
      ensures forall k :: pos < k <= size ==> data[k] == old(data[k - 1])
    {
      var i := size;
      while i > pos
        invariant pos <= i <= size
        invariant forall k :: 0 <= k < i ==> data[k] == old(data[k])
        invariant forall k :: i < k <= size ==> data[k] == old(data[k - 1])
      {
        data[i] := data[i - 1];
        i := i - 1;
      }
    }

    /** Never makes the vector longer: the content is kept, but the size grows to `newSize` only in the
        allocation, so the call reaches the size it is asked for exactly when it shrinks or keeps it. */
    method Resize(newSize: nat, init: T)
      requires Valid()
      modifies this
      ensures Valid() && size <= old(size)
      ensures Contents() == old(Contents())[..size]
      ensures size == newSize <==> newSize <= old(size)
      ensures newSize > old(size) ==> size == old(size) && newSize <= data.Length
    {
      if newSize > size {
        if newSize > data.Length {
          var from, n := data, size;
          var bigger := new T[newSize](i requires 0 <= i reads this, from =>
                                     if i < n && i < from.Length then from[i] else init);
          assert bigger[..size] == data[..size];
          data := bigger;
        }
      } else {
        size := newSize;
      }
    }
  }

  // ---- Duplicates

  /** The elements that differ from their left neighbour. */
  function Deduplicated<T>(s: seq<T>, equal: (T, T) -> bool): (r: seq<T>)
    ensures |r| <= |s| && (s != [] ==> r != [])
  {
    if |s| < 2 then s
    else Deduplicated(s[..|s| - 1], equal) + if equal(s[|s| - 1], s[|s| - 2]) then [] else [s[|s| - 1]]
  }

  // How many runs of equal elements begin before place i.
  function RunsBefore<T>(s: seq<T>, equal: (T, T) -> bool, i: nat): nat
    requires i <= |s|
  {
    if i == 0 then 0 else RunsBefore(s, equal, i - 1) + if i == 1 || !equal(s[i - 1], s[i - 2]) then 1 else 0
  }

  lemma {:induction false} RunsOfFront<T>(s: seq<T>, n: nat, equal: (T, T) -> bool, i: nat)
    requires i <= n <= |s|
    ensures RunsBefore(s[..n], equal, i) == RunsBefore(s, equal, i)
  {
    if i > 0 { RunsOfFront(s, n, equal, i - 1); }
  }

  /** Of every run of equal neighbours the first element is kept, and the runs keep their order. */
  lemma {:induction false} FirstsKept<T>(s: seq<T>, equal: (T, T) -> bool, i: nat)
    requires i < |s| && (i == 0 || !equal(s[i], s[i - 1]))
    ensures |Deduplicated(s, equal)| == RunsBefore(s, equal, |s|)
    ensures RunsBefore(s, equal, i) < |Deduplicated(s, equal)|
    ensures Deduplicated(s, equal)[RunsBefore(s, equal, i)] == s[i]
    decreases |s|
  {
    var n := |s| - 1;
    if n == 0 {
      assert RunsBefore(s, equal, 1) == RunsBefore(s, equal, 0) + 1;
    } else {
      var front := s[..n];
      RunsOfFront(s, n, equal, n);
      FirstsKept(front, equal, if i < n then i else 0);
      if i < n { RunsOfFront(s, n, equal, i); }
    }
  }

  /** Works in place; the tail behind the result is left as it was. */
  method RemoveDuplicates<T>(arr: array<T>, equal: (T, T) -> bool) returns (n: nat)
    modifies arr
    ensures n <= arr.Length && arr[..n] == Deduplicated(old(arr[..]), equal)
    ensures arr[n..] == old(arr[n..])
  {
    if arr.Length < 2 {
      return arr.Length;
    }
    ghost var s := arr[..];
    var i, j := 1, 1;
    assert s[..1] == [s[0]];
    while i < arr.Length
      invariant 1 <= j <= i <= arr.Length
      invariant arr[..j] == Deduplicated(s[..i], equal)
      invariant forall k :: j <= k < arr.Length ==> arr[k] == s[k]
      invariant arr[i - 1] == s[i - 1]
    {
      var e := arr[i];
      assert s[..i + 1][..i] == s[..i];
      if !equal(e, arr[i - 1]) {
        arr[j] := e;
        j := j + 1;
      }
      i := i + 1;
    }
    assert s[..arr.Length] == s;
    n := j;
  }

  ghost predicate Strict<T>(less: (T, T) -> bool, r: seq<T>) {
    forall p, q :: 0 <= p < q < |r| ==> less(r[p], r[q])
  }

  ghost predicate HasClass<T>(less: (T, T) -> bool, r: seq<T>, x: T) {
    exists y :: y in r && Equivalent(less, x, y)
  }

  ghost predicate Represents<T>(less: (T, T) -> bool, r: seq<T>, s: seq<T>) {
    && (forall x :: x in r ==> x in s)
    && (forall x :: x in s ==> HasClass(less, r, x))
  }

  lemma SameClass<T(!new)>(less: (T, T) -> bool, s: seq<T>, t: seq<T>, e: T)
    requires StrictWeakOrder(less) && s != [] && t != [] && Represents(less, t, s)
    requires Equivalent(less, t[|t| - 1], s[|s| - 1]) && Equivalent(less, e, s[|s| - 1])
    ensures Represents(less, t, s + [e]) && Equivalent(less, t[|t| - 1], e)
  {
    var l, m := t[|t| - 1], s[|s| - 1];
    assert NotLessChains(less, l, m, e) && NotLessChains(less, e, m, l);
    forall x | x in s + [e] ensures HasClass(less, t, x) {
      if x == e {
        assert l in t;
      }
    }
  }

  lemma NewClass<T(!new)>(less: (T, T) -> bool, s: seq<T>, t: seq<T>, e: T)
    requires StrictWeakOrder(less) && s != [] && t != [] && Represents(less, t, s) && Strict(less, t)
    requires Equivalent(less, t[|t| - 1], s[|s| - 1]) && less(s[|s| - 1], e)
    ensures Represents(less, t + [e], s + [e]) && Strict(less, t + [e]) && Equivalent(less, e, e)
  {
    var l, m := t[|t| - 1], s[|s| - 1];
    forall p | 0 <= p < |t| ensures less(t[p], e) {
      assert NotLessChains(less, m, t[p], e);
      assert NotLessChains(less, m, l, t[p]);
    }
    forall x | x in s + [e] ensures HasClass(less, t + [e], x) {
      if x in s {
        assert HasClass(less, t, x);
        var y :| y in t && Equivalent(less, x, y);
        assert y in t + [e];
      } else {
        assert e in t + [e];
      }
    }
  }

  /** On a sorted array, with an equality that means "neither is less", the result is strictly ascending
      and holds one element for every class of the array, taken from the array. */
  lemma {:induction false} DeduplicatedIsStrict<T(!new)>(less: (T, T) -> bool, equal: (T, T) -> bool, s: seq<T>)
    requires StrictWeakOrder(less) && Sorted(less, s)
    requires forall x, y :: equal(x, y) <==> Equivalent(less, x, y)
    ensures Strict(less, Deduplicated(s, equal)) && Represents(less, Deduplicated(s, equal), s)
    ensures s != [] ==> Equivalent(less, Deduplicated(s, equal)[|Deduplicated(s, equal)| - 1], s[|s| - 1])
  {
    if |s| == 1 {
      assert Equivalent(less, s[0], s[0]);
      assert HasClass(less, s, s[0]);
    } else if |s| > 1 {
      var n := |s| - 1;
      DeduplicatedIsStrict(less, equal, s[..n]);
      var t := Deduplicated(s[..n], equal);
      assert s == s[..n] + [s[n]] && s[..n][n - 1] == s[n - 1] && !less(s[n], s[n - 1]);
      if equal(s[n], s[n - 1]) {
        assert Deduplicated(s, equal) == t;
        SameClass(less, s[..n], t, s[n]);
      } else {
        NewClass(less, s[..n], t, s[n]);
      }
    }
  }
}
