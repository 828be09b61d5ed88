/** The arena allocator of `agg_array.h`: requests are cut from the current block, with padding up
    to the alignment, and a request that does not fit starts a new block and tries again. */
module BlockAllocator {
  import opened Basics

  /** The bytes ptr .. ptr + size - 1. */
  datatype Range = Range(ptr: int, size: int) {
    function End(): int { ptr + size }

    predicate Within(outer: Range) { outer.ptr <= ptr && End() <= outer.End() }

    predicate Apart(other: Range) { End() <= other.ptr || other.End() <= ptr }
  }

  ghost predicate AllApart(rs: seq<Range>) {
    forall i, j :: 0 <= i < j < |rs| ==> rs[i].Apart(rs[j])
  }

  ghost predicate AllWithin(rs: seq<Range>, blocks: seq<Range>) {
    forall i :: 0 <= i < |rs| ==> exists b :: 0 <= b < |blocks| && rs[i].Within(blocks[b])
  }

  /** The padding as the code computes it: from the address truncated to 32 bits. */
  function Padding(ptr: nat, alignment: nat): (padding: nat)
    requires alignment >= 1
    ensures padding < alignment
  {
    (alignment - ptr % UINT_RANGE % alignment) % alignment
  }

  /** The part of an address that the truncation drops. */
  function HighPart(ptr: nat): nat {
    ptr / UINT_RANGE * UINT_RANGE
  }

  lemma AddMultiple(x: nat, q: nat, a: nat)
    requires a >= 1
    ensures (x + q * a) % a == x % a
  {
    DivMod(x, a);
    assert (x / a + q) * a == x / a * a + q * a;
    RemainderIs(x + q * a, a, x / a + q, x % a);
  }

  /** The padding aligns an address exactly when it would align the dropped part. */
  lemma PaddingAligns(ptr: nat, alignment: nat)
    requires alignment >= 1
    ensures (ptr + Padding(ptr, alignment)) % alignment == 0 <==> HighPart(ptr) % alignment == 0
  {
    var high, low := HighPart(ptr), ptr % UINT_RANGE;
    var m := low % alignment;
    DivMod(low, alignment);
    var q := low / alignment;
    if m == 0 {
      RemainderIs(alignment, alignment, 1, 0);
      AddMultiple(high, q, alignment);
    } else {
      RemainderIs(alignment - m, alignment, 0, alignment - m);
      MulNext(q, alignment);
      AddMultiple(high, q + 1, alignment);
    }
  }

  lemma HighPartAligned(ptr: nat, alignment: nat)
    requires alignment >= 1 && UINT_RANGE % alignment == 0
    ensures HighPart(ptr) % alignment == 0
  {
    DivMod(UINT_RANGE, alignment);
    var q, k := UINT_RANGE / alignment, ptr / UINT_RANGE;
    assert HighPart(ptr) == k * (q * alignment) == (k * q) * alignment;
    RemainderIs(HighPart(ptr), alignment, k * q, 0);
  }

  lemma LowAddress(ptr: nat, alignment: nat)
    requires alignment >= 1 && ptr < UINT_RANGE
    ensures HighPart(ptr) % alignment == 0
  {
    QuotientIs(ptr, UINT_RANGE, 0, ptr);
    RemainderIs(0, alignment, 0, 0);
  }

  /** So the padding aligns every address if and only if the alignment divides 2^32. */
  lemma PaddingAlwaysAligns(alignment: nat)
    requires alignment >= 1
    ensures (forall ptr: nat :: (ptr + Padding(ptr, alignment)) % alignment == 0) <==> UINT_RANGE % alignment == 0
  {
    if UINT_RANGE % alignment == 0 {
      forall ptr: nat ensures (ptr + Padding(ptr, alignment)) % alignment == 0 {
        HighPartAligned(ptr, alignment);
        PaddingAligns(ptr, alignment);
      }
    } else {
      PaddingAligns(UINT_RANGE, alignment);
      var ptr := UINT_RANGE;
      assert (ptr + Padding(ptr, alignment)) % alignment != 0;
    }
  }

  /** The system allocator: all that is known of its answer is that it is new memory. */
  method SystemAllocate(ghost blocks: seq<Range>, top: nat, size: nat) returns (base: nat)
    requires forall b :: 0 <= b < |blocks| ==> blocks[b].End() <= top
    ensures base > 0
    ensures forall b :: 0 <= b < |blocks| ==> blocks[b].Apart(Range(base, size))
  {
    base := top + 1;
  }

  /** How far a request is from being served: each failed alignment leaves more slack than the one
      before, and slack of alignment - 1 always suffices. */
  ghost function Distance(rest: int, size: int, alignment: int): int {
    if size > rest then alignment
    else if rest - size >= alignment - 1 then 0
    else alignment - 1 - (rest - size)
  }

  /** `ptr` is `from` and its padding. */
  ghost predicate Served(ptr: int, from: int, alignment: nat) {
    alignment >= 1 && 0 <= from && ptr == from + Padding(from, alignment)
  }

  lemma NoPadding(ptr: nat)
    ensures Padding(ptr, 1) == 0
  {
  }

  lemma ServedIs(from: nat, alignment: nat)
    requires alignment >= 1
    ensures Served(from + Padding(from, alignment), from, alignment)
  {
  }

  class BlockAllocator {
    const blockSize: nat
    var blocks: seq<Range>
    var bufPtr: nat
    var rest: nat
    /** Every range handed out since the last `RemoveAll`, in order. */
    ghost var given: seq<Range>

    ghost function Free(): Range
      reads this
    {
      Range(bufPtr, rest)
    }

    /** Blocks lie apart; every range given out lies in a block, apart from all others and from the
        free rest of the current block. */
    ghost predicate Valid()
      reads this
    {
      && AllApart(blocks) && AllApart(given) && AllWithin(given, blocks)
      && (forall b :: 0 <= b < |blocks| ==> 0 < blocks[b].ptr && 0 <= blocks[b].size)
      && (forall i :: 0 <= i < |given| ==> 0 < given[i].size && given[i].Apart(Free()))
      && (if blocks == [] then bufPtr == 0 && rest == 0 else
            Free().Within(blocks[|blocks| - 1]) && Free().End() == blocks[|blocks| - 1].End())
    }

    constructor (blockSize: nat)
      ensures Valid() && given == [] && blocks == [] && this.blockSize == blockSize
    {
      this.blockSize := blockSize;
      blocks, bufPtr, rest, given := [], 0, 0, [];
    }

    method RemoveAll()
      modifies this
      ensures Valid() && given == [] && blocks == []
    {
      blocks, bufPtr, rest, given := [], 0, 0, [];
    }

    method AllocateBlock(size0: nat)
      requires Valid() && size0 > 0
      modifies this`blocks, this`bufPtr, this`rest
      ensures Valid() && rest >= size0 && |blocks| == |old(blocks)| + 1 && blocks[..|old(blocks)|] == old(blocks)
      ensures blocks[|blocks| - 1] == Range(bufPtr, rest) && rest == if size0 < blockSize then blockSize else size0
    {
      var size := if size0 < blockSize then blockSize else size0;
      var base := NewMemory(size);
      ghost var before := blocks;
      blocks := blocks + [Range(base, size)];
      bufPtr, rest := base, size;
      assert blocks[|before|] == Range(base, size);
      forall i | 0 <= i < |given|
        ensures given[i].Apart(Free()) && exists b :: 0 <= b < |blocks| && given[i].Within(blocks[b])
      {
        var b :| 0 <= b < |before| && given[i].Within(before[b]);
        assert blocks[b] == before[b] && before[b].Apart(Range(base, size));
      }
    }

    method NewMemory(size: nat) returns (base: nat)
      requires Valid()
      ensures base > 0 && forall b :: 0 <= b < |blocks| ==> blocks[b].Apart(Range(base, size))
    {
      var top: nat, i := 0, 0;
      while i < |blocks|
        invariant 0 <= i <= |blocks|
        invariant forall b :: 0 <= b < i ==> blocks[b].End() <= top
      {
        if blocks[i].End() > top { top := blocks[i].End(); }
        i := i + 1;
      }
      base := SystemAllocate(blocks, top, size);
    }

    /** Takes `padding` bytes and then `size` bytes from the current block. */
    method Take(padding: nat, size: nat) returns (ptr: nat)
      requires Valid() && 0 < size && padding + size <= rest
      modifies this`bufPtr, this`rest, this`given
      ensures Valid() && ptr == old(bufPtr) + padding && ptr > 0 && given == old(given) + [Range(ptr, size)]
      ensures bufPtr == ptr + size
    {
      ptr := bufPtr + padding;
      ghost var before, block := given, blocks[|blocks| - 1];
      ghost var free := Free();
      rest := rest - (padding + size);
      bufPtr := bufPtr + (padding + size);
      given := given + [Range(ptr, size)];
      assert Range(ptr, size).Within(block);
      forall i | 0 <= i < |given|
        ensures given[i].Apart(Free()) && exists b :: 0 <= b < |blocks| && given[i].Within(blocks[b])
      {
        if i < |before| {
          assert given[i] == before[i];
          ghost var b :| 0 <= b < |blocks| && before[i].Within(blocks[b]);
          assert given[i].Within(blocks[b]) && given[i].Apart(free);
        } else {
          assert given[i].Within(blocks[|blocks| - 1]);
        }
      }
    }

    /** Serves every request of at least one byte with a range that lies in a block and apart from everything given
        out before, none of which moves. The padding starts at the free rest if that has room, and otherwise at the
        newest block; the answer is aligned exactly when the high part of that address is, so always if the alignment
        divides 2^32. The recursion ends for every alignment, because the slack grows with each failed one. */
    method Allocate(size: nat, alignment: nat) returns (ptr: nat)
      requires Valid() && alignment >= 1 && size + alignment <= UINT_RANGE
      modifies this`blocks, this`bufPtr, this`rest, this`given
      ensures Valid()
      ensures size == 0 ==> ptr == 0 && given == old(given) && blocks == old(blocks) && bufPtr == old(bufPtr)
      ensures size > 0 ==> ptr > 0 && given == old(given) + [Range(ptr, size)] && bufPtr == ptr + size
      ensures size > 0 && size + Padding(old(bufPtr), alignment) <= old(rest) ==>
                Served(ptr, old(bufPtr), alignment) && blocks == old(blocks)
      ensures size > 0 && size + Padding(old(bufPtr), alignment) > old(rest) ==>
                && |blocks| > |old(blocks)| && Served(ptr, blocks[|blocks| - 1].ptr, alignment)
                && var need := if size > old(rest) then size + alignment - 1
                               else size + Padding(old(bufPtr), alignment);
                   blocks[|old(blocks)|].size == if need < blockSize then blockSize else need
      ensures |old(blocks)| <= |blocks| && blocks[..|old(blocks)|] == old(blocks)
      decreases Distance(rest, size, alignment)
    {
      hide Padding, Served, AllApart, AllWithin, Valid;
      if size == 0 { return 0; }
      if size <= rest {
        var align := 0;
        if alignment > 1 {
          align := Padding(bufPtr, alignment);
        } else {
          NoPadding(bufPtr);
        }
        if size + align <= rest {
          ServedIs(bufPtr, alignment);
          ptr := Take(align, size);
          return;
        }
        AllocateBlock(size + align);
        ptr := Allocate(size, alignment);
        return;
      }
      AllocateBlock(size + alignment - 1);
      ptr := Allocate(size, alignment);
    }
  }

  /** When an answer is aligned. */
  lemma ServedAligned(ptr: nat, from: int, alignment: nat)
    requires Served(ptr, from, alignment)
    ensures ptr % alignment == 0 <==> HighPart(from) % alignment == 0
    ensures UINT_RANGE % alignment == 0 || ptr < UINT_RANGE ==> ptr % alignment == 0
  {
    PaddingAligns(from, alignment);
    hide Padding, HighPart;
    if UINT_RANGE % alignment == 0 {
      HighPartAligned(from, alignment);
    } else if ptr < UINT_RANGE {
      LowAddress(from, alignment);
    }
  }

  /** The address 2^32 and an alignment of 3: no padding, and the address is no multiple of 3. */
  lemma HighAddressMisaligned()
    ensures Served(UINT_RANGE, UINT_RANGE, 3) && UINT_RANGE % 3 == 1
  {
  }

  datatype Request = Request(size: nat, alignment: nat)

  ghost predicate Answers(ptr: nat, r: Request) {
    r.alignment >= 1 && (UINT_RANGE % r.alignment == 0 || ptr < UINT_RANGE ==> ptr % r.alignment == 0)
  }

  lemma AnswerIs(ptr: nat, r: Request)
    requires Answers(ptr, r)
    ensures r.alignment >= 1
    ensures UINT_RANGE % r.alignment == 0 || ptr < UINT_RANGE ==> ptr % r.alignment == 0
  {
  }

  method ServeOne(a: BlockAllocator, r: Request) returns (ptr: nat)
    requires a.Valid() && r.size > 0 && r.alignment >= 1 && r.size + r.alignment <= UINT_RANGE
    modifies a`blocks, a`bufPtr, a`rest, a`given
    ensures a.Valid() && ptr > 0 && a.given == old(a.given) + [Range(ptr, r.size)] && Answers(ptr, r)
  {
    hide BlockAllocator.Valid, Padding, Served;
    ghost var start := a.bufPtr;
    ghost var fits := r.size + Padding(a.bufPtr, r.alignment) <= a.rest;
    ptr := a.Allocate(r.size, r.alignment);
    ServedAligned(ptr, if fits then start else a.blocks[|a.blocks| - 1].ptr, r.alignment);
  }

  /** Over every run of requests from a new allocator: no two answers, however far apart in time, share a byte, and
      each answer whose alignment divides 2^32, or that lies below 2^32, is aligned. */
  method ServeAll(blockSize: nat, requests: seq<Request>) returns (ptrs: seq<nat>)
    requires forall r :: r in requests ==> r.size > 0 && r.alignment >= 1 && r.size + r.alignment <= UINT_RANGE
    ensures |ptrs| == |requests|
    ensures forall i :: 0 <= i < |ptrs| ==>
              && ptrs[i] > 0 && requests[i].alignment >= 1
              && (0x1_0000_0000 % requests[i].alignment == 0 || ptrs[i] < 0x1_0000_0000 ==>
                    ptrs[i] % requests[i].alignment == 0)
    ensures forall i, j :: 0 <= i < j < |ptrs| ==>
              ptrs[i] + requests[i].size <= ptrs[j] || ptrs[j] + requests[j].size <= ptrs[i]
  {
    var a := new BlockAllocator(blockSize);
    ptrs := [];
    var i := 0;
    hide Padding, Served, Answers, AllWithin;
    while i < |requests|
      invariant 0 <= i <= |requests| && fresh(a) && a.Valid()
      invariant |ptrs| == i == |a.given|
      invariant forall k :: 0 <= k < i ==> a.given[k] == Range(ptrs[k], requests[k].size)
      invariant forall k :: 0 <= k < i ==> ptrs[k] > 0 && Answers(ptrs[k], requests[k])
    {
      assert requests[i] in requests;
      var ptr := ServeOne(a, requests[i]);
      ptrs := ptrs + [ptr];
      i := i + 1;
    }
    forall i, j | 0 <= i < j < |ptrs|
      ensures ptrs[i] + requests[i].size <= ptrs[j] || ptrs[j] + requests[j].size <= ptrs[i]
    {
      assert a.given[i].Apart(a.given[j]);
    }
    forall i | 0 <= i < |ptrs|
      ensures requests[i].alignment >= 1
      ensures UINT_RANGE % requests[i].alignment == 0 || ptrs[i] < UINT_RANGE ==> ptrs[i] % requests[i].alignment == 0
    {
      AnswerIs(ptrs[i], requests[i]);
    }
  }
}
