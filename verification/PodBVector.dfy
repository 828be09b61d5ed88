/** The block deque of `agg_array.h`: elements live in blocks of one size that never move. */
module PodBVector {
  import opened Basics

  /** Where element `i` lives when blocks hold `size` elements. */
  function BlockOf(i: nat, size: nat): nat
    requires size > 0
  {
    i / size
  }

  function SlotOf(i: nat, size: nat): (slot: nat)
    requires size > 0
    ensures slot < size
  {
    i % size
  }

  function Covered(blocks: nat, size: nat): nat {
    blocks * size
  }

  /** Element `i` is where block and slot say, and nowhere else. */
  lemma Place(i: nat, size: nat)
    requires size > 0
    ensures i == Covered(BlockOf(i, size), size) + SlotOf(i, size)
    ensures Covered(BlockOf(i, size) + 1, size) == Covered(BlockOf(i, size), size) + size
  {
    assert i == i / size * size + i % size;
  }

  lemma PlaceBelow(i: nat, blocks: nat, size: nat)
    requires size > 0
    ensures i < Covered(blocks, size) <==> BlockOf(i, size) < blocks
  {
    Place(i, size);
    if BlockOf(i, size) < blocks { MulLe(BlockOf(i, size) + 1, blocks, size); }
    else { MulLe(blocks, BlockOf(i, size), size); }
  }

  /** Distinct elements have distinct places. */
  lemma PlacesDiffer(i: nat, j: nat, size: nat)
    requires size > 0 && i != j
    ensures BlockOf(i, size) != BlockOf(j, size) || SlotOf(i, size) != SlotOf(j, size)
  {
    Place(i, size);
    Place(j, size);
  }

  lemma PlaceIs(i: nat, block: nat, slot: nat, size: nat)
    requires size > 0 && slot < size && i == Covered(block, size) + slot
    ensures BlockOf(i, size) == block && SlotOf(i, size) == slot
  {
    Place(i, size);
    assert Covered(block + 1, size) == Covered(block, size) + size;
    if BlockOf(i, size) < block { MulLe(BlockOf(i, size) + 1, block, size); }
    if BlockOf(i, size) > block { MulLe(block + 1, BlockOf(i, size), size); }
  }

  lemma FitsInBlock(i: nat, num: nat, size: nat)
    requires size > 0 && SlotOf(i, size) + num <= size
    ensures num > 0 ==> BlockOf(i + num - 1, size) == BlockOf(i, size)
    ensures i + num <= Covered(BlockOf(i, size) + 1, size)
  {
    Place(i, size);
    if num > 0 { PlaceIs(i + num - 1, BlockOf(i, size), SlotOf(i, size) + num - 1, size); }
  }

  /** ceil(n / size) blocks cover n elements, and one block less would not. */
  lemma EnoughBlocks(n: nat, size: nat)
    requires size > 0
    ensures var nb := BlockOf(n + (size - 1), size); n <= Covered(nb, size) < n + size
  {
    Place(n + (size - 1), size);
  }

  class PodBVector<T(0)> {
    const blockSize: nat
    const blockPtrInc: nat
    var size: nat
    var maxBlocks: nat
    var blocks: seq<array<T>>

    ghost function BlockSet(): set<array<T>>
      reads this
    {
      set b | b in blocks
    }

    /** The blocks are distinct, of one size, no more than the pointer table can hold, and cover all
        elements. */
    ghost predicate Valid()
      reads this
    {
      && blockSize >= 1 && blockPtrInc >= 1
      && |blocks| <= maxBlocks
      && (forall i :: 0 <= i < |blocks| ==> blocks[i].Length == blockSize)
      && (forall i, j :: 0 <= i < j < |blocks| ==> blocks[i] != blocks[j])
      && size <= Covered(|blocks|, blockSize)
    }

    ghost function At(i: nat): T
      requires Valid() && i < size
      reads this, BlockSet()
    {
      PlaceBelow(i, |blocks|, blockSize);
      blocks[BlockOf(i, blockSize)][SlotOf(i, blockSize)]
    }

    /** The sequence that the deque stands for. */
    ghost function Content(): (s: seq<T>)
      requires Valid()
      reads this, BlockSet()
      ensures |s| == size && forall i :: 0 <= i < size ==> s[i] == At(i)
    {
      seq(size, i requires 0 <= i < size && Valid() reads this, BlockSet() => At(i))
    }

    constructor (blockSize: nat, blockPtrInc: nat)
      requires blockSize >= 1 && blockPtrInc >= 1
      ensures Valid() && Content() == [] && blocks == [] && maxBlocks == 0
      ensures this.blockSize == blockSize && this.blockPtrInc == blockPtrInc
    {
      this.blockSize, this.blockPtrInc := blockSize, blockPtrInc;
      size, maxBlocks, blocks := 0, 0, [];
    }

    /** Adds one block at the end; no other block is touched or moved. */
    method AllocateBlock(nb: nat)
      requires Valid() && nb == |blocks|
      modifies this`maxBlocks, this`blocks
      ensures Valid() && |blocks| == nb + 1 && blocks[..nb] == old(blocks) && fresh(blocks[nb])
      ensures Content() == old(Content())
      ensures maxBlocks == if nb >= old(maxBlocks) then old(maxBlocks) + blockPtrInc else old(maxBlocks)
    {
      if nb >= maxBlocks {
        maxBlocks := maxBlocks + blockPtrInc;
      }
      var block := new T[blockSize];
      ghost var before := blocks;
      assert Covered(nb + 1, blockSize) == Covered(nb, blockSize) + blockSize;
      blocks := blocks + [block];
      forall i | 0 <= i < size ensures At(i) == old(At(i)) {
        PlaceBelow(i, nb, blockSize);
      }
    }

    /** The place of the next element, in a new block if need be. */
    method DataPtr() returns (block: array<T>, slot: nat)
      requires Valid()
      modifies this`maxBlocks, this`blocks
      ensures Valid() && Content() == old(Content())
      ensures size < Covered(|blocks|, blockSize)
      ensures |old(blocks)| <= |blocks| && blocks[..|old(blocks)|] == old(blocks)
      ensures forall i :: |old(blocks)| <= i < |blocks| ==> fresh(blocks[i])
      ensures BlockOf(size, blockSize) < |blocks|
      ensures |blocks| == if size < Covered(|old(blocks)|, blockSize) then |old(blocks)| else |old(blocks)| + 1
      ensures block == blocks[BlockOf(size, blockSize)] && slot == SlotOf(size, blockSize)
    {
      var nb := BlockOf(size, blockSize);
      PlaceBelow(size, |blocks|, blockSize);
      if nb >= |blocks| {
        assert size == Covered(|blocks|, blockSize);
        PlaceIs(size, |blocks|, 0, blockSize);
        AllocateBlock(nb);
      }
      PlaceBelow(size, |blocks|, blockSize);
      block, slot := blocks[nb], SlotOf(size, blockSize);
    }

    method Add(val: T)
      requires Valid()
      modifies this`size, this`maxBlocks, this`blocks, BlockSet()
      ensures Valid() && Content() == old(Content()) + [val]
      ensures |old(blocks)| <= |blocks| && blocks[..|old(blocks)|] == old(blocks)
      ensures forall i :: |old(blocks)| <= i < |blocks| ==> fresh(blocks[i])
    {
      ghost var was := Content();
      var block, slot := DataPtr();
      label L:
      block[slot] := val;
      size := size + 1;
      forall i | 0 <= i < |was| ensures At(i) == was[i] {
        PlacesDiffer(i, |was|, blockSize);
        PlaceBelow(i, |blocks|, blockSize);
      }
      assert At(|was|) == val;
    }

    method RemoveLast()
      requires Valid()
      modifies this`size
      ensures Valid() && blocks == old(blocks)
      ensures Content() == if old(size) == 0 then [] else old(Content())[..old(size) - 1]
    {
      if size > 0 { size := size - 1; }
    }

    /** Reserves `num` neighbouring elements, all in one block, skipping the rest of the current block
        if they do not fit; what was there stays. A request of a whole block or more is refused. */
    method AllocateContinuousBlock(num: nat) returns (index: int)
      requires Valid()
      modifies this`size, this`maxBlocks, this`blocks
      ensures Valid() && size >= old(size) && Content()[..old(size)] == old(Content())
      ensures |old(blocks)| <= |blocks| && blocks[..|old(blocks)|] == old(blocks)
      ensures num >= blockSize <==> index == -1
      ensures index == -1 ==> size == old(size)
      ensures index != -1 ==>
                && index == old(size)
                            + (if SlotOf(old(size), blockSize) + num <= blockSize then 0
                               else blockSize - SlotOf(old(size), blockSize))
                && size == index + num
                && (num > 0 ==> BlockOf(index, blockSize) == BlockOf(index + num - 1, blockSize))
    {
      if num >= blockSize { return -1; }
      ghost var was := Content();
      var block, slot := DataPtr();
      var rest := blockSize - SlotOf(size, blockSize);
      Place(size, blockSize);
      ghost var nb := BlockOf(size, blockSize) + 1;
      MulLe(nb, |blocks|, blockSize);
      if num > rest {
        Reserve(rest);
        PlaceIs(size, nb, 0, blockSize);
        block, slot := DataPtr();
        MulLe(nb + 1, |blocks|, blockSize);
        Place(size, blockSize);
      }
      index := size;
      FitsInBlock(size, num, blockSize);
      Reserve(num);
      assert Content()[..|was|] == was;
    }

    // Lets the size grow over elements that the blocks hold already.
    method Reserve(num: nat)
      requires Valid() && size + num <= Covered(|blocks|, blockSize)
      modifies this`size
      ensures Valid() && size == old(size) + num && Content()[..old(size)] == old(Content())
    {
      ghost var was := Content();
      size := size + num;
      KeepPrefix(was);
    }

    /** Elements do not move when only the size grows. */
    lemma KeepPrefix(was: seq<T>)
      requires Valid() && |was| <= size
      requires forall i :: 0 <= i < |was| ==> At(i) == was[i]
      ensures Content()[..|was|] == was
    {
    }

    /** Blocks with equal contents and equal sizes make equal deques. */
    lemma SameBlocks(v: PodBVector<T>)
      requires Valid() && v.Valid() && blockSize == v.blockSize && size == v.size && |v.blocks| <= |blocks|
      requires forall k :: 0 <= k < |v.blocks| ==> blocks[k][..] == v.blocks[k][..]
      ensures Content() == v.Content()
    {
      forall k | 0 <= k < size ensures At(k) == v.At(k) {
        PlaceBelow(k, |v.blocks|, blockSize);
        var b, s := BlockOf(k, blockSize), SlotOf(k, blockSize);
        assert blocks[b][..][s] == v.blocks[b][..][s];
      }
    }

    /** The copy constructor: whole blocks are copied into new ones. */
    constructor Copy(v: PodBVector<T>)
      requires v.Valid()
      ensures Valid() && Content() == v.Content() && blockSize == v.blockSize
      ensures forall b :: b in blocks ==> fresh(b)
    {
      blockSize, blockPtrInc := v.blockSize, v.blockPtrInc;
      size, maxBlocks, blocks := v.size, v.maxBlocks, [];
      new;
      while |blocks| < |v.blocks|
        invariant |blocks| <= |v.blocks| && unchanged(v) && unchanged(v.BlockSet())
        invariant size == v.size && maxBlocks == v.maxBlocks
        invariant forall k :: 0 <= k < |blocks| ==> fresh(blocks[k]) && blocks[k].Length == blockSize
        invariant forall k :: 0 <= k < |blocks| ==> blocks[k][..] == v.blocks[k][..]
        invariant forall j, k :: 0 <= j < k < |blocks| ==> blocks[j] != blocks[k]
      {
        var block := new T[blockSize];
        CopyBlock(v.blocks[|blocks|], block);
        blocks := blocks + [block];
      }
      SameBlocks(v);
    }

    method GrowTo(n: nat)
      requires Valid()
      modifies this`maxBlocks, this`blocks
      ensures Valid() && |blocks| == (if n < |old(blocks)| then |old(blocks)| else n)
      ensures blocks[..|old(blocks)|] == old(blocks)
      ensures fresh(BlockSet() - old(BlockSet()))
    {
      while |blocks| < n
        invariant Valid() && |old(blocks)| <= |blocks| && blocks[..|old(blocks)|] == old(blocks)
        invariant |blocks| > n ==> |blocks| == |old(blocks)|
        invariant fresh(BlockSet() - old(BlockSet()))
      {
        AllocateBlock(|blocks|);
      }
    }

    /** Assignment: keeps the blocks there are, adds those missing, and copies the contents over. */
    method Assign(v: PodBVector<T>)
      requires Valid() && v.Valid() && blockSize == v.blockSize
      requires v == this || BlockSet() !! v.BlockSet()
      modifies this`size, this`maxBlocks, this`blocks, BlockSet()
      ensures Valid() && Content() == v.Content() && v.Content() == old(v.Content())
      ensures |old(blocks)| <= |blocks| && blocks[..|old(blocks)|] == old(blocks)
    {
      ghost var before := v.blocks;
      assert forall b :: b in before ==> b in v.BlockSet();
      GrowTo(|v.blocks|);
      MulLe(|v.blocks|, |blocks|, blockSize);
      assert forall k :: 0 <= k < |before| ==> v.blocks[k] == before[k];
      CopyBlocks(v);
      size := v.size;
      SameBlocks(v);
      v.SameContent();
    }

    /** A deque whose old blocks hold what they held, and whose size is the same, has the same content. */
    twostate lemma SameContent()
      requires old(Valid()) && Valid() && size == old(size) && |old(blocks)| <= |blocks|
      requires forall k :: 0 <= k < |old(blocks)| ==> blocks[k] == old(blocks[k]) && blocks[k][..] == old(blocks[k][..])
      ensures Content() == old(Content())
    {
      forall i | 0 <= i < size ensures At(i) == old(At(i)) {
        PlaceBelow(i, |old(blocks)|, blockSize);
        var b, s := BlockOf(i, blockSize), SlotOf(i, blockSize);
        assert blocks[b][..][s] == old(blocks[b][..])[s];
      }
    }

    method CopyBlocks(v: PodBVector<T>)
      requires Valid() && v.Valid() && blockSize == v.blockSize && |v.blocks| <= |blocks|
      requires v == this || BlockSet() !! v.BlockSet()
      modifies BlockSet()
      ensures forall k :: 0 <= k < |v.blocks| ==> blocks[k][..] == v.blocks[k][..]
      ensures forall k :: 0 <= k < |v.blocks| ==> v.blocks[k][..] == old(v.blocks[k][..])
    {
      var i := 0;
      while i < |v.blocks|
        invariant 0 <= i <= |v.blocks|
        invariant forall k :: 0 <= k < i ==> blocks[k][..] == v.blocks[k][..]
        invariant forall k :: 0 <= k < |v.blocks| ==> v.blocks[k][..] == old(v.blocks[k][..])
      {
        assert blocks[i] in BlockSet() && v.blocks[i] in v.BlockSet();
        assert forall k :: 0 <= k < i ==> blocks[k] != blocks[i] && v.blocks[k] in v.BlockSet();
        CopyBlock(v.blocks[i], blocks[i]);
        i := i + 1;
      }
    }

    /** `memcpy` of one block. */
    static method CopyBlock(from: array<T>, to: array<T>)
      requires from.Length == to.Length
      modifies to
      ensures to[..] == from[..] == old(from[..])
    {
      var i := 0;
      while i < from.Length
        invariant 0 <= i <= from.Length && to[..i] == from[..i] && from[..] == old(from[..])
      {
        to[i] := from[i];
        i := i + 1;
      }
    }

    /** On an empty deque this appends. */
    method ModifyLast(val: T)
      requires Valid()
      modifies this`size, this`maxBlocks, this`blocks, BlockSet()
      ensures Valid()
      ensures Content() == (if old(size) == 0 then [] else old(Content())[..old(size) - 1]) + [val]
      ensures |old(blocks)| <= |blocks| && blocks[..|old(blocks)|] == old(blocks)
    {
      RemoveLast();
      Add(val);
    }

    method CutAt(num: nat)
      requires Valid()
      modifies this`size
      ensures Valid() && blocks == old(blocks)
      ensures Content() == if num < old(size) then old(Content())[..num] else old(Content())
    {
      if num < size { size := num; }
    }

    /** Cuts like `CutAt` and gives up the blocks that no element needs any more. */
    method FreeTail(newSize: nat)
      requires Valid()
      modifies this`size, this`maxBlocks, this`blocks
      ensures Valid()
      ensures Content() == if newSize < old(size) then old(Content())[..newSize] else old(Content())
      ensures |blocks| <= |old(blocks)| && blocks == old(blocks)[..|blocks|]
      ensures if newSize < old(size) then Covered(|blocks|, blockSize) < newSize + blockSize
              else blocks == old(blocks)
      ensures maxBlocks == if newSize < old(size) && blocks == [] then 0 else old(maxBlocks)
    {
      if newSize < size {
        ghost var was := Content();
        var nb := BlockOf(newSize + (blockSize - 1), blockSize);
        EnoughBlocks(newSize, blockSize);
        PlaceBelow(newSize + (blockSize - 1), |blocks| + 1, blockSize);
        while |blocks| > nb
          invariant nb <= |blocks| <= |old(blocks)| && blocks == old(blocks)[..|blocks|]
          invariant size == old(size) && maxBlocks == old(maxBlocks)
        {
          blocks := blocks[..|blocks| - 1];
        }
        if |blocks| == 0 {
          maxBlocks := 0;
        }
        size := newSize;
        forall i | 0 <= i < size ensures At(i) == was[i] {
          PlaceBelow(i, |blocks|, blockSize);
        }
      }
    }
  }
}
