/** `chop` and `unchop`: splitting a file into numbered chunk files, and joining them again. */
module Chop {
  import opened Basics

  newtype Byte = b: int | 0 <= b < 256

  const BLOCK_SIZE := 65536
  const MAX_CHUNKS := 999999

  // ----- The chunk files -----

  function Overwritten(was: seq<Byte>, offset: nat, bytes: seq<Byte>): seq<Byte>
    requires offset <= |was|
  {
    was[..offset] + bytes + if offset + |bytes| < |was| then was[offset + |bytes|..] else []
  }

  function ContentOf(chunks: map<nat, seq<Byte>>, k: nat): seq<Byte> {
    if k in chunks then chunks[k] else []
  }

  /** The chunk files of one base name, by number. */
  class Disk {
    var chunks: map<nat, seq<Byte>>

    constructor ()
      ensures chunks == map[]
    {
      chunks := map[];
    }

    /** Opening for writing creates a missing file and leaves the bytes of an existing one in place. */
    method Open(index: nat)
      modifies this
      ensures chunks == old(chunks)[index := ContentOf(old(chunks), index)]
    {
      if index !in chunks {
        chunks := chunks[index := []];
      }
    }

    method Write(index: nat, offset: nat, bytes: seq<Byte>)
      requires index in chunks && offset <= |chunks[index]|
      modifies this
      ensures chunks == old(chunks)[index := Overwritten(old(chunks)[index], offset, bytes)]
    {
      chunks := chunks[index := Overwritten(chunks[index], offset, bytes)];
    }
  }

  /** A file open for reading. Reads are full: they come up short only at the end of the file. */
  class Reader {
    const data: seq<Byte>
    var pos: nat

    constructor (data: seq<Byte>)
      ensures this.data == data && pos == 0
    {
      this.data := data;
      pos := 0;
    }

    method Read(block: array<Byte>) returns (got: nat)
      requires pos <= |data|
      modifies this`pos, block
      ensures got == (if |data| - old(pos) < block.Length then |data| - old(pos) else block.Length)
      ensures pos == old(pos) + got
      ensures block[..got] == data[old(pos)..pos]
    {
      got := if |data| - pos < block.Length then |data| - pos else block.Length;
      var i := 0;
      while i < got
        invariant 0 <= i <= got && pos == old(pos)
        invariant forall k :: 0 <= k < i ==> block[k] == data[pos + k]
      {
        block[i] := data[pos + i];
        i := i + 1;
      }
      pos := pos + got;
    }
  }

  // ----- What chop is for -----

  /** The sizes at which `chop` loses the last byte of a file: its inclusive end pointer makes a
      block with one byte left look empty, and only a chunk ending inside a block leaves one byte. */
  predicate LosesLastByte(n: nat, chunkSize: nat)
    requires chunkSize > 0
  {
    n > 1 && (n - 1) % chunkSize == 0 && (n - 1) % BLOCK_SIZE != 0
  }

  function Kept(data: seq<Byte>, chunkSize: nat): seq<Byte>
    requires chunkSize > 0
  {
    if LosesLastByte(|data|, chunkSize) then data[..|data| - 1] else data
  }

  /** The k-th piece of the first `n` bytes. */
  function Piece(data: seq<Byte>, chunkSize: nat, n: nat, k: nat): seq<Byte>
    requires n <= |data|
  {
    if k * chunkSize <= n then data[k * chunkSize..Min((k + 1) * chunkSize, n)] else []
  }

  /** A piece written over a file that is not truncated: what was longer sticks out behind it. */
  function Over(was: seq<Byte>, piece: seq<Byte>): seq<Byte> {
    piece + if |piece| < |was| then was[|piece|..] else []
  }

  /** Files 0 .. count - 1 hold the pieces of the first `n` bytes, written over what was there; the other files are as
      they were. */
  ghost predicate HoldsPieces(chunks: map<nat, seq<Byte>>, was: map<nat, seq<Byte>>, data: seq<Byte>, chunkSize: nat,
                              n: nat, count: nat)
    requires n <= |data|
  {
    && (forall k: nat :: k in chunks <==> k < count || k in was)
    && (forall k: nat :: k < count ==> chunks[k] == Over(ContentOf(was, k), Piece(data, chunkSize, n, k)))
    && (forall k: nat :: k >= count && k in was ==> chunks[k] == was[k])
  }

  /** Where the chunk after `full` complete ones begins. */
  function Base(full: nat, c: nat): nat {
    full * c
  }

  /** Opening the next file keeps the pieces: so far none of it has been written. */
  lemma PiecesOpen(chunks: map<nat, seq<Byte>>, was: map<nat, seq<Byte>>, data: seq<Byte>, c: nat, n: nat, full: nat)
    requires n <= |data| && n == Base(full, c) && HoldsPieces(chunks, was, data, c, n, full)
    ensures HoldsPieces(chunks[full := ContentOf(chunks, full)], was, data, c, n, full + 1)
  {
    MulNext(full, c);
    assert Piece(data, c, n, full) == [];
  }

  lemma FullPiece(data: seq<Byte>, c: nat, n: nat, m: nat, k: nat, full: nat)
    requires full * c <= n <= m <= |data| && k < full
    ensures Piece(data, c, m, k) == Piece(data, c, n, k)
  {
    MulNext(k, c);
    MulLe(k + 1, full, c);
  }

  lemma LastPiece(data: seq<Byte>, c: nat, n: nat, m: nat, full: nat)
    requires full * c <= n <= m <= |data| && m <= full * c + c
    ensures |Piece(data, c, n, full)| == n - full * c
    ensures Piece(data, c, m, full) == Piece(data, c, n, full) + data[n..m]
  {
    MulNext(full, c);
    assert data[full * c..n] + data[n..m] == data[full * c..m];
  }

  lemma OverMore(was: seq<Byte>, piece: seq<Byte>, bytes: seq<Byte>)
    ensures |piece| <= |Over(was, piece)|
    ensures Overwritten(Over(was, piece), |piece|, bytes) == Over(was, piece + bytes)
  {
    assert Over(was, piece)[..|piece|] == piece;
  }

  /** Writing the next bytes to the open file keeps the pieces. */
  lemma PiecesWrite(chunks: map<nat, seq<Byte>>, was: map<nat, seq<Byte>>, data: seq<Byte>, c: nat, n: nat, m: nat,
                    full: nat, curr: nat)
    requires n == Base(full, c) + curr && n <= m <= |data| && m - n <= c - curr
    requires HoldsPieces(chunks, was, data, c, n, full + 1)
    ensures full in chunks && curr <= |chunks[full]|
    ensures HoldsPieces(chunks[full := Overwritten(chunks[full], curr, data[n..m])], was, data, c, m, full + 1)
  {
    LastPiece(data, c, n, m, full);
    OverMore(ContentOf(was, full), Piece(data, c, n, full), data[n..m]);
    forall k: nat | k < full ensures Piece(data, c, m, k) == Piece(data, c, n, k) {
      FullPiece(data, c, n, m, k, full);
    }
    hide Piece, Over, Overwritten, ContentOf;
  }

  /** No multiple of c lies strictly between two neighbouring ones. */
  lemma NoMultipleBetween(c: nat, full: nat, x: nat)
    requires c > 0 && full * c < x < full * c + c
    ensures x % c != 0
  {
    if x % c == 0 {
      var q := x / c;
      assert x == q * c;
      MulNext(full, c);
      if q <= full { MulLe(q, full, c); } else { MulLe(full + 1, q, c); }
    }
  }

  // ----- chop -----

  /** The file position of the first byte of the block that ends before `pos`. */
  function BlockStart(pos: nat): int
    requires pos > 0
  {
    pos - 1 - (pos - 1) % BLOCK_SIZE
  }

  /** Where the loop is at the top of an iteration: `total` bytes written, `full` files complete and
      `curr` bytes in the open one; unread bytes of the block are at beg .. end, inclusive. */
  ghost predicate LoopAt(n: nat, c: nat, pos: nat, total: nat, beg: int, end: int, full: nat, curr: nat) {
    && c > 0 && (full * c) % 1024 == 0
    && total <= n && pos <= n && (pos % BLOCK_SIZE == 0 || pos == n)
    && total == full * c + curr && curr < c
    && 0 <= beg <= end + 1 && 0 <= end < BLOCK_SIZE
    && (pos == 0 ==> beg == end == 0 && total == 0)
    && (pos > 0 ==> pos - total == end - beg + 1 && BlockStart(pos) < total && (beg == end ==> curr == 0))
    && (total == n ==> !LosesLastByte(n, c))
  }

  /** In the middle of an iteration the block has at least one byte, and if it has been read just now it
      may have no more. */
  ghost predicate Ready(n: nat, c: nat, pos: nat, total: nat, beg: int, end: int, full: nat, curr: nat) {
    && c > 0 && (full * c) % 1024 == 0
    && total < n && pos <= n && (pos % BLOCK_SIZE == 0 || pos == n)
    && total == full * c + curr && curr < c
    && 0 <= beg <= end < BLOCK_SIZE && pos > 0
    && pos - total == end - beg + 1 && BlockStart(pos) <= total
    && (beg == end ==> BlockStart(pos) == total)
  }

  lemma OneByteLost(n: nat, c: nat, total: nat, full: nat)
    requires c > 0 && n == total + 1 && total == full * c && BlockStart(n) < total
    ensures LosesLastByte(n, c)
  {
    RemainderIs(full * c, c, full, 0);
  }

  lemma OffByOne(pos: nat, total: nat)
    requires pos % BLOCK_SIZE == 0 && total % 1024 == 0
    ensures pos - total != 1
  {
    assert pos % 1024 == 0;
  }

  lemma FirstOfBlock(pos: nat, got: nat)
    requires pos % BLOCK_SIZE == 0 && 1 <= got <= BLOCK_SIZE
    ensures BlockStart(pos + got) == pos
  {
  }

  /** Either the block had two bytes or more, or the next one is read; when there is none to read, the
      one byte the end pointer hides is the last of the file and is lost. */
  lemma AfterRead(n: nat, c: nat, pos: nat, total: nat, beg: int, end: int, full: nat, curr: nat, got: nat)
    requires LoopAt(n, c, pos, total, beg, end, full, curr) && total < n && beg >= end
    requires got == Min(n - pos, BLOCK_SIZE)
    ensures got == 0 ==> curr == 0 && total == n - 1 && LosesLastByte(n, c)
    ensures got > 0 ==> Ready(n, c, pos + got, total, 0, got - 1, full, curr)
  {
    hide BlockStart, LosesLastByte;
    if got == 0 {
      OneByteLost(n, c, total, full);
    } else {
      if pos > 0 && beg == end {
        OffByOne(pos, full * c);
      }
      FirstOfBlock(pos, got);
    }
  }

  lemma NotRead(n: nat, c: nat, pos: nat, total: nat, beg: int, end: int, full: nat, curr: nat)
    requires LoopAt(n, c, pos, total, beg, end, full, curr) && total < n && beg < end
    ensures Ready(n, c, pos, total, beg, end, full, curr)
  {
  }

  lemma Kilobytes(x: nat, c: nat)
    requires x % 1024 == 0 && c % 1024 == 0
    ensures (x + c) % 1024 == 0
  {
  }

  lemma AllWritten(n: nat, c: nat, pos: nat, total: nat, beg: int, end: int, full: nat, curr: nat)
    requires Ready(n, c, pos, total, beg, end, full, curr)
    requires n <= full * c + c
    ensures !LosesLastByte(n, c)
  {
    if total < n - 1 { NoMultipleBetween(c, full, n - 1); }
  }

  /** Writing up to the end of the block or of the chunk, whichever comes first. */
  lemma AfterWrite(n: nat, c: nat, pos: nat, total: nat, beg: int, end: int, full: nat, curr: nat, put: nat)
    requires Ready(n, c, pos, total, beg, end, full, curr) && c % 1024 == 0
    requires put == Min(c - curr, end - beg + 1)
    ensures curr + put < c ==> LoopAt(n, c, pos, total + put, beg + put, end, full, curr + put)
    ensures curr + put >= c ==> LoopAt(n, c, pos, total + put, beg + put, end, full + 1, 0)
  {
    hide LosesLastByte;
    MulNext(full, c);
    if total + put == n { AllWritten(n, c, pos, total, beg, end, full, curr); }
    Kilobytes(full * c, c);
    hide BlockStart;
  }

  /** `count` files, numbered from 0, that hold everything kept of the file, in pieces of the chunk
      size of which only the last may be short and none is empty, written over what was there. */
  ghost predicate ChoppedInto(chunks: map<nat, seq<Byte>>, was: map<nat, seq<Byte>>, data: seq<Byte>, c: nat,
                              count: nat)
    requires c > 0
  {
    && HoldsPieces(chunks, was, data, c, |Kept(data, c)|, count)
    && |Kept(data, c)| <= count * c && (count > 0 ==> (count - 1) * c < |Kept(data, c)|)
  }

  /** The unread part of the block is the file from `total` on. */
  ghost predicate BlockHolds(block: seq<Byte>, beg: int, end: int, data: seq<Byte>, total: nat) {
    forall k :: 0 <= beg <= k <= end && k < |block| && 0 <= total + k - beg < |data| ==>
                block[k] == data[total + k - beg]
  }

  lemma TakeFromBlock(block: seq<Byte>, beg: int, end: int, data: seq<Byte>, total: nat, put: nat)
    requires BlockHolds(block, beg, end, data, total)
    requires 0 <= beg && beg + put <= end + 1 <= |block| && total + put <= |data|
    ensures block[beg..beg + put] == data[total..total + put]
    ensures BlockHolds(block, beg + put, end, data, total + put)
  {
  }

  lemma ReadyBounds(n: nat, c: nat, pos: nat, total: nat, beg: int, end: int, full: nat, curr: nat)
    requires Ready(n, c, pos, total, beg, end, full, curr)
    ensures total == Base(full, c) + curr
    ensures 0 <= beg <= end < BLOCK_SIZE && pos > 0 && total + (end - beg + 1) == pos <= n
    ensures curr < c
  {
  }

  lemma FreshBlock(block: seq<Byte>, got: nat, data: seq<Byte>, pos: nat)
    requires got <= |block| && pos + got <= |data| && block[..got] == data[pos..pos + got]
    ensures BlockHolds(block, 0, got - 1, data, pos)
  {
    forall k | 0 <= k < got ensures block[k] == data[pos + k] {
      assert block[k] == block[..got][k];
    }
  }

  /** The loop invariant of `chop_file`: where the loop is, what the chunk files hold, and what is left in the block. */
  ghost predicate Chopping(chunks: map<nat, seq<Byte>>, was: map<nat, seq<Byte>>, data: seq<Byte>, c: nat,
                           block: seq<Byte>, pos: nat, total: nat, beg: int, end: int, full: nat, curr: nat, index: nat)
  {
    && pos <= |data| && total <= |data| && LoopAt(|data|, c, pos, total, beg, end, full, curr)
    && index == full + (if curr == 0 then 0 else 1) && HoldsPieces(chunks, was, data, c, total, index)
    && (pos > 0 ==> BlockHolds(block, beg, end, data, total))
  }

  /** The same in the middle of an iteration, with bytes to write. */
  ghost predicate Loaded(chunks: map<nat, seq<Byte>>, was: map<nat, seq<Byte>>, data: seq<Byte>, c: nat,
                         block: seq<Byte>, pos: nat, total: nat, beg: int, end: int, full: nat, curr: nat, index: nat)
  {
    && pos <= |data| && total < |data| && Ready(|data|, c, pos, total, beg, end, full, curr)
    && index == full + (if curr == 0 then 0 else 1) && HoldsPieces(chunks, was, data, c, total, index)
    && BlockHolds(block, beg, end, data, total)
  }

  lemma LoadedNow(chunks: map<nat, seq<Byte>>, was: map<nat, seq<Byte>>, data: seq<Byte>, c: nat, content: seq<Byte>,
                  block: seq<Byte>, pos: nat, got: nat, total: nat, beg: int, end: int, full: nat, curr: nat,
                      index: nat)
    requires Chopping(chunks, was, data, c, content, pos, total, beg, end, full, curr, index) && total < |data|
    requires beg >= end && got == Min(|data| - pos, BLOCK_SIZE) && got <= |block| && block[..got]
        == data[pos..pos + got]
    ensures got > 0 ==> Loaded(chunks, was, data, c, block, pos + got, total, 0, got - 1, full, curr, index)
    ensures got == 0 ==> curr == 0 && total == |data| - 1 && LosesLastByte(|data|, c)
  {
    AfterRead(|data|, c, pos, total, beg, end, full, curr, got);
    if got > 0 {
      ReadyBounds(|data|, c, pos + got, total, 0, got - 1, full, curr);
      FreshBlock(block, got, data, pos);
    }
    hide LoopAt, Ready, HoldsPieces, LosesLastByte, BlockHolds;
  }

  lemma StillLoaded(chunks: map<nat, seq<Byte>>, was: map<nat, seq<Byte>>, data: seq<Byte>, c: nat, block: seq<Byte>,
                    pos: nat, total: nat, beg: int, end: int, full: nat, curr: nat, index: nat)
    requires Chopping(chunks, was, data, c, block, pos, total, beg, end, full, curr, index)
    requires total < |data| && beg < end
    ensures Loaded(chunks, was, data, c, block, pos, total, beg, end, full, curr, index)
  {
    NotRead(|data|, c, pos, total, beg, end, full, curr);
    ReadyBounds(|data|, c, pos, total, beg, end, full, curr);
    hide LoopAt, Ready, HoldsPieces, BlockHolds;
  }

  /** Reads the next block when the end pointer says that the present one is used up. */
  method FillBlock(reader: Reader, block: array<Byte>, beg0: int, end0: int, ghost chunks: map<nat, seq<Byte>>,
                   ghost was: map<nat, seq<Byte>>, ghost c: nat, ghost total: nat, ghost full: nat, ghost curr: nat,
                   ghost index: nat)
    returns (more: bool, beg: int, end: int)
    requires block.Length == BLOCK_SIZE && total < |reader.data|
    requires Chopping(chunks, was, reader.data, c, block[..], reader.pos, total, beg0, end0, full, curr, index)
    modifies reader`pos, block
    ensures more ==> Loaded(chunks, was, reader.data, c, block[..], reader.pos, total, beg, end, full, curr, index)
    ensures !more ==> curr == 0 && total == |reader.data| - 1 && LosesLastByte(|reader.data|, c)
  {
    beg, end := beg0, end0;
    ghost var pos, content := reader.pos, block[..];
    assert pos <= |reader.data|;
    hide Chopping, Loaded, LosesLastByte;
    if beg >= end {
      var got := reader.Read(block);
      assert block[..][..got] == block[..got];
      LoadedNow(chunks, was, reader.data, c, content, block[..], pos, got, total, beg, end, full, curr, index);
      if got <= 0 {
        return false, beg, end;
      }
      beg, end := 0, got - 1;
    } else {
      StillLoaded(chunks, was, reader.data, c, block[..], pos, total, beg, end, full, curr, index);
    }
    more := true;
  }

  // After a write, and with the next chunk file to be opened if this one is full.
  lemma Written(chunks: map<nat, seq<Byte>>, after: map<nat, seq<Byte>>, was: map<nat, seq<Byte>>, data: seq<Byte>,
                c: nat,
                block: seq<Byte>, pos: nat, total: nat, beg: int, end: int, full: nat, curr: nat, index: nat, put: nat)
    requires Loaded(chunks, was, data, c, block, pos, total, beg, end, full, curr, index)
    requires c % 1024 == 0 && |block| == BLOCK_SIZE && put == Min(c - curr, end - beg + 1)
    requires total + put <= |data| && HoldsPieces(after, was, data, c, total + put, full + 1)
    ensures curr + put < c ==>
              Chopping(after, was, data, c, block, pos, total + put, beg + put, end, full, curr + put, full + 1)
    ensures curr + put >= c ==>
              Chopping(after, was, data, c, block, pos, total + put, beg + put, end, full + 1, 0, full + 1)
  {
    ReadyBounds(|data|, c, pos, total, beg, end, full, curr);
    AfterWrite(|data|, c, pos, total, beg, end, full, curr, put);
    TakeFromBlock(block, beg, end, data, total, put);
    hide LoopAt, Ready, HoldsPieces, BlockHolds;
  }

  lemma LoadedBounds(chunks: map<nat, seq<Byte>>, was: map<nat, seq<Byte>>, data: seq<Byte>, c: nat, block: seq<Byte>,
                     pos: nat, total: nat, beg: int, end: int, full: nat, curr: nat, index: nat)
    requires Loaded(chunks, was, data, c, block, pos, total, beg, end, full, curr, index) && |block| == BLOCK_SIZE
    ensures 0 <= beg <= end < BLOCK_SIZE && total + (end - beg + 1) <= |data| && curr < c
    ensures total == Base(full, c) + curr && index == full + (if curr == 0 then 0 else 1)
    ensures HoldsPieces(chunks, was, data, c, total, index)
    ensures BlockHolds(block, beg, end, data, total)
  {
    ReadyBounds(|data|, c, pos, total, beg, end, full, curr);
    hide Ready, HoldsPieces, BlockHolds;
  }

  /** Starts the next chunk file if the last one is full. */
  method OpenNext(disk: Disk, open0: bool, curr0: nat, index0: nat, ghost was: map<nat, seq<Byte>>,
                  ghost data: seq<Byte>, ghost c: nat, ghost total: nat, ghost full: nat)
    returns (curr: nat, index: nat)
    requires total <= |data| && index0 == full + (if open0 then 0 else 1) && (open0 ==> total == Base(full, c))
    requires HoldsPieces(disk.chunks, was, data, c, total, index0)
    modifies disk
    ensures index == full + 1 && curr == if open0 then 0 else curr0
    ensures HoldsPieces(disk.chunks, was, data, c, total, index)
  {
    curr, index := curr0, index0;
    hide HoldsPieces, ContentOf, Base;
    if open0 {
      PiecesOpen(disk.chunks, was, data, c, total, full);
      disk.Open(index);
      index := index + 1;
      curr := 0;
    }
  }

  /** Writes the next bytes of the file to the open chunk file. */
  method WriteNext(disk: Disk, index: nat, curr: nat, bytes: seq<Byte>, ghost was: map<nat, seq<Byte>>,
                   ghost data: seq<Byte>, ghost c: nat, ghost total: nat, ghost full: nat)
    requires index == full + 1 && total == Base(full, c) + curr && total + |bytes| <= |data| && |bytes| <= c - curr
    requires bytes == data[total..total + |bytes|] && HoldsPieces(disk.chunks, was, data, c, total, index)
    modifies disk
    ensures HoldsPieces(disk.chunks, was, data, c, total + |bytes|, index)
  {
    hide HoldsPieces, Base, Overwritten, Piece;
    PiecesWrite(disk.chunks, was, data, c, total, total + |bytes|, full, curr);
    disk.Write(index - 1, curr, bytes);
  }

  /** Writes as much of the block as fits the current chunk file, a new one if the last is full. */
  method WriteSome(disk: Disk, block: array<Byte>, beg: int, end: int, chunkSize: nat, open0: bool, curr0: nat,
                   index0: nat, ghost was: map<nat, seq<Byte>>, ghost data: seq<Byte>, ghost pos: nat,
                   ghost total: nat, ghost full0: nat)
    returns (openNextFile: bool, currWritten: nat, index: nat, needed: nat, ghost full: nat)
    requires block.Length == BLOCK_SIZE && chunkSize % 1024 == 0 && (!open0 ==> curr0 > 0)
    requires Loaded(disk.chunks, was, data, chunkSize, block[..], pos, total, beg, end, full0,
                    if open0 then 0 else curr0, index0)
    modifies disk
    ensures 0 < needed && total + needed <= |data| && (!openNextFile ==> currWritten > 0)
    ensures Chopping(disk.chunks, was, data, chunkSize, block[..], pos, total + needed, beg + needed, end, full,
                     if openNextFile then 0 else currWritten, index)
  {
    ghost var before, content, curr := disk.chunks, block[..], if open0 then 0 else curr0;
    LoadedBounds(before, was, data, chunkSize, content, pos, total, beg, end, full0, curr, index0);
    hide Loaded, Chopping, HoldsPieces, BlockHolds, Base;
    currWritten, index := OpenNext(disk, open0, curr0, index0, was, data, chunkSize, total, full0);
    needed := chunkSize - currWritten;
    var avail := end - beg + 1;
    if needed > avail {
      needed := avail;
    }
    TakeFromBlock(content, beg, end, data, total, needed);
    assert block[beg..beg + needed] == content[beg..beg + needed];
    WriteNext(disk, index, currWritten, block[beg..beg + needed], was, data, chunkSize, total, full0);
    Written(before, disk.chunks, was, data, chunkSize, content, pos, total, beg, end, full0, curr, index0, needed);
    currWritten := currWritten + needed;
    openNextFile := currWritten >= chunkSize;
    full := full0 + if openNextFile then 1 else 0;
  }

  lemma StartOfChop(data: seq<Byte>, c: nat, chunks: map<nat, seq<Byte>>, block: seq<Byte>)
    requires c > 0
    ensures Chopping(chunks, chunks, data, c, block, 0, 0, 0, 0, 0, 0, 0)
  {
  }

  lemma EndOfChop(chunks: map<nat, seq<Byte>>, was: map<nat, seq<Byte>>, data: seq<Byte>, c: nat, block: seq<Byte>,
                  pos: nat, total: nat, beg: int, end: int, full: nat, curr: nat, index: nat)
    requires Chopping(chunks, was, data, c, block, pos, total, beg, end, full, curr, index)
    requires total >= |data| || (curr == 0 && total == |data| - 1 && LosesLastByte(|data|, c))
    ensures ChoppedInto(chunks, was, data, c, index)
  {
    MulNext(full, c);
    if full > 0 { MulNext(full - 1, c); }
    hide HoldsPieces;
  }

  /** The loop of `chop_file`. */
  method ChopBlocks(disk: Disk, data: seq<Byte>, chunkSize: nat) returns (index: nat)
    requires chunkSize > 0 && chunkSize % 1024 == 0
    modifies disk
    ensures ChoppedInto(disk.chunks, old(disk.chunks), data, chunkSize, index)
  {
    var reader := new Reader(data);
    var block := new Byte[BLOCK_SIZE];
    var openNextFile, beg, end := true, 0, 0;
    var currWritten: nat, totalWritten: nat := 0, 0;
    index := 0;
    ghost var full: nat, was := 0, disk.chunks;
    StartOfChop(data, chunkSize, was, block[..]);
    hide Chopping, Loaded, ChoppedInto, LosesLastByte;
    while totalWritten < |data|
      invariant fresh(reader) && fresh(block) && reader.data == data && block.Length == BLOCK_SIZE
      invariant !openNextFile ==> currWritten > 0
      invariant Chopping(disk.chunks, was, data, chunkSize, block[..], reader.pos, totalWritten, beg, end, full,
                         if openNextFile then 0 else currWritten, index)
      decreases |data| - totalWritten
    {
      var more;
      ghost var content, pos, beg0, end0 := block[..], reader.pos, beg, end;
      more, beg, end := FillBlock(reader, block, beg, end, disk.chunks, was, chunkSize, totalWritten, full,
                                  if openNextFile then 0 else currWritten, index);
      if !more {
        EndOfChop(disk.chunks, was, data, chunkSize, content, pos, totalWritten, beg0, end0, full,
                  if openNextFile then 0 else currWritten, index);
        return;
      }
      var put;
      openNextFile, currWritten, index, put, full :=
        WriteSome(disk, block, beg, end, chunkSize, openNextFile, currWritten, index, was, data, reader.pos,
                  totalWritten, full);
      beg := beg + put;
      totalWritten := totalWritten + put;
    }
    EndOfChop(disk.chunks, was, data, chunkSize, block[..], reader.pos, totalWritten, beg, end, full,
              if openNextFile then 0 else currWritten, index);
  }

  /** `chop_file`, whatever chunk files are there. */
  method ChopFile(disk: Disk, data: seq<Byte>, kbytesPerChunk: nat) returns (index: nat)
    requires 1 <= kbytesPerChunk
    modifies disk
    ensures ChoppedInto(disk.chunks, old(disk.chunks), data, kbytesPerChunk * 1024, index)
  {
    index := ChopBlocks(disk, data, kbytesPerChunk * 1024);
  }

  datatype Outcome = Chopped | AlreadySmallEnough | ChunkExists

  /** `do_chop` on an existing regular file: refuses a file smaller than one chunk, and refuses to
      start over an existing chunk 00. Other chunk files it does not look for. */
  method DoChop(disk: Disk, data: seq<Byte>, kbytesPerChunk: nat) returns (outcome: Outcome, ghost count: nat)
    requires 1 <= kbytesPerChunk
    modifies disk
    ensures outcome == if |data| < kbytesPerChunk * 1024 then AlreadySmallEnough
                       else if 0 in old(disk.chunks) then ChunkExists
                       else Chopped
    ensures outcome == Chopped ==> ChoppedInto(disk.chunks, old(disk.chunks), data, kbytesPerChunk * 1024, count)
    ensures outcome != Chopped ==> disk.chunks == old(disk.chunks)
  {
    count := 0;
    if |data| < kbytesPerChunk * 1024 {
      return AlreadySmallEnough, 0;
    }
    if 0 in disk.chunks {
      return ChunkExists, 0;
    }
    count := ChopFile(disk, data, kbytesPerChunk);
    outcome := Chopped;
  }

  // ----- unchop -----

  /** The chunk files from `i` on, up to the first missing one or the last number tried. */
  ghost function Joined(chunks: map<nat, seq<Byte>>, i: nat): seq<Byte>
    decreases MAX_CHUNKS - i
  {
    if i < MAX_CHUNKS && i in chunks then chunks[i] + Joined(chunks, i + 1) else []
  }

  /** `append_file`: a block at a time, until a read comes back empty. */
  method AppendFile(input: seq<Byte>, block: array<Byte>, output: seq<Byte>) returns (out: seq<Byte>)
    requires block.Length == BLOCK_SIZE
    modifies block
    ensures out == output + input
  {
    var reader := new Reader(input);
    out := output;
    while true
      invariant fresh(reader) && reader.data == input && reader.pos <= |input|
      invariant out == output + input[..reader.pos]
      decreases |input| - reader.pos
    {
      ghost var pos := reader.pos;
      var got := reader.Read(block);
      if got <= 0 { break; }
      out := out + block[..got];
      assert input[..pos] + input[pos..reader.pos] == input[..reader.pos];
    }
    assert input[..reader.pos] == input;
  }

  /** `do_unchop`, appending to an empty output file. */
  method DoUnchop(disk: Disk) returns (out: seq<Byte>)
    ensures out == Joined(disk.chunks, 0)
  {
    var block := new Byte[BLOCK_SIZE];
    out := [];
    var i := 0;
    while i < MAX_CHUNKS
      invariant 0 <= i <= MAX_CHUNKS
      invariant out + Joined(disk.chunks, i) == Joined(disk.chunks, 0)
    {
      if i !in disk.chunks { break; }
      ghost var before := out;
      out := AppendFile(disk.chunks[i], block, out);
      assert out + Joined(disk.chunks, i + 1) == before + (disk.chunks[i] + Joined(disk.chunks, i + 1));
      i := i + 1;
    }
  }

  // ----- Round trip -----

  lemma BaseOrder(i: nat, j: nat, c: nat)
    ensures i <= j ==> Base(i, c) <= Base(j, c)
    ensures Base(i + 1, c) == Base(i, c) + c
  {
    if i <= j { MulLe(i, j, c); }
    MulNext(i, c);
  }

  lemma PieceIs(data: seq<Byte>, c: nat, n: nat, k: nat)
    requires n <= |data| && Base(k, c) <= n
    ensures Piece(data, c, n, k) == data[Base(k, c)..Min(Base(k + 1, c), n)]
  {
  }

  lemma Glue(data: seq<Byte>, lo: nat, mid: nat, hi: nat)
    requires lo <= mid <= hi <= |data|
    ensures data[lo..mid] + data[mid..hi] == data[lo..hi]
  {
  }

  // Chunk files that `chop` has not touched.
  lemma {:induction false} JoinedRest(chunks: map<nat, seq<Byte>>, was: map<nat, seq<Byte>>, i: nat)
    requires forall k: nat :: k >= i ==> (k in chunks <==> k in was) && (k in was ==> chunks[k] == was[k])
    ensures Joined(chunks, i) == Joined(was, i)
    decreases MAX_CHUNKS - i
  {
    if i < MAX_CHUNKS {
      JoinedRest(chunks, was, i + 1);
    }
  }

  /** The number of chunks that n bytes need. */
  function ChunksFor(n: nat, c: nat): nat
    requires c > 0
  {
    (n + c - 1) / c
  }

  lemma CountIs(n: nat, c: nat, count: nat)
    requires c > 0 && n <= Base(count, c) && (count > 0 ==> Base(count - 1, c) < n)
    ensures count == ChunksFor(n, c)
  {
    if count > 0 {
      MulNext(count - 1, c);
      RemainderIs(n + c - 1, c, count, n - 1 - (count - 1) * c);
    } else {
      RemainderIs(c - 1, c, 0, c - 1);
    }
  }

  // How far the first i chunks reach.
  function Reached(n: nat, c: nat, i: nat): nat {
    Min(Base(i, c), n)
  }

  /** Chunk files from number `i` on that were there before add nothing: none is longer than the piece written over it,
      and behind the last piece no bytes follow. */
  ghost predicate AddsNothing(was: map<nat, seq<Byte>>, c: nat, n: nat, count: nat, i: nat) {
    && (forall k: nat :: i <= k < count && k < MAX_CHUNKS ==>
                           |ContentOf(was, k)| <= Reached(n, c, k + 1) - Reached(n, c, k))
    && (count < MAX_CHUNKS ==> Joined(was, count) == [])
  }

  lemma AddsNothingStep(was: map<nat, seq<Byte>>, c: nat, n: nat, count: nat, i: nat)
    requires i < count && i < MAX_CHUNKS
    ensures AddsNothing(was, c, n, count, i)
       <==> |ContentOf(was, i)| <= Reached(n, c, i + 1) - Reached(n, c, i) && AddsNothing(was, c, n, count, i + 1)
  {
    hide Base, Joined, ContentOf;
  }

  // One chunk file, with `stale` content before, in front of the others.
  lemma JoinStep(stale: seq<Byte>, piece: seq<Byte>, rest: seq<Byte>, pieces: seq<Byte>, nothing: bool)
    requires |pieces| <= |rest| && (nothing <==> |rest| == |pieces|) && (nothing ==> rest == pieces)
    ensures var joined := Over(stale, piece) + rest;
            && |piece| + |pieces| <= |joined|
            && (|stale| <= |piece| && nothing <==> |joined| == |piece| + |pieces|)
            && (|stale| <= |piece| && nothing ==> joined == piece + pieces)
  {
  }

  /** What is joined from chunk i on is at least the rest of the pieces, and no more if and only if stale files add
      nothing. */
  ghost predicate JoinsPieces(chunks: map<nat, seq<Byte>>, was: map<nat, seq<Byte>>, data: seq<Byte>, c: nat, n: nat,
                              count: nat, i: nat)
    requires n <= |data|
  {
    var lo, hi := Reached(n, c, i), Reached(n, c, MAX_CHUNKS);
    && lo <= hi <= lo + |Joined(chunks, i)|
    && (AddsNothing(was, c, n, count, i) <==> |Joined(chunks, i)| == hi - lo)
    && (AddsNothing(was, c, n, count, i) ==> Joined(chunks, i) == data[lo..hi])
  }

  lemma JoinedStep(chunks: map<nat, seq<Byte>>, was: map<nat, seq<Byte>>, data: seq<Byte>, c: nat, n: nat, count: nat,
                   i: nat)
    requires n <= |data| && HoldsPieces(chunks, was, data, c, n, count)
    requires i < count && i < MAX_CHUNKS && Base(count - 1, c) < n
    requires JoinsPieces(chunks, was, data, c, n, count, i + 1)
    ensures JoinsPieces(chunks, was, data, c, n, count, i)
  {
    BaseOrder(i, count - 1, c);
    PieceIs(data, c, n, i);
    AddsNothingStep(was, c, n, count, i);
    var lo, mid, hi := Reached(n, c, i), Reached(n, c, i + 1), Reached(n, c, MAX_CHUNKS);
    assert Joined(chunks, i) == Over(ContentOf(was, i), data[lo..mid]) + Joined(chunks, i + 1);
    hide Base, Piece, AddsNothing, HoldsPieces, Over, ContentOf, Joined, Reached;
    JoinStep(ContentOf(was, i), data[lo..mid], Joined(chunks, i + 1), data[mid..hi],
             AddsNothing(was, c, n, count, i + 1));
    Glue(data, lo, mid, hi);
  }

  lemma JoinedBehind(chunks: map<nat, seq<Byte>>, was: map<nat, seq<Byte>>, data: seq<Byte>, c: nat, n: nat, count: nat,
                     i: nat)
    requires n <= |data| && HoldsPieces(chunks, was, data, c, n, count) && n <= Base(count, c)
    requires i == count < MAX_CHUNKS || i == MAX_CHUNKS <= count
    ensures JoinsPieces(chunks, was, data, c, n, count, i)
  {
    if i < MAX_CHUNKS {
      JoinedRest(chunks, was, i);
      BaseOrder(count, MAX_CHUNKS, c);
    }
    hide Base, Piece, HoldsPieces, Over, ContentOf;
  }

  lemma {:induction false} JoinedPieces(chunks: map<nat, seq<Byte>>, was: map<nat, seq<Byte>>, data: seq<Byte>, c: nat,
                                        n: nat, count: nat, i: nat)
    requires n <= |data| && HoldsPieces(chunks, was, data, c, n, count)
    requires n <= Base(count, c) && (count > 0 ==> Base(count - 1, c) < n)
    requires i <= count && i <= MAX_CHUNKS
    ensures JoinsPieces(chunks, was, data, c, n, count, i)
    decreases count - i
  {
    hide HoldsPieces, JoinsPieces, Base;
    if i < count && i < MAX_CHUNKS {
      JoinedPieces(chunks, was, data, c, n, count, i + 1);
      JoinedStep(chunks, was, data, c, n, count, i);
    } else {
      JoinedBehind(chunks, was, data, c, n, count, i);
    }
  }

  /** Chunk files left over from an earlier time add nothing to what `unchop` makes of a file of n kept bytes. */
  ghost predicate StaleAddNothing(was: map<nat, seq<Byte>>, c: nat, n: nat)
    requires c > 0
  {
    AddsNothing(was, c, n, ChunksFor(n, c), 0)
  }

  /** What `unchop` makes of what `chop` wrote: all that was kept, as far as its numbers reach, and nothing more if and
      only if stale files add nothing. */
  lemma UnchopOfChop(chunks: map<nat, seq<Byte>>, was: map<nat, seq<Byte>>, data: seq<Byte>, c: nat, count: nat)
    requires c > 0 && ChoppedInto(chunks, was, data, c, count)
    ensures Min(MAX_CHUNKS * c, |Kept(data, c)|) <= |Joined(chunks, 0)|
    ensures StaleAddNothing(was, c, |Kept(data, c)|) <==> |Joined(chunks, 0)| == Min(MAX_CHUNKS * c, |Kept(data, c)|)
    ensures StaleAddNothing(was, c, |Kept(data, c)|) ==>
              Joined(chunks, 0) == Kept(data, c)[..Min(MAX_CHUNKS * c, |Kept(data, c)|)]
  {
    var kept := Kept(data, c);
    JoinedPieces(chunks, was, data, c, |kept|, count, 0);
    CountIs(|kept|, c, count);
    hide LosesLastByte, Joined, AddsNothing, HoldsPieces;
    assert Reached(|kept|, c, 0) == 0 && Reached(|kept|, c, MAX_CHUNKS) == Min(MAX_CHUNKS * c, |kept|);
    hide Reached, ChunksFor;
    assert data[..|kept|] == kept;
    assert data[0..Min(MAX_CHUNKS * c, |kept|)] == kept[..Min(MAX_CHUNKS * c, |kept|)];
  }

  lemma NoStaleFiles(c: nat, n: nat)
    requires c > 0
    ensures StaleAddNothing(map[], c, n)
  {
    forall k: nat ensures Reached(n, c, k) <= Reached(n, c, k + 1) {
      BaseOrder(k, k + 1, c);
    }
  }

  /** A file that `chop` accepts, beside whatever chunk files other than chunk 00: if stale files add nothing, it comes
      back from `unchop` unchanged if and only if its size is not one that loses the last byte and does not need more
      chunks than `unchop` tries; and if its size is such, then if and only if stale files add nothing. */
  method ChopThenUnchop(disk: Disk, data: seq<Byte>, kbytesPerChunk: nat) returns (out: seq<Byte>)
    requires 1 <= kbytesPerChunk && |data| >= kbytesPerChunk * 1024 && 0 !in disk.chunks
    modifies disk
    ensures var c := kbytesPerChunk * 1024;
            StaleAddNothing(old(disk.chunks), c, |Kept(data, c)|) ==>
              (out == data <==> !LosesLastByte(|data|, c) && |data| <= MAX_CHUNKS * c)
    ensures var c := kbytesPerChunk * 1024;
            !LosesLastByte(|data|, c) && |data| <= MAX_CHUNKS * c ==>
              (out == data <==> StaleAddNothing(old(disk.chunks), c, |Kept(data, c)|))
    ensures var c := kbytesPerChunk * 1024;
            StaleAddNothing(old(disk.chunks), c, |Kept(data, c)|) ==>
              LosesLastByte(|data|, c) && |data| - 1 <= MAX_CHUNKS * c ==> out == data[..|data| - 1]
  {
    ghost var c, was := kbytesPerChunk * 1024, disk.chunks;
    var outcome, count := DoChop(disk, data, kbytesPerChunk);
    UnchopOfChop(disk.chunks, was, data, c, count);
    hide StaleAddNothing, ChoppedInto;
    out := DoUnchop(disk);
  }

  /** Without any chunk file the file comes back exactly for those sizes. */
  method ChopThenUnchopClean(data: seq<Byte>, kbytesPerChunk: nat) returns (out: seq<Byte>)
    requires 1 <= kbytesPerChunk && |data| >= kbytesPerChunk * 1024
    ensures var n, c := |data|, kbytesPerChunk * 1024;
            var loses := n > 1 && (n - 1) % c == 0 && (n - 1) % 65536 != 0;
            && (out == data <==> !loses && n <= 999999 * c)
            && (loses && n - 1 <= 999999 * c ==> out == data[..n - 1])
  {
    var disk := new Disk();
    NoStaleFiles(kbytesPerChunk * 1024, |Kept(data, kbytesPerChunk * 1024)|);
    hide StaleAddNothing, Kept;
    out := ChopThenUnchop(disk, data, kbytesPerChunk);
  }

  /** The loss in the terms a user sees: of the sizes that are 1 above a multiple of the chunk size,
      those that are also 1 above a multiple of 64K are spared. */
  lemma OnlyOneAboveAKilobyte(n: nat, kbytesPerChunk: nat)
    requires kbytesPerChunk >= 1 && LosesLastByte(n, kbytesPerChunk * 1024)
    ensures n % 1024 == 1
  {
    var c := kbytesPerChunk * 1024;
    var q := (n - 1) / c;
    assert n - 1 == q * c;
    assert q * c == (q * kbytesPerChunk) * 1024;
  }

  /** With the default chunk size of 1400K the smallest file that loses a byte has 1400K + 1 bytes. */
  lemma DefaultSizeLoses()
    ensures LosesLastByte(1400 * 1024 + 1, 1400 * 1024)
    ensures !LosesLastByte(1400 * 1024, 1400 * 1024)
  {
  }
}
