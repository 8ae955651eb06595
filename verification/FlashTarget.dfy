/**
 The routine that runs on the target: compare a chunk with NOR flash in 4 KB blocks, then
 rewrite one or two blocks, or the whole 32 KB or 64 KB.
 */
module FlashTarget {
  import opened Common
  import opened Bytes

  const SECTOR := 4096
  const CHUNK := 65536
  const BLANK: byte := 0xFF

  /** NOR flash: erasing sets every bit of a range ... */
  function Erased(flash: seq<byte>, at: int, n: int): (r: seq<byte>)
    ensures |r| == |flash|
  {
    seq(|flash|, i requires 0 <= i < |flash| => if at <= i < at + n then BLANK else flash[i])
  }

  /** ... and programming can only clear bits. */
  function Programmed(flash: seq<byte>, at: int, data: seq<byte>): (r: seq<byte>)
    ensures |r| == |flash|
  {
    seq(|flash|, i requires 0 <= i < |flash| => if at <= i < at + |data| then And(flash[i], data[i - at]) else flash[i])
  }

  function Power2(n: int): (r: int)
    requires 0 <= n
    ensures 1 <= r
  {
    if n == 0 then 1 else 2 * Power2(n - 1)
  }

  /** The bitwise and of two n-bit numbers. */
  function AndBits(x: int, y: int, n: int): (r: int)
    requires 0 <= n
    ensures 0 <= r < Power2(n)
    decreases n
  {
    if n == 0 then 0 else (if x % 2 == 1 && y % 2 == 1 then 1 else 0) + 2 * AndBits(x / 2, y / 2, n - 1)
  }

  /** The bitwise and of two bytes. */
  function And(x: byte, y: byte): byte {
    assert Power2(8) == 0x100 by { EightBits(); }
    AndBits(x, y, 8)
  }

  lemma EightBits()
    ensures Power2(8) == 0x100
  {
    assert Power2(4) == 16;
  }

  lemma {:induction false} AndOnes(y: int, n: int)
    requires 0 <= n && 0 <= y < Power2(n)
    ensures AndBits(Power2(n) - 1, y, n) == y
  {
    if n > 0 {
      AndOnes(y / 2, n - 1);
      assert (Power2(n) - 1) / 2 == Power2(n - 1) - 1 && (Power2(n) - 1) % 2 == 1;
    }
  }

  /** Programming an erased cell leaves exactly the data. */
  lemma AndBlank()
    ensures forall y: byte :: And(BLANK, y) == y
  {
    hide And;
    forall y: byte ensures And(BLANK, y) == y {
      AndBlankWith(y);
    }
  }

  lemma AndBlankWith(y: byte)
    ensures And(BLANK, y) == y
  {
    EightBits();
    hide AndBits, Power2;
    AndOnes(y, 8);
  }

  predicate FitsChunk(flash: seq<byte>, offset: int, data: seq<byte>) {
    && 0 < |data| <= CHUNK && |data| % SECTOR == 0
    && 0 <= offset && offset % SECTOR == 0 && offset + |data| <= |flash|
  }

  /** Block i of the chunk differs from flash. */
  predicate BlockChanged(flash: seq<byte>, offset: int, data: seq<byte>, i: int)
    requires FitsChunk(flash, offset, data) && 0 <= i < |data| / SECTOR
  {
    data[SECTOR * i..SECTOR * (i + 1)] != flash[offset + SECTOR * i..offset + SECTOR * (i + 1)]
  }

  /** The changed blocks among the first n, in order. */
  function ChangedBlocks(flash: seq<byte>, offset: int, data: seq<byte>, n: int): (bs: seq<int>)
    requires FitsChunk(flash, offset, data) && 0 <= n <= |data| / SECTOR
    ensures forall b :: b in bs <==> 0 <= b < n && BlockChanged(flash, offset, data, b)
  {
    if n == 0 then []
    else ChangedBlocks(flash, offset, data, n - 1) + (if BlockChanged(flash, offset, data, n - 1) then [n - 1] else [])
  }

  function Changes(flash: seq<byte>, offset: int, data: seq<byte>): int
    requires FitsChunk(flash, offset, data)
  {
    |ChangedBlocks(flash, offset, data, |data| / SECTOR)|
  }

  /**
   A changed block is erased, then programmed with min(4096, length - offset) bytes in
   unsigned arithmetic: nothing at all when the chunk's length equals its flash offset.
   */
  predicate LeavesBlank(offset: int, data: seq<byte>) { offset == |data| }

  /** The byte the routine leaves at address a. */
  function ByteAfter(flash: seq<byte>, offset: int, data: seq<byte>, a: int): byte
    requires FitsChunk(flash, offset, data) && 0 <= a < |flash|
  {
    var k := Changes(flash, offset, data);
    if offset <= a < offset + |data| then
      if 1 <= k <= 2 && LeavesBlank(offset, data) && BlockChanged(flash, offset, data, (a - offset) / SECTOR)
      then BLANK else data[a - offset]
    else if k > 2 && offset <= a < offset + (if |data| <= CHUNK / 2 then CHUNK / 2 else CHUNK)
    then BLANK else flash[a]
  }

  /** Flash after the routine has been given a chunk. */
  function ChunkAfter(flash: seq<byte>, offset: int, data: seq<byte>): (r: seq<byte>)
    requires FitsChunk(flash, offset, data)
    ensures |r| == |flash|
  {
    seq(|flash|, a requires 0 <= a < |flash| => ByteAfter(flash, offset, data, a))
  }

  /** Only the chunk's own 64 KB are ever touched. */
  lemma OutsideChunk(flash: seq<byte>, offset: int, data: seq<byte>, a: int)
    requires FitsChunk(flash, offset, data) && 0 <= a < |flash| && !(offset <= a < offset + CHUNK)
    ensures ChunkAfter(flash, offset, data)[a] == flash[a]
  {
  }

  lemma {:induction false} BlocksAscend(flash: seq<byte>, offset: int, data: seq<byte>, n: int)
    requires FitsChunk(flash, offset, data) && 0 <= n <= |data| / SECTOR
    ensures forall i, j :: 0 <= i < j < |ChangedBlocks(flash, offset, data, n)| ==>
              ChangedBlocks(flash, offset, data, n)[i] < ChangedBlocks(flash, offset, data, n)[j]
  {
    hide BlockChanged;
    if n > 0 {
      BlocksAscend(flash, offset, data, n - 1);
      var bs := ChangedBlocks(flash, offset, data, n - 1);
      forall i | 0 <= i < |bs| ensures bs[i] < n - 1 { assert bs[i] in bs; }
    }
  }

  /** Three 4 KB blocks of the chunk differ from flash. */
  predicate ThreeDiffer(flash: seq<byte>, offset: int, data: seq<byte>)
    requires FitsChunk(flash, offset, data)
  {
    exists i, j, k :: 0 <= i < j < k < |data| / 4096 &&
      BlockChanged(flash, offset, data, i) && BlockChanged(flash, offset, data, j) && BlockChanged(flash, offset, data, k)
  }

  lemma ManyChangesIffThree(flash: seq<byte>, offset: int, data: seq<byte>)
    requires FitsChunk(flash, offset, data)
    ensures Changes(flash, offset, data) > 2 <==> ThreeDiffer(flash, offset, data)
  {
    var bs := ChangedBlocks(flash, offset, data, |data| / SECTOR);
    BlocksAscend(flash, offset, data, |data| / SECTOR);
    hide BlockChanged, FitsChunk, ChangedBlocks;
    if |bs| > 2 {
      assert bs[0] in bs && bs[1] in bs && bs[2] in bs;
    }
    if ThreeDiffer(flash, offset, data) {
      var i, j, k :| 0 <= i < j < k < |data| / 4096 &&
        BlockChanged(flash, offset, data, i) && BlockChanged(flash, offset, data, j) && BlockChanged(flash, offset, data, k);
      assert i in bs && j in bs && k in bs;
    }
  }

  /**
   Behind the chunk's data, inside its 64 KB: erased, if three blocks differ, to the end of the
   first 32 KB or, for more data than that, of all 64; otherwise nothing there changes.
   */
  lemma BehindTheData(flash: seq<byte>, offset: int, data: seq<byte>, a: int)
    requires FitsChunk(flash, offset, data) && offset + |data| <= a < |flash| && a < offset + 0x1_0000
    ensures ChunkAfter(flash, offset, data)[a]
         == if ThreeDiffer(flash, offset, data) && (|data| > 0x8000 || a < offset + 0x8000) then 0xFF else flash[a]
  {
    ManyChangesIffThree(flash, offset, data);
    hide Changes, BlockChanged, ThreeDiffer;
  }

  lemma SubSlice(s: seq<byte>, a: int, b: int, lo: int, hi: int)
    requires 0 <= a <= b <= |s| && 0 <= lo <= hi <= b - a
    ensures s[a..b][lo..hi] == s[a + lo..a + hi]
  {
    var x, y := s[a..b][lo..hi], s[a + lo..a + hi];
    assert |x| == |y| && forall i :: 0 <= i < |x| ==> x[i] == y[i];
  }

  /** The outcome inside a chunk depends on nothing outside it. */
  lemma {:induction false} ChangedBlocksLocal(f: seq<byte>, g: seq<byte>, offset: int, data: seq<byte>, n: int)
    requires FitsChunk(f, offset, data) && FitsChunk(g, offset, data) && 0 <= n <= |data| / SECTOR
    requires f[offset..offset + |data|] == g[offset..offset + |data|]
    ensures ChangedBlocks(f, offset, data, n) == ChangedBlocks(g, offset, data, n)
  {
    hide BlockChanged;
    if n > 0 {
      ChangedBlocksLocal(f, g, offset, data, n - 1);
      BlockChangedLocal(f, g, offset, data, n - 1);
    }
  }

  lemma BlockChangedLocal(f: seq<byte>, g: seq<byte>, offset: int, data: seq<byte>, b: int)
    requires FitsChunk(f, offset, data) && FitsChunk(g, offset, data) && 0 <= b < |data| / SECTOR
    requires f[offset..offset + |data|] == g[offset..offset + |data|]
    ensures BlockChanged(f, offset, data, b) == BlockChanged(g, offset, data, b)
  {
    var lo, hi := SECTOR * b, SECTOR * (b + 1);
    SubSlice(f, offset, offset + |data|, lo, hi);
    SubSlice(g, offset, offset + |data|, lo, hi);
  }

  lemma ByteAfterLocal(f: seq<byte>, g: seq<byte>, offset: int, data: seq<byte>, a: int)
    requires FitsChunk(f, offset, data) && FitsChunk(g, offset, data)
    requires f[offset..offset + |data|] == g[offset..offset + |data|]
    requires offset <= a < offset + |data|
    ensures ByteAfter(f, offset, data, a) == ByteAfter(g, offset, data, a)
  {
    ChangedBlocksLocal(f, g, offset, data, |data| / SECTOR);
    BlockChangedLocal(f, g, offset, data, (a - offset) / SECTOR);
  }

  /** The case the routine gets wrong: one or two changed blocks, one of them not blank, at offset == length. */
  predicate LosesABlock(flash: seq<byte>, offset: int, data: seq<byte>)
    requires FitsChunk(flash, offset, data)
  {
    && LeavesBlank(offset, data) && 1 <= Changes(flash, offset, data) <= 2
    && exists a :: 0 <= a < |data| && BlockChanged(flash, offset, data, a / SECTOR) && data[a] != BLANK
  }

  /** If only block c differs, it is the only one in the list. */
  lemma {:induction false} OnlyOneChanged(flash: seq<byte>, offset: int, data: seq<byte>, c: int, n: int)
    requires FitsChunk(flash, offset, data) && 0 <= n <= |data| / SECTOR && 0 <= c < |data| / SECTOR
    requires forall b :: 0 <= b < |data| / SECTOR ==> (BlockChanged(flash, offset, data, b) <==> b == c)
    ensures ChangedBlocks(flash, offset, data, n) == if c < n then [c] else []
  {
    hide BlockChanged;
    if n > 0 {
      OnlyOneChanged(flash, offset, data, c, n - 1);
    }
  }

  lemma AfterAt(flash: seq<byte>, offset: int, data: seq<byte>, a: int)
    requires FitsChunk(flash, offset, data) && 0 <= a < |data|
    ensures ChunkAfter(flash, offset, data)[offset..offset + |data|][a] == ByteAfter(flash, offset, data, offset + a)
  {
    hide ByteAfter;
  }

  /** A byte of the chunk is its data, or blank in a changed block of the case that goes wrong. */
  lemma ByteInChunk(flash: seq<byte>, offset: int, data: seq<byte>, a: int)
    requires FitsChunk(flash, offset, data) && 0 <= a < |data|
    ensures ByteAfter(flash, offset, data, offset + a)
         == if 1 <= Changes(flash, offset, data) <= 2 && LeavesBlank(offset, data) && BlockChanged(flash, offset, data, a / SECTOR)
            then BLANK else data[a]
  {
    hide Changes, BlockChanged;
  }

  /** The chunk is in flash afterwards exactly when no block is lost. */
  lemma ChunkWrittenExactly(flash: seq<byte>, offset: int, data: seq<byte>)
    requires FitsChunk(flash, offset, data)
    ensures ChunkAfter(flash, offset, data)[offset..offset + |data|] == data <==> !LosesABlock(flash, offset, data)
  {
    assert 0 <= offset && offset + |data| <= |flash|;
    hide Changes, BlockChanged, ChunkAfter, ByteAfter, FitsChunk, LeavesBlank;
    var after := ChunkAfter(flash, offset, data)[offset..offset + |data|];
    if LosesABlock(flash, offset, data) {
      var a :| 0 <= a < |data| && BlockChanged(flash, offset, data, a / SECTOR) && data[a] != BLANK;
      AfterAt(flash, offset, data, a);
      ByteInChunk(flash, offset, data, a);
      assert after[a] != data[a];
    } else {
      forall a | 0 <= a < |data| ensures after[a] == data[a] {
        AfterAt(flash, offset, data, a);
        ByteInChunk(flash, offset, data, a);
      }
      assert after == data;
    }
  }

  /** What rewriting block b leaves at address a. */
  function RewrittenByte(flash: seq<byte>, offset: int, data: seq<byte>, b: int, a: int): byte
    requires FitsChunk(flash, offset, data) && 0 <= b < |data| / SECTOR && 0 <= a < |flash|
  {
    if offset + SECTOR * b <= a < offset + SECTOR * (b + 1)
    then (if LeavesBlank(offset, data) then BLANK else data[a - offset]) else flash[a]
  }

  /** Flash after block b of the chunk has been rewritten. */
  function Rewritten(flash: seq<byte>, offset: int, data: seq<byte>, b: int): (r: seq<byte>)
    requires FitsChunk(flash, offset, data) && 0 <= b < |data| / SECTOR
    ensures |r| == |flash|
  {
    seq<byte>(|flash|, a requires 0 <= a < |flash| => RewrittenByte(flash, offset, data, b, a))
  }

  lemma PatchOneMore(flash: seq<byte>, mid: seq<byte>, offset: int, data: seq<byte>, blocks: seq<int>, b: int, a: int)
    requires FitsChunk(flash, offset, data) && 0 <= b < |data| / SECTOR && 0 <= a < |flash| == |mid|
    requires mid[a] == PatchByte(flash, offset, data, blocks, a)
    ensures RewrittenByte(mid, offset, data, b, a) == PatchByte(flash, offset, data, blocks + [b], a)
  {
    var c := (a - offset) / SECTOR;
    assert offset + SECTOR * c <= a < offset + SECTOR * (c + 1);
  }

  /** What rewriting the blocks of a list, one by one, leaves at address a. */
  function PatchByte(flash: seq<byte>, offset: int, data: seq<byte>, blocks: seq<int>, a: int): byte
    requires FitsChunk(flash, offset, data) && 0 <= a < |flash|
  {
    if offset <= a < offset + |data| && (a - offset) / SECTOR in blocks
    then (if LeavesBlank(offset, data) then BLANK else data[a - offset]) else flash[a]
  }

  /** A block not in the list of changed ones already holds the chunk's bytes. */
  lemma UnchangedByte(flash: seq<byte>, offset: int, data: seq<byte>, b: int, k: int)
    requires FitsChunk(flash, offset, data) && 0 <= b < |data| / SECTOR && 0 <= k < SECTOR
    requires !BlockChanged(flash, offset, data, b)
    ensures data[SECTOR * b + k] == flash[offset + SECTOR * b + k]
  {
    assert data[SECTOR * b..SECTOR * (b + 1)][k] == data[SECTOR * b + k];
    assert flash[offset + SECTOR * b..offset + SECTOR * (b + 1)][k] == flash[offset + SECTOR * b + k];
  }

  /** Patching every changed block, when there are at most two, is what ChunkAfter says. */
  lemma PatchedIsAfter(flash: seq<byte>, offset: int, data: seq<byte>, a: int)
    requires FitsChunk(flash, offset, data) && 0 <= a < |flash|
    requires Changes(flash, offset, data) <= 2
    ensures PatchByte(flash, offset, data, ChangedBlocks(flash, offset, data, |data| / SECTOR), a)
            == ByteAfter(flash, offset, data, a)
  {
    if offset <= a < offset + |data| {
      var b, k := (a - offset) / SECTOR, (a - offset) % SECTOR;
      if !BlockChanged(flash, offset, data, b) {
        UnchangedByte(flash, offset, data, b, k);
      }
    }
  }

  /** More blocks examined can only mean more found. */
  lemma ChangedBlocksGrow(flash: seq<byte>, offset: int, data: seq<byte>, n: int)
    requires FitsChunk(flash, offset, data) && 0 <= n <= |data| / SECTOR
    ensures |ChangedBlocks(flash, offset, data, n)| <= Changes(flash, offset, data)
    decreases |data| / SECTOR - n
  {
    if n < |data| / SECTOR {
      ChangedBlocksGrow(flash, offset, data, n + 1);
    }
  }

  lemma RewriteAt(flash: seq<byte>, offset: int, data: seq<byte>, b: int, size: int, a: int)
    requires FitsChunk(flash, offset, data) && 0 <= b < |data| / SECTOR && 0 <= a < |flash|
    requires size == if LeavesBlank(offset, data) then 0 else SECTOR
    ensures var at := offset + SECTOR * b;
            Programmed(Erased(flash, at, SECTOR), at, data[SECTOR * b..SECTOR * b + size])[a]
            == RewrittenByte(flash, offset, data, b, a)
  {
    AndBlank();
    hide And;
  }

  /** How much of a changed block is programmed: the lesser of a block and what is left, in 32-bit unsigned arithmetic. */
  function SizeLeft(length: int, offset: int): int { Min(SECTOR, (length - offset) % 0x1_0000_0000) }

  function BlockAt(offset: int, b: int): int { offset + SECTOR * b }

  /** The bytes programmed into block b. */
  function Piece(data: seq<byte>, offset: int, b: int): seq<byte>
    requires 0 <= b < |data| / SECTOR
  {
    var size := SizeLeft(|data|, offset);
    if 0 <= size <= SECTOR then data[SECTOR * b..SECTOR * b + size] else []
  }

  lemma RewriteDone(flash: seq<byte>, offset: int, data: seq<byte>, b: int)
    requires FitsChunk(flash, offset, data) && 0 <= b < |data| / SECTOR && |flash| < 0x1_0000_0000
    ensures var at := BlockAt(offset, b);
            Programmed(Erased(flash, at, SECTOR), at, Piece(data, offset, b)) == Rewritten(flash, offset, data, b)
  {
    ProgramSize(|data|, offset);
    hide Programmed, Erased, RewrittenByte, SizeLeft, FitsChunk;
    var size := SizeLeft(|data|, offset);
    forall a | 0 <= a < |flash|
      ensures var at := offset + SECTOR * b;
              Programmed(Erased(flash, at, SECTOR), at, data[SECTOR * b..SECTOR * b + size])[a] == RewrittenByte(flash, offset, data, b, a)
    {
      RewriteAt(flash, offset, data, b, size, a);
    }
  }

  class Nor {
    var cells: seq<byte>

    constructor (cells: seq<byte>)
      ensures this.cells == cells
    {
      this.cells := cells;
    }

    method RangeErase(at: int, n: int)
      modifies this
      ensures cells == Erased(old(cells), at, n)
    {
      cells := Erased(cells, at, n);
    }

    method RangeProgram(at: int, data: seq<byte>)
      modifies this
      ensures cells == Programmed(old(cells), at, data)
    {
      cells := Programmed(cells, at, data);
    }

    /** Compare one block byte by byte, stopping at the first difference. */
    method Differs(offset: int, data: seq<byte>, b: int) returns (r: bool)
      requires FitsChunk(cells, offset, data) && 0 <= b < |data| / SECTOR
      ensures r == BlockChanged(cells, offset, data, b)
    {
      var at := SECTOR * b;
      ghost var x, y := data[at..SECTOR * (b + 1)], cells[offset + at..offset + SECTOR * (b + 1)];
      for i := 0 to SECTOR
        invariant forall k :: 0 <= k < i ==> x[k] == y[k]
      {
        if data[at + i] != cells[offset + at + i] {
          assert x[i] != y[i];
          return true;
        }
        assert x[i] == y[i];
      }
      assert |x| == |y| == SECTOR;
      return false;
    }

    /** Erase and program one changed block, with the routine's own size expression. */
    method RewriteBlock(offset: int, data: seq<byte>, b: int)
      requires FitsChunk(cells, offset, data) && 0 <= b < |data| / SECTOR && |cells| < 0x1_0000_0000
      modifies this
      ensures cells == Rewritten(old(cells), offset, data, b)
    {
      RewriteDone(cells, offset, data, b);
      hide Programmed, Erased, Rewritten, FitsChunk, Piece, BlockAt;
      var at := BlockAt(offset, b);
      RangeErase(at, SECTOR);
      RangeProgram(at, Piece(data, offset, b));
    }

    /** Walk the chunk block by block; stop as soon as a third changed block turns up. */
    method FindChanged(offset: int, data: seq<byte>) returns (changed: array<int>, count: int)
      requires FitsChunk(cells, offset, data)
      ensures fresh(changed) && changed.Length == 3 && 0 <= count <= 3
      ensures count <= 2 ==> changed[..count] == ChangedBlocks(cells, offset, data, |data| / SECTOR)
      ensures Changes(cells, offset, data) == count || (count == 3 && Changes(cells, offset, data) > 2)
    {
      hide BlockChanged;
      changed := new int[3];
      count := 0;
      var b, left := 0, |data|;
      while left > 0
        invariant 0 <= b && left == |data| - SECTOR * b && 0 <= left
        invariant 0 <= count <= 2 && changed[..count] == ChangedBlocks(cells, offset, data, b)
      {
        var differs := Differs(offset, data, b);
        if differs {
          changed[count] := b;
          count := count + 1;
        }
        b := b + 1;
        if count > 2 {
          ChangedBlocksGrow(cells, offset, data, b);
          break;
        }
        left := left - SECTOR;
      }
    }

    method RewriteChanged(offset: int, data: seq<byte>, changed: array<int>, count: int)
      requires FitsChunk(cells, offset, data) && |cells| < 0x1_0000_0000
      requires 0 <= count <= changed.Length
      requires forall i :: 0 <= i < count ==> 0 <= changed[i] < |data| / SECTOR
      modifies this
      ensures |cells| == |old(cells)|
      ensures forall a :: 0 <= a < |cells| ==> cells[a] == PatchByte(old(cells), offset, data, changed[..count], a)
    {
      ghost var before := cells;
      for i := 0 to count
        invariant |cells| == |before|
        invariant forall a :: 0 <= a < |cells| ==> cells[a] == PatchByte(before, offset, data, changed[..i], a)
      {
        ghost var mid := cells;
        RewriteBlock(offset, data, changed[i]);
        assert changed[..i + 1] == changed[..i] + [changed[i]];
        forall a | 0 <= a < |cells| ensures cells[a] == PatchByte(before, offset, data, changed[..i + 1], a) {
          PatchOneMore(before, mid, offset, data, changed[..i], changed[i], a);
        }
      }
    }

    /** Rewrite the whole 32 KB or 64 KB. */
    method RewriteAll(offset: int, data: seq<byte>)
      requires FitsChunk(cells, offset, data) && Changes(cells, offset, data) > 2
      modifies this
      ensures cells == ChunkAfter(old(cells), offset, data)
    {
      ghost var before := cells;
      AndBlank();
      hide And;
      if |data| <= CHUNK / 2 {
        RangeErase(offset, CHUNK / 2);
      } else {
        RangeErase(offset, CHUNK);
      }
      RangeProgram(offset, data);
      forall a | 0 <= a < |cells| ensures cells[a] == ByteAfter(before, offset, data, a) {
      }
    }

    /** The routine itself: its effect on flash is ChunkAfter. */
    method FlashBlock(offset: int, data: seq<byte>)
      requires FitsChunk(cells, offset, data) && |cells| < 0x1_0000_0000
      modifies this
      ensures cells == ChunkAfter(old(cells), offset, data)
    {
      ghost var before := cells;
      var changed, count := FindChanged(offset, data);
      if count <= 2 {
        if count > 0 {
          forall i | 0 <= i < count ensures 0 <= changed[i] < |data| / SECTOR {
            assert changed[..count][i] in ChangedBlocks(before, offset, data, |data| / SECTOR);
          }
          RewriteChanged(offset, data, changed, count);
        }
        forall a | 0 <= a < |cells| ensures cells[a] == ByteAfter(before, offset, data, a) {
          PatchedIsAfter(before, offset, data, a);
        }
        return;
      }
      RewriteAll(offset, data);
    }
  }

  /** The size expression is a whole block or, at offset == length, nothing. */
  lemma ProgramSize(length: int, offset: int)
    requires 0 < length <= CHUNK && length % SECTOR == 0
    requires 0 <= offset < 0x1_0000_0000 && offset % SECTOR == 0
    ensures SizeLeft(length, offset) == if offset == length then 0 else SECTOR
  {
    var blocks := length / SECTOR - offset / SECTOR;
    assert length - offset == SECTOR * blocks;
    if blocks >= 0 {
      assert (length - offset) % 0x1_0000_0000 == length - offset;
    } else {
      assert (length - offset) % 0x1_0000_0000 == length - offset + 0x1_0000_0000;
    }
  }
}
