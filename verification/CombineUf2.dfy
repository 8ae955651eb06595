/**
 Combining A's firmware and B's image into one UF2: what the emitted blocks put in A's flash,
 in whatever order the bootloader writes them.
 */
module CombineUf2 {
  import opened Common
  import opened Bytes
  import opened FlashTarget
  import opened FlashB

  const XIP_BASE := 0x1000_0000
  const FLASH_SIZE := 0x20_0000
  const SETTINGS_RESERVE := 0x4000
  const UF2_FLAG_FAMILY_ID := 0x2000
  const RP2040_FAMILY_ID := 0xE48B_FF56
  const UF2_PAYLOAD := 256
  const UF2_DATA := 476
  const B_SLOT := XIP_BASE + B_IMAGE_OFFSET
  const USABLE_TOP := XIP_BASE + FLASH_SIZE - SETTINGS_RESERVE

  /** The header fields and data area of one 512-byte block. */
  datatype Fields = Fields(flags: word, addr: word, size: word, blockNo: int, numBlocks: int, family: word, data: seq<byte>)

  type Block = b: Fields | |b.data| == UF2_DATA && b.size <= UF2_DATA
    witness Fields(0, 0, 0, 0, 0, 0, Zeros(UF2_DATA))

  /** What the bootloader writes at the block's address. */
  function Payload(b: Block): seq<byte> { b.data[..b.size] }

  function ByteOr(data: seq<byte>, i: int, fill: byte): byte { if 0 <= i < |data| then data[i] else fill }

  /** A block made here holds its 256 bytes of the staged payload, zero filled past the end. */
  predicate Carries(b: Block, staged: seq<byte>) {
    && b.size == UF2_PAYLOAD && B_SLOT <= b.addr < B_SLOT + |staged|
    && (b.addr - B_SLOT) % UF2_PAYLOAD == 0
    && forall k :: 0 <= k < UF2_PAYLOAD ==> b.data[k] == ByteOr(staged, b.addr - B_SLOT + k, 0)
  }

  /** A block that stays below B's slot. */
  predicate BelowSlot(b: Block) { b.addr + b.size <= B_SLOT }

  // ---------------------------------------------------------------------------
  // Programming a list of blocks
  // ---------------------------------------------------------------------------

  /** A's flash after the bootloader has written a list of blocks in order. */
  function Loaded(m: Memory, order: seq<Block>): Memory {
    if order == [] then m
    else
      var last := order[|order| - 1];
      Store(Loaded(m, order[..|order| - 1]), last.addr, Payload(last))
  }

  predicate Mixed(order: seq<Block>, staged: seq<byte>) {
    forall b :: b in order ==> BelowSlot(b) || Carries(b, staged)
  }

  function OnlyBelow(order: seq<Block>): seq<Block> {
    if order == [] then []
    else
      var last := order[|order| - 1];
      OnlyBelow(order[..|order| - 1]) + (if BelowSlot(last) then [last] else [])
  }

  lemma LoadedMore(m: Memory, order: seq<Block>, b: Block)
    ensures Loaded(m, order + [b]) == Store(Loaded(m, order), b.addr, Payload(b))
  {
    assert (order + [b])[..|order|] == order;
  }

  lemma StoreAlike(m: Memory, m': Memory, at: int, bytes: seq<byte>, a: int)
    requires SameAt(m, m', a)
    ensures SameAt(Store(m, at, bytes), Store(m', at, bytes), a)
    ensures a < at ==> SameAt(m, Store(m', at, bytes), a)
  {
  }

  /** Below the slot, the result is what A's own blocks alone would leave. */
  lemma {:induction false} BelowSlotUntouched(m: Memory, order: seq<Block>, staged: seq<byte>, a: int)
    requires Mixed(order, staged) && a < B_SLOT
    ensures SameAt(Loaded(m, OnlyBelow(order)), Loaded(m, order), a)
  {
    if order != [] {
      var init, last := order[..|order| - 1], order[|order| - 1];
      assert last in order && order == init + [last];
      var kept := OnlyBelow(init);
      assert OnlyBelow(order) == kept + (if BelowSlot(last) then [last] else []);
      BelowSlotUntouched(m, init, staged, a);
      LoadedMore(m, kept, last);
      LoadedMore(m, init, last);
      if !BelowSlot(last) {
        CarriesAbove(last, staged);
        assert kept + [] == kept;
      }
      hide *;
      StoreAlike(Loaded(m, kept), Loaded(m, init), last.addr, Payload(last), a);
    }
  }

  lemma CarriesAbove(b: Block, staged: seq<byte>)
    requires Carries(b, staged)
    ensures B_SLOT <= b.addr
  {
  }

  /** In and above the slot, a byte is untouched or is the staged payload's. */
  lemma {:induction false} InSlot(m: Memory, order: seq<Block>, staged: seq<byte>, a: int)
    requires Mixed(order, staged) && B_SLOT <= a
    ensures var r := Loaded(m, order);
            if Reached(order, staged, a) then a in r && r[a] == ByteOr(staged, a - B_SLOT, 0)
            else SameAt(m, r, a)
  {
    if order != [] {
      var init, last := order[..|order| - 1], order[|order| - 1];
      assert last in order && order == init + [last];
      InSlot(m, init, staged, a);
      LoadedMore(m, init, last);
      StoreInSlot(Loaded(m, init), last, staged, a);
      hide Covers, Loaded, Store, SameAt;
      if Reached(init, staged, a) {
        var b :| b in init && Covers(b, staged, a);
        assert b in order;
      }
      SameAtTrans(m, Loaded(m, init), Loaded(m, order), a);
    }
  }

  /** The block carries the staged byte for address a. */
  predicate Covers(b: Block, staged: seq<byte>, a: int) {
    Carries(b, staged) && b.addr <= a < b.addr + UF2_PAYLOAD
  }

  predicate Reached(blocks: seq<Block>, staged: seq<byte>, a: int) { exists b :: b in blocks && Covers(b, staged, a) }

  lemma StoreInSlot(m: Memory, b: Block, staged: seq<byte>, a: int)
    requires (BelowSlot(b) || Carries(b, staged)) && B_SLOT <= a
    ensures var r := Store(m, b.addr, Payload(b));
            if Covers(b, staged, a) then a in r && r[a] == ByteOr(staged, a - B_SLOT, 0) else SameAt(m, r, a)
  {
    if Covers(b, staged, a) {
      assert Payload(b)[a - b.addr] == b.data[a - b.addr];
    }
  }

  lemma SameAtTrans(x: Memory, y: Memory, z: Memory, a: int)
    ensures SameAt(x, y, a) && SameAt(y, z, a) ==> SameAt(x, z, a)
    ensures SameAt(y, z, a) && a in y ==> a in z && z[a] == y[a]
  {
  }

  // ---------------------------------------------------------------------------
  // Emitting the blocks
  // ---------------------------------------------------------------------------

  /** B's image padded with 0xFF to a whole number of sectors. */
  function PaddedImage(bin: seq<byte>): (r: seq<byte>)
    ensures bin <= r && |r| % SECTOR == 0 && |r| < |bin| + SECTOR
    ensures forall i :: |bin| <= i < |r| ==> r[i] == BLANK
  {
    if |bin| % SECTOR == 0 then bin else bin + seq<byte>(SECTOR - |bin| % SECTOR, _ => BLANK)
  }

  /** What is staged in A's flash: magic, length, image. */
  function StagedBytes(image: seq<byte>): seq<byte>
    requires |image| < 0x1_0000_0000
  {
    LanesOf(B_IMAGE_MAGIC) + LanesOf(|image|) + image
  }

  method MakeUf2Block(addr: word, payload: seq<byte>) returns (b: Block)
    requires |payload| <= UF2_PAYLOAD
    ensures b.addr == addr && Payload(b) == payload + Zeros(UF2_PAYLOAD - |payload|)
    ensures |b.data| == 476 && forall k :: 256 <= k < 476 ==> b.data[k] == 0
    ensures b.flags == 0x2000 && b.family == 0xE48B_FF56 && b.size == 256 && b.blockNo == 0 && b.numBlocks == 0
  {
    b := Fields(UF2_FLAG_FAMILY_ID, addr, UF2_PAYLOAD, 0, 0, RP2040_FAMILY_ID, payload + Zeros(UF2_DATA - |payload|));
  }

  /** Block j of those made: under the family flag, at its place behind the slot's start. */
  predicate Made(b: Block, j: int) {
    b.addr == 0x1004_0000 + 256 * j && b.size == 256 && b.flags == 0x2000 && b.family == 0xE48B_FF56
  }

  /** Every byte of the staged payload is carried by one of the blocks, and they carry nothing else. */
  predicate Covered(blocks: seq<Block>, staged: seq<byte>, n: int) {
    && (forall b :: b in blocks ==> Carries(b, staged))
    && forall a :: B_SLOT <= a < B_SLOT + n ==> Reached(blocks, staged, a)
  }

  method BlocksForBytes(staged: seq<byte>) returns (blocks: seq<Block>)
    requires B_SLOT + |staged| <= USABLE_TOP
    ensures Covered(blocks, staged, |staged|)
    ensures |blocks| == (|staged| + 255) / 256 && forall j :: 0 <= j < |blocks| ==> Made(blocks[j], j)
  {
    blocks := [];
    var off := 0;
    while off < |staged|
      invariant 0 <= off && off == UF2_PAYLOAD * |blocks| && off < |staged| + UF2_PAYLOAD
      invariant Covered(blocks, staged, Min(off, |staged|))
      invariant forall j :: 0 <= j < |blocks| ==> Made(blocks[j], j)
    {
      var chunk := staged[off..Min(off + UF2_PAYLOAD, |staged|)];
      var b := MakeUf2Block(B_SLOT + off, chunk);
      MadeCarries(b, staged, off);
      CoveredMore(blocks, b, staged, off);
      blocks := blocks + [b];
      off := off + UF2_PAYLOAD;
    }
  }

  /** A block made from the chunk at off carries the staged bytes there. */
  lemma MadeCarries(b: Block, staged: seq<byte>, off: int)
    requires 0 <= off < |staged| && off % UF2_PAYLOAD == 0 && b.addr == B_SLOT + off && b.size == UF2_PAYLOAD
    requires var chunk := staged[off..Min(off + UF2_PAYLOAD, |staged|)]; Payload(b) == chunk + Zeros(UF2_PAYLOAD - |chunk|)
    ensures Carries(b, staged)
  {
  }

  lemma CoveredMore(blocks: seq<Block>, b: Block, staged: seq<byte>, off: int)
    requires Covered(blocks, staged, off) && 0 <= off < |staged| && Carries(b, staged) && b.addr == B_SLOT + off
    ensures Covered(blocks + [b], staged, Min(off + UF2_PAYLOAD, |staged|))
  {
    hide Carries;
    forall a | B_SLOT <= a < B_SLOT + Min(off + UF2_PAYLOAD, |staged|) ensures Reached(blocks + [b], staged, a) {
      if a < B_SLOT + off {
        assert Reached(blocks, staged, a);
        var c :| c in blocks && Covers(c, staged, a);
        assert c in blocks + [b];
      } else {
        assert b in blocks + [b] && Covers(b, staged, a);
      }
    }
  }

  method MaxFlashAddr(blocks: seq<Block>) returns (hi: int)
    ensures hi <= B_SLOT <==> forall b :: b in blocks ==> BelowSlot(b)
    ensures forall b :: b in blocks ==> b.addr + b.size <= hi
  {
    hi := 0;
    for i := 0 to |blocks|
      invariant forall b :: b in blocks[..i] ==> b.addr + b.size <= hi
      invariant hi == 0 || exists b :: b in blocks[..i] && b.addr + b.size == hi
    {
      assert blocks[..i + 1] == blocks[..i] + [blocks[i]];
      hi := Max(hi, blocks[i].addr + blocks[i].size);
    }
    assert blocks[..|blocks|] == blocks;
  }

  datatype Combined = AReachesB | TooLong | BPastTop | Emitted(flash: seq<Block>, ram: seq<Block>)

  predicate SameContent(b: Block, c: Block) { b.addr == c.addr && Payload(b) == Payload(c) }

  /** The emitted flash blocks are A's, in order, then blocks that carry exactly B's staged image. */
  ghost predicate Stages(flash: seq<Block>, aBlocks: seq<Block>, image: seq<byte>) {
    && |image| < 0x1_0000_0000 && |aBlocks| <= |flash| && Mixed(flash, StagedBytes(image))
    && (forall i :: 0 <= i < |aBlocks| ==> SameContent(flash[i], aBlocks[i]))
    && forall a :: B_SLOT <= a < B_SLOT + |StagedBytes(image)| ==> Reached(flash, StagedBytes(image), a)
  }

  /** Block numbers count up, and every block claims `total` blocks. */
  predicate Numbered(flash: seq<Block>, total: int) {
    forall i :: 0 <= i < |flash| ==> flash[i].blockNo == i && flash[i].numBlocks == total
  }

  method Combine(aBlocks: seq<Block>, relay: seq<Block>, bin: seq<byte>, stageOnly: bool)
    returns (r: Combined, total: int)
    ensures r.AReachesB? <==> exists b :: b in aBlocks && b.addr + b.size > 0x1004_0000
    ensures r.TooLong? <==> !r.AReachesB? && |PaddedImage(bin)| >= 0x1_0000_0000
    ensures r.BPastTop? <==> !r.AReachesB? && !r.TooLong? && 0x1004_0008 + |PaddedImage(bin)| > 0x101F_C000
    ensures r.Emitted? ==> B_SLOT + 8 + |PaddedImage(bin)| <= USABLE_TOP && Stages(r.flash, aBlocks, PaddedImage(bin))
    ensures r.Emitted? ==> Numbered(r.flash, total) && r.ram == if stageOnly then [] else relay
    ensures r.Emitted? ==> total == if stageOnly then |r.flash| else Max(|r.flash|, |relay|) + 1
    ensures r.Emitted? ==> |r.flash| == |aBlocks| + (8 + |PaddedImage(bin)| + 255) / 256
    ensures r.Emitted? ==> forall i :: 0 <= i < |aBlocks| ==> r.flash[i] == aBlocks[i].(blockNo := i, numBlocks := total)
    ensures r.Emitted? ==> forall i :: |aBlocks| <= i < |r.flash| ==> Made(r.flash[i], i - |aBlocks|)
  {
    total := 0;
    var ram := if stageOnly then [] else relay;
    var image := PaddedImage(bin);
    var hi := MaxFlashAddr(aBlocks);
    if hi > B_SLOT { return AReachesB, total; }
    if |image| >= 0x1_0000_0000 { return TooLong, total; }
    var staged := StagedBytes(image);
    if B_SLOT + |staged| > USABLE_TOP { return BPastTop, total; }
    var bBlocks := BlocksForBytes(staged);
    var blocks := aBlocks + bBlocks;
    total := if stageOnly then |blocks| else Max(|blocks|, |ram|) + 1;
    var flash: seq<Block> := [];
    for i := 0 to |blocks|
      invariant |flash| == i && Numbered(flash, total)
      invariant forall k :: 0 <= k < i ==> flash[k] == blocks[k].(blockNo := k, numBlocks := total)
    {
      flash := flash + [blocks[i].(blockNo := i, numBlocks := total)];
    }
    RenumberedStages(flash, aBlocks, bBlocks, image, total);
    RenumberedMade(flash, aBlocks, bBlocks, total);
    r := Emitted(flash, ram);
  }

  lemma RenumberedMade(flash: seq<Block>, aBlocks: seq<Block>, bBlocks: seq<Block>, total: int)
    requires |flash| == |aBlocks + bBlocks| && forall j :: 0 <= j < |bBlocks| ==> Made(bBlocks[j], j)
    requires forall k :: 0 <= k < |flash| ==> flash[k] == (aBlocks + bBlocks)[k].(blockNo := k, numBlocks := total)
    ensures forall i :: 0 <= i < |aBlocks| ==> flash[i] == aBlocks[i].(blockNo := i, numBlocks := total)
    ensures forall i :: |aBlocks| <= i < |flash| ==> Made(flash[i], i - |aBlocks|)
  {
    forall i | |aBlocks| <= i < |flash| ensures Made(flash[i], i - |aBlocks|) {
      assert (aBlocks + bBlocks)[i] == bBlocks[i - |aBlocks|];
    }
  }

  /** Filling in numbers changes nothing the bootloader writes. */
  lemma RenumberedStages(flash: seq<Block>, aBlocks: seq<Block>, bBlocks: seq<Block>, image: seq<byte>, total: int)
    requires |image| < 0x1_0000_0000 && Covered(bBlocks, StagedBytes(image), |StagedBytes(image)|)
    requires forall b :: b in aBlocks ==> BelowSlot(b)
    requires |flash| == |aBlocks + bBlocks|
    requires forall k :: 0 <= k < |flash| ==> flash[k] == (aBlocks + bBlocks)[k].(blockNo := k, numBlocks := total)
    ensures Stages(flash, aBlocks, image)
  {
    var staged := StagedBytes(image);
    forall b | b in flash ensures BelowSlot(b) || Carries(b, staged) {
      var k :| 0 <= k < |flash| && flash[k] == b;
      var c := (aBlocks + bBlocks)[k];
      assert c in aBlocks || c in bBlocks;
    }
    forall a | B_SLOT <= a < B_SLOT + |staged| ensures Reached(flash, staged, a) {
      assert Reached(bBlocks, staged, a);
      var c :| c in bBlocks && Covers(c, staged, a);
      var k :| 0 <= k < |bBlocks| && bBlocks[k] == c;
      var b := flash[|aBlocks| + k];
      assert (aBlocks + bBlocks)[|aBlocks| + k] == c;
      assert b in flash && Covers(b, staged, a);
    }
  }

  // ---------------------------------------------------------------------------
  // What the flashing side then reads
  // ---------------------------------------------------------------------------

  /** The 16 MB read window onto a 2 MB flash. */
  predicate Maps(xip: seq<byte>, m: Memory) {
    IsXip(xip) && forall i :: 0 <= i < FLASH_SIZE && XIP_BASE + i in m ==> xip[i] == m[XIP_BASE + i]
  }

  /**
   Whatever order (and however often) the bootloader writes the emitted blocks: B's image is
   staged exactly where the flashing side looks, whole sectors long; A's own bytes are what
   A's blocks alone would leave; and the settings area at the top is untouched.
   */
  lemma AnyOrderStages(m: Memory, order: seq<Block>, flash: seq<Block>, aBlocks: seq<Block>, image: seq<byte>, xip: seq<byte>)
    requires Stages(flash, aBlocks, image) && B_SLOT + 8 + |image| <= USABLE_TOP
    requires forall b :: b in order <==> b in flash
    requires Maps(xip, Loaded(m, order))
    ensures GoodHeader(xip) <==> image != []
    ensures image != [] ==> Staged(xip) == image
    ensures forall a :: a < B_SLOT ==> SameAt(Loaded(m, OnlyBelow(order)), Loaded(m, order), a)
    ensures forall a :: USABLE_TOP <= a ==> SameAt(m, Loaded(m, order), a)
  {
    var staged := StagedBytes(image);
    forall a | a < B_SLOT ensures SameAt(Loaded(m, OnlyBelow(order)), Loaded(m, order), a) {
      BelowSlotUntouched(m, order, staged, a);
    }
    forall a | USABLE_TOP <= a ensures SameAt(m, Loaded(m, order), a) {
      InSlot(m, order, staged, a);
      NotReachedAbove(order, staged, a);
    }
    forall i | 0 <= i < |staged| ensures xip[B_IMAGE_OFFSET + i] == staged[i] {
      ReadBack(m, order, flash, staged, xip, i);
    }
    HeaderOf(xip, image);
  }

  lemma NotReachedAbove(order: seq<Block>, staged: seq<byte>, a: int)
    requires B_SLOT + |staged| <= USABLE_TOP <= a
    ensures !Reached(order, staged, a)
  {
    forall b | b in order ensures !Covers(b, staged, a) {
      if Carries(b, staged) {
        var i := (b.addr - B_SLOT) / UF2_PAYLOAD;
        assert b.addr == B_SLOT + UF2_PAYLOAD * i && UF2_PAYLOAD * i < USABLE_TOP - B_SLOT;
      }
    }
  }

  lemma ReadBack(m: Memory, order: seq<Block>, flash: seq<Block>, staged: seq<byte>, xip: seq<byte>, i: int)
    requires Mixed(order, staged) && B_SLOT + |staged| <= USABLE_TOP && 0 <= i < |staged|
    requires forall b :: b in order <==> b in flash
    requires Reached(flash, staged, B_SLOT + i) && Maps(xip, Loaded(m, order))
    ensures xip[B_IMAGE_OFFSET + i] == staged[i]
  {
    InSlot(m, order, staged, B_SLOT + i);
    assert Reached(order, staged, B_SLOT + i);
  }

  lemma HeaderOf(xip: seq<byte>, image: seq<byte>)
    requires IsXip(xip) && B_SLOT + 8 + |image| <= USABLE_TOP
    requires var staged := StagedBytes(image); forall i :: 0 <= i < |staged| ==> xip[B_IMAGE_OFFSET + i] == staged[i]
    ensures GoodHeader(xip) <==> image != []
    ensures image != [] ==> Staged(xip) == image
  {
    var staged, base := StagedBytes(image), B_IMAGE_OFFSET;
    assert |staged| == 8 + |image|;
    hide StagedBytes;
    assert xip[base..base + |staged|] == staged by {
      assert forall i :: 0 <= i < |staged| ==> xip[base..base + |staged|][i] == staged[i];
    }
    SubSlice(xip, base, base + |staged|, 0, 4);
    SubSlice(xip, base, base + |staged|, 4, 8);
    SubSlice(xip, base, base + |staged|, 8, |staged|);
    StagedParts(image);
    PackedReadsBack(B_IMAGE_MAGIC, xip, base);
    PackedReadsBack(|image|, xip, base + 4);
  }

  lemma StagedParts(image: seq<byte>)
    requires |image| < 0x1_0000_0000
    ensures var s := StagedBytes(image);
            |s| == 8 + |image| && s[0..4] == LanesOf(B_IMAGE_MAGIC) && s[4..8] == LanesOf(|image|) && s[8..|s|] == image
  {
    hide LanesOf;
    assert |LanesOf(B_IMAGE_MAGIC)| == 4 && |LanesOf(|image|)| == 4;
  }
}
