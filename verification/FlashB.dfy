/**
 Flashing B from the image staged in A's own flash: the header check and the retry loop
 shared by the app command and the boot relay.
 */
module FlashB {
  import opened Common
  import opened Bytes
  import opened FlashTarget
  import opened FlashStream

  const B_IMAGE_OFFSET := 0x4_0000
  const B_IMAGE_MAGIC := 0x4249_4D47
  const MAX_IMAGE := 0x20_0000
  const XIP_WINDOW := 0x100_0000
  const FLUSH := 0xFFFF_FFFF

  /** A's flash as it is mapped for reading. */
  predicate IsXip(xip: seq<byte>) { |xip| == XIP_WINDOW }

  function HeaderLength(xip: seq<byte>): int
    requires IsXip(xip)
  {
    WordAt(xip, B_IMAGE_OFFSET + 4)
  }

  predicate GoodHeader(xip: seq<byte>)
    requires IsXip(xip)
  {
    WordAt(xip, B_IMAGE_OFFSET) == B_IMAGE_MAGIC && 0 < HeaderLength(xip) <= MAX_IMAGE
  }

  /** What the code refuses, by the bytes: another magic than "GMIB", or a length of zero or over 2 MB. */
  predicate Refused(xip: seq<byte>)
    requires IsXip(xip)
  {
    || xip[0x4_0000..0x4_0004] != [0x47, 0x4D, 0x49, 0x42]
    || LengthBytes(xip[0x4_0004..0x4_0008]) == 0 || LengthBytes(xip[0x4_0004..0x4_0008]) > 0x20_0000
  }

  function LengthBytes(b: seq<byte>): int
    requires |b| == 4
  {
    b[0] as int + 0x100 * b[1] as int + 0x1_0000 * b[2] as int + 0x100_0000 * b[3] as int
  }

  lemma RefusedIffBad(xip: seq<byte>)
    requires IsXip(xip)
    ensures Refused(xip) <==> !GoodHeader(xip)
  {
    var m := xip[0x4_0000..0x4_0004];
    assert m == [xip[0x4_0000], xip[0x4_0001], xip[0x4_0002], xip[0x4_0003]];
    MagicBytes(xip[0x4_0000], xip[0x4_0001], xip[0x4_0002], xip[0x4_0003]);
  }

  lemma MagicBytes(b0: byte, b1: byte, b2: byte, b3: byte)
    ensures Word(b0, b1, b2, b3) == B_IMAGE_MAGIC <==> b0 == 0x47 && b1 == 0x4D && b2 == 0x49 && b3 == 0x42
  {
  }

  /** The staged image. */
  function Staged(xip: seq<byte>): seq<byte>
    requires IsXip(xip) && GoodHeader(xip)
  {
    xip[B_IMAGE_OFFSET + 8..B_IMAGE_OFFSET + 8 + HeaderLength(xip)]
  }

  /** k chunks are in flash and at most one short chunk is gathered: finishing them reaches `goal`. */
  predicate Underway(s: Stream, image: seq<byte>, k: int, off: int, goal: seq<byte>) {
    && 0 <= k && Padded(s.flash, image) && StreamOk(s)
    && ImageAfter(s.flash, image, k) == goal
    && (s.pending == [] ==> off == Min(CHUNK * k, |image|))
    && (s.pending != [] ==>
          CHUNK * k < |image| && s.pending == ChunkOf(image, k) && s.start == CHUNK * k && off == |image|)
  }

  lemma NextChunk(s: Stream, image: seq<byte>, k: int, off: int, goal: seq<byte>)
    requires Underway(s, image, k, off, goal) && off < |image|
    ensures off == CHUNK * k && s.pending == [] && Continues(BeforeGather(s, off), off, ChunkOf(image, k))
    ensures var t, data := AddBit(s, off, ChunkOf(image, k)), ChunkOf(image, k);
            Underway(t, image, if |data| == CHUNK then k + 1 else k, off + |data|, goal)
  {
    hide ChunkAfter;
    var data := ChunkOf(image, k);
    ChunkFits(s.flash, image, k);
    GatherOnce(s, off, data);
    assert data[..|data|] == data && data[|data|..] == [];
    assert [] + data == data;
  }

  lemma LastChunk(s: Stream, image: seq<byte>, k: int, off: int, goal: seq<byte>)
    requires Underway(s, image, k, off, goal) && off >= |image| && |image| <= MAX_IMAGE
    ensures Continues(BeforeGather(s, FLUSH), FLUSH, [])
    ensures AddBit(s, FLUSH, []).flash == goal && AddBit(s, FLUSH, []).pending == []
  {
    hide ChunkAfter, FitsChunk;
    GatheredNothing(BeforeGather(s, FLUSH), FLUSH);
    if s.pending != [] {
      assert CHUNK * (k + 1) >= |image|;
      assert ImageAfter(s.flash, image, k) == ChunkAfter(s.flash, s.start, s.pending);
    }
  }

  lemma SameOutsideWiden(x: seq<byte>, y: seq<byte>, lo: int, hi: int, lo': int, hi': int)
    requires SameOutside(x, y, lo, hi) && lo' <= lo && hi <= hi'
    ensures SameOutside(x, y, lo', hi')
  {
  }

  /** Copy n / 4 words out of the mapped flash. */
  method CopyWords(stage: array<byte>, xip: seq<byte>, base: int, n: int)
    requires 0 <= base && 0 <= n <= stage.Length && base + n <= |xip| && n % 4 == 0
    modifies stage
    ensures stage[..n] == xip[base..base + n]
  {
    for i := 0 to n / 4
      invariant forall k :: 0 <= k < 4 * i ==> stage[k] == xip[base + k]
    {
      stage[4 * i], stage[4 * i + 1] := xip[base + 4 * i], xip[base + 4 * i + 1];
      stage[4 * i + 2], stage[4 * i + 3] := xip[base + 4 * i + 2], xip[base + 4 * i + 3];
    }
  }

  function Top(image: seq<byte>): int { CHUNK * ChunkCount(image) }

  /** An attempt that started from `before` is under way, and has touched nothing above the image's chunks. */
  ghost predicate Ongoing(f: Flasher, image: seq<byte>, k: int, off: int, before: seq<byte>)
    reads f, f.driver, f.driver.target, f.nor
  {
    && f.Valid() && Padded(before, image) && Underway(f.Abs(), image, k, off, ImageAfter(before, image, 0))
    && SameOutside(before, f.nor.cells, 0, Top(image))
  }

  /** Copy chunk k out of the mapped flash. */
  method StageChunk(xip: seq<byte>, stage: array<byte>, k: int) returns (n: int)
    requires IsXip(xip) && GoodHeader(xip) && |Staged(xip)| % SECTOR == 0 && stage.Length == CHUNK
    requires 0 <= k && CHUNK * k < |Staged(xip)|
    modifies stage
    ensures n == Min(HeaderLength(xip) - CHUNK * k, CHUNK) && stage[..n] == ChunkOf(Staged(xip), k)
  {
    n := Min(HeaderLength(xip) - CHUNK * k, CHUNK);
    StagedChunk(xip, k);
    ChunkWords(HeaderLength(xip), k);
    hide WordAt, ChunkOf, Staged;
    CopyWords(stage, xip, B_IMAGE_OFFSET + 8 + CHUNK * k, n);
  }

  lemma StagedChunk(xip: seq<byte>, k: int)
    requires IsXip(xip) && GoodHeader(xip) && 0 <= k && CHUNK * k < HeaderLength(xip)
    ensures |Staged(xip)| == HeaderLength(xip)
    ensures var base, n := B_IMAGE_OFFSET + 8 + CHUNK * k, Min(HeaderLength(xip) - CHUNK * k, CHUNK);
            xip[base..base + n] == ChunkOf(Staged(xip), k)
  {
    var length := HeaderLength(xip);
    assert 0 < length <= MAX_IMAGE && Staged(xip) == xip[B_IMAGE_OFFSET + 8..B_IMAGE_OFFSET + 8 + length];
    hide *;
    ChunkOfSlice(xip, B_IMAGE_OFFSET + 8, length, k);
  }

  lemma ChunkOfSlice(s: seq<byte>, base: int, length: int, k: int)
    requires 0 <= base && 0 <= k && CHUNK * k < length && base + length <= |s|
    ensures var n := Min(length - CHUNK * k, CHUNK);
            s[base + CHUNK * k..base + CHUNK * k + n] == ChunkOf(s[base..base + length], k)
  {
    SubSlice(s, base, base + length, CHUNK * k, CHUNK * k + Min(length - CHUNK * k, CHUNK));
  }

  lemma ChunkWords(length: int, k: int)
    requires length % SECTOR == 0 && 0 <= k && CHUNK * k < length
    ensures Min(length - CHUNK * k, CHUNK) % 4 == 0
  {
    assert length == SECTOR * (length / SECTOR);
  }

  /** Stage chunk k and hand it to the accumulator. */
  method SendChunk(f: Flasher, xip: seq<byte>, stage: array<byte>, stageAddr: int, off: int,
                   ghost k: int, ghost before: seq<byte>) returns (ok: bool, n: int)
    requires IsXip(xip) && GoodHeader(xip) && stage.Length == CHUNK && f.driver.Synced()
    requires Ongoing(f, Staged(xip), k, off, before) && 0 <= off < HeaderLength(xip)
    modifies f, f.driver`selectCache, f.driver`cswCache, f.driver.target, f.nor, stage
    ensures n == Min(HeaderLength(xip) - off, CHUNK)
    ensures ok ==> f.driver.Synced() && Ongoing(f, Staged(xip), if n == CHUNK then k + 1 else k, off + n, before)
    ensures f.Valid() && (!ok ==> f.pending == []) && SameOutside(before, f.nor.cells, 0, Top(Staged(xip)))
  {
    ghost var image, mid := Staged(xip), f.nor.cells;
    NextChunk(f.Abs(), image, k, off, ImageAfter(before, image, 0));
    assert |image| == HeaderLength(xip);
    hide *;
    ChunkNumber(off, k);
    n := StageChunk(xip, stage, off / CHUNK);
    ok := f.AddFlashBit(off, stage[..n], stageAddr);
    StaysInside(image, k, off, before, mid, f.nor.cells);
  }

  lemma ChunkNumber(off: int, k: int)
    requires off == CHUNK * k
    ensures off / CHUNK == k
  {
  }

  lemma StaysInside(image: seq<byte>, k: int, off: int, before: seq<byte>, mid: seq<byte>, after: seq<byte>)
    requires 0 <= k && CHUNK * k < |image| && off == CHUNK * k
    requires SameOutside(before, mid, 0, Top(image)) && SameOutside(mid, after, off, off + CHUNK)
    ensures SameOutside(before, after, 0, Top(image))
  {
    hide SameOutside;
    ChunkInside(image, k);
    SameOutsideWiden(mid, after, off, off + CHUNK, 0, Top(image));
    SameOutsideTrans(before, mid, after, 0, Top(image));
  }

  /** Write out the residual chunk, if there is one. */
  method Flush(f: Flasher, ghost image: seq<byte>, ghost k: int, ghost off: int, ghost before: seq<byte>) returns (ok: bool)
    requires f.driver.Synced() && Ongoing(f, image, k, off, before) && |image| <= off && |image| <= MAX_IMAGE
    modifies f, f.driver`selectCache, f.driver`cswCache, f.driver.target, f.nor
    ensures f.Valid() && f.pending == [] && SameOutside(before, f.nor.cells, 0, Top(image))
    ensures ok ==> f.nor.cells == ImageAfter(before, image, 0) && !f.codeCopied
  {
    hide ImageAfter, SameOutside, AddBit, BeforeGather, Continues, CodeDeliverable, Fetch, ChunkAfter;
    LastChunk(f.Abs(), image, k, off, ImageAfter(before, image, 0));
    ghost var mid, start, idle := f.nor.cells, f.chunkStart, f.pending == [];
    ok := f.AddFlashBit(FLUSH, [], 0);
    if idle {
      SameOutsideSelf(mid, 0, Top(image));
    } else {
      ChunkInside(image, k);
      SameOutsideWiden(mid, f.nor.cells, start, start + CHUNK, 0, Top(image));
    }
    SameOutsideTrans(before, mid, f.nor.cells, 0, Top(image));
  }

  /** One attempt: every chunk, then the flush. */
  method Attempt(f: Flasher, xip: seq<byte>, stage: array<byte>, stageAddr: int) returns (ok: bool)
    requires f.Valid() && f.driver.Synced() && f.pending == [] && stage.Length == CHUNK
    requires IsXip(xip) && GoodHeader(xip) && Padded(f.nor.cells, Staged(xip))
    modifies f, f.driver`selectCache, f.driver`cswCache, f.driver.target, f.nor, stage
    ensures f.Valid() && f.pending == [] && SameOutside(old(f.nor.cells), f.nor.cells, 0, Top(Staged(xip)))
    ensures ok ==> f.nor.cells == ImageAfter(old(f.nor.cells), Staged(xip), 0) && !f.codeCopied
  {
    hide ImageAfter, SameOutside, Fetch, CodeDeliverable;
    ghost var before, k := f.nor.cells, 0;
    var off := 0;
    SameOutsideSelf(before, 0, Top(Staged(xip)));
    ok := true;
    while off < HeaderLength(xip)
      invariant ok && 0 <= off && f.driver.Synced() && Ongoing(f, Staged(xip), k, off, before)
    {
      var n;
      ok, n := SendChunk(f, xip, stage, stageAddr, off, k, before);
      if !ok { return; }
      k := if n == CHUNK then k + 1 else k;
      off := off + n;
    }
    ok := Flush(f, Staged(xip), k, off, before);
  }

  lemma ChunkInside(image: seq<byte>, k: int)
    requires 0 <= k && CHUNK * k < |image|
    ensures CHUNK * k + CHUNK <= CHUNK * ChunkCount(image)
  {
  }

  /** Flash begins with the image. */
  predicate Holds(flash: seq<byte>, image: seq<byte>) { |image| <= |flash| && flash[..|image|] == image }

  /** What a completed attempt that began from `start` leaves. */
  lemma Outcomes(start: seq<byte>, image: seq<byte>)
    requires Padded(start, image)
    ensures Holds(ImageAfter(start, image, 0), image) <==> !LosesInImage(start, image)
    ensures NeverLoses(image) ==> Holds(ImageAfter(start, image, 0), image)
  {
    hide LosesInImage, NeverLoses, ImageAfter;
    ImageWrittenExactly(start, image);
    if NeverLoses(image) {
      SafeFromLoss(start, image);
    }
  }

  datatype Outcome = Flashed | BadHeader | NoLink | Failed

  /**
   Up to maxTries attempts, re-initialising the link after each failure. On success flash is
   what the last attempt makes of `start`, the contents it began from; whatever happens,
   nothing above the image's own 64 KB chunks changes and no bytes stay gathered.
   */
  method Retry(f: Flasher, xip: seq<byte>, stageAddr: int, maxTries: int)
    returns (ok: bool, ghost start: seq<byte>, ghost tries: int)
    requires f.Valid() && f.driver.Synced() && f.pending == []
    requires IsXip(xip) && GoodHeader(xip) && Padded(f.nor.cells, Staged(xip)) && 0 <= maxTries
    modifies f, f.driver`selectCache, f.driver`cswCache, f.driver.target, f.nor
    ensures f.Valid() && f.pending == [] && SameOutside(old(f.nor.cells), f.nor.cells, 0, Top(Staged(xip)))
    ensures ok ==> 0 <= tries < maxTries
    ensures !ok ==> tries == maxTries
    ensures SameOutside(old(f.nor.cells), start, 0, Top(Staged(xip))) && (tries == 0 ==> start == old(f.nor.cells))
    ensures ok ==> f.nor.cells == ImageAfter(start, Staged(xip), 0) && !f.codeCopied
    ensures ok && NeverLoses(Staged(xip)) ==> Holds(f.nor.cells, Staged(xip))
  {
    hide ImageAfter, SameOutside, Fetch, CodeDeliverable, Staged, GoodHeader, NeverLoses, Holds;
    ghost var image, before := Staged(xip), f.nor.cells;
    var stage := new byte[CHUNK];
    ok, start, tries := false, before, 0;
    var t := 0;
    SameOutsideSelf(before, 0, Top(image));
    while t < maxTries
      invariant f.Valid() && f.driver.Synced() && f.pending == [] && !ok && 0 <= t <= maxTries
      invariant SameOutside(before, f.nor.cells, 0, Top(image)) && |f.nor.cells| == |before|
      invariant SameOutside(before, start, 0, Top(image))
      invariant tries == t && (t == 0 ==> f.nor.cells == before)
    {
      start := f.nor.cells;
      ok := Attempt(f, xip, stage, stageAddr);
      SameOutsideTrans(before, start, f.nor.cells, 0, Top(image));
      SameLength(start, f.nor.cells, 0, Top(image));
      if ok {
        Outcomes(start, image);
        return;
      }
      var up := f.driver.DpInit();
      t, tries := t + 1, tries + 1;
    }
    start := before;
  }

  lemma SameLength(x: seq<byte>, y: seq<byte>, lo: int, hi: int)
    requires SameOutside(x, y, lo, hi)
    ensures |x| == |y|
  {
  }

  /**
   The app command. A return of success means B's flash is the staged image, except that a
   full second chunk with one or two changed blocks may have lost them. On a first attempt that
   is decided by what B's flash held before; after failed ones only the image can rule it out.
   */
  method FlashBApp(f: Flasher, xip: seq<byte>, stageAddr: int)
    returns (r: Outcome, ghost start: seq<byte>, ghost tries: int)
    requires f.Valid() && f.pending == [] && IsXip(xip)
    requires GoodHeader(xip) ==> Padded(f.nor.cells, Staged(xip))
    modifies f, f.driver`selectCache, f.driver`cswCache, f.driver.target, f.nor
    ensures r == BadHeader <==> !GoodHeader(xip)
    ensures r == BadHeader <==> Refused(xip)
    ensures !Refused(xip) ==> Staged(xip) == xip[0x4_0008..0x4_0008 + LengthBytes(xip[0x4_0004..0x4_0008])]
    ensures xip[0x4_0000..0x4_0004] != [0x47, 0x4D, 0x49, 0x42] ==> r == BadHeader && f.nor.cells == old(f.nor.cells)
    ensures r == BadHeader || r == NoLink ==> f.nor.cells == old(f.nor.cells)
    ensures f.Valid() && f.pending == []
    ensures r.Flashed? ==> var image := Staged(xip); Padded(start, image) && (tries == 0 ==> start == old(f.nor.cells))
    ensures r.Flashed? ==> (Holds(f.nor.cells, Staged(xip)) <==> !LosesInImage(start, Staged(xip)))
    ensures r.Flashed? && NeverLoses(Staged(xip)) ==> Holds(f.nor.cells, Staged(xip))
    ensures r.Flashed? ==> 0 <= tries < 3
    ensures r.Failed? ==> tries == 3
    ensures GoodHeader(xip) ==> SameOutside(old(f.nor.cells), f.nor.cells, 0, Top(Staged(xip)))
  {
    RefusedIffBad(xip);
    hide Refused;
    r, start, tries := NoLink, f.nor.cells, 0;
    if !GoodHeader(xip) { return BadHeader, start, tries; }
    hide ImageAfter, SameOutside, Fetch, CodeDeliverable, Staged, GoodHeader, LosesInImage, NeverLoses, Holds;
    ghost var before := f.nor.cells;
    SameOutsideSelf(before, 0, Top(Staged(xip)));
    var linked := f.driver.DpInit();
    if !linked { return; }
    var ok;
    ok, start, tries := Retry(f, xip, stageAddr, 3);
    r := if ok then Flashed else Failed;
    SameLength(before, start, 0, Top(Staged(xip)));
    Outcomes(start, Staged(xip));
  }

  /** The boot relay's copy of the loop: four attempts, and link failures are not checked. */
  method FlashBSide(f: Flasher, xip: seq<byte>, stageAddr: int)
    returns (r: Outcome, ghost start: seq<byte>, ghost tries: int)
    requires f.Valid() && f.pending == [] && IsXip(xip)
    requires GoodHeader(xip) ==> Padded(f.nor.cells, Staged(xip))
    modifies f, f.driver`selectCache, f.driver`cswCache, f.driver.target, f.nor
    ensures r == BadHeader <==> !GoodHeader(xip)
    ensures r == BadHeader <==> Refused(xip)
    ensures !Refused(xip) ==> Staged(xip) == xip[0x4_0008..0x4_0008 + LengthBytes(xip[0x4_0004..0x4_0008])]
    ensures xip[0x4_0000..0x4_0004] != [0x47, 0x4D, 0x49, 0x42] ==> r == BadHeader && f.nor.cells == old(f.nor.cells)
    ensures r == BadHeader ==> f.nor.cells == old(f.nor.cells)
    ensures r.Flashed? ==> var image := Staged(xip); Padded(start, image) && (tries == 0 ==> start == old(f.nor.cells))
    ensures r.Flashed? ==> (Holds(f.nor.cells, Staged(xip)) <==> !LosesInImage(start, Staged(xip)))
    ensures r.Flashed? && NeverLoses(Staged(xip)) ==> Holds(f.nor.cells, Staged(xip))
    ensures r.Flashed? ==> 0 <= tries < 4
    ensures r.Failed? ==> tries == 4
    ensures GoodHeader(xip) ==> SameOutside(old(f.nor.cells), f.nor.cells, 0, Top(Staged(xip)))
  {
    RefusedIffBad(xip);
    hide Refused;
    r, start, tries := BadHeader, f.nor.cells, 0;
    if !GoodHeader(xip) { return; }
    hide ImageAfter, SameOutside, Fetch, CodeDeliverable, Staged, GoodHeader, LosesInImage, NeverLoses, Holds;
    ghost var before := f.nor.cells;
    var linked := f.driver.DpInit();
    var ok;
    ok, start, tries := Retry(f, xip, stageAddr, 4);
    r := if ok then Flashed else Failed;
    SameLength(before, start, 0, Top(Staged(xip)));
    Outcomes(start, Staged(xip));
  }
}
