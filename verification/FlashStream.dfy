/**
 Streaming an image to the target's flash: the 64 KB chunk accumulator, the remote call, and
 the retry loop around them.
 */
module FlashStream {
  import opened Common
  import opened Bytes
  import opened Adi
  import opened FlashTarget

  const DATA_BUFFER := 0x2000_0000
  const CODE_START := 0x2001_0000
  const BOOT2_START := 0x2002_0000

  function Fetch(m: Memory, base: int, n: int): (r: seq<byte>)
    requires 0 <= n
    ensures |r| == n
  {
    seq<byte>(n, i requires 0 <= i < n => ByteAt(m, base + i))
  }

  // ---------------------------------------------------------------------------
  // The accumulator, as a function.
  // ---------------------------------------------------------------------------

  /** Flash, and the bytes gathered so far for the chunk at `start`. */
  datatype Stream = Stream(flash: seq<byte>, start: int, pending: seq<byte>)

  predicate StreamOk(s: Stream) {
    |s.pending| < CHUNK && (s.pending != [] ==> FitsChunk(s.flash, s.start, s.pending))
  }

  /** Whole sectors that fit in flash and continue the chunk being gathered, if there is one. */
  predicate Continues(s: Stream, offset: int, data: seq<byte>) {
    data != [] ==>
      && 0 <= offset && offset % SECTOR == 0 && |data| % SECTOR == 0 && offset + |data| <= |s.flash|
      && (s.pending != [] ==> offset == s.start + |s.pending|)
  }

  /** Write out the gathered chunk. */
  function Flushed(s: Stream): Stream
    requires StreamOk(s)
  {
    if s.pending == [] then s else Stream(ChunkAfter(s.flash, s.start, s.pending), s.start, [])
  }

  /** Gather more bytes, writing a chunk out each time it reaches 64 KB. */
  function Gathered(s: Stream, offset: int, data: seq<byte>): (r: Stream)
    requires StreamOk(s) && Continues(s, offset, data)
    ensures StreamOk(r) && |r.flash| == |s.flash|
    decreases |data|
  {
    if data == [] then s
    else
      GatherFits(s, offset, data);
      var start, n := Start(s, offset), Room(s, data);
      var chunk := s.pending + data[..n];
      if |chunk| == CHUNK
      then Gathered(Stream(ChunkAfter(s.flash, start, chunk), start, []), offset + n, data[n..])
      else Stream(s.flash, start, chunk)
  }

  /** The chunk being gathered, after as much as fits has been appended. */
  function Start(s: Stream, offset: int): int { if s.pending == [] then offset else s.start }

  function Room(s: Stream, data: seq<byte>): int { Min(CHUNK - |s.pending|, |data|) }

  lemma GatherFits(s: Stream, offset: int, data: seq<byte>)
    requires StreamOk(s) && Continues(s, offset, data) && data != []
    ensures var start, n := Start(s, offset), Room(s, data);
            && 0 < n <= |data| && n % SECTOR == 0 && start % SECTOR == 0 && offset == start + |s.pending|
            && |s.pending| % SECTOR == 0 && FitsChunk(s.flash, start, s.pending + data[..n])
  {
    var held, more := |s.pending| / SECTOR, |data| / SECTOR;
    assert |s.pending| == SECTOR * held && |data| == SECTOR * more;
    assert Room(s, data) == SECTOR * Min(16 - held, more);
    assert |s.pending + data[..Room(s, data)]| == SECTOR * (held + Min(16 - held, more));
  }

  /** One round of gathering: either the chunk is full and written, or the data is used up. */
  lemma GatherOnce(s: Stream, offset: int, data: seq<byte>)
    requires StreamOk(s) && Continues(s, offset, data) && data != []
    ensures var start, n := Start(s, offset), Room(s, data);
            var chunk := s.pending + data[..n];
            && FitsChunk(s.flash, start, chunk)
            && var next := if |chunk| == CHUNK then Stream(ChunkAfter(s.flash, start, chunk), start, [])
                           else Stream(s.flash, start, chunk);
            && StreamOk(next) && Continues(next, offset + n, data[n..])
            && Gathered(next, offset + n, data[n..]) == Gathered(s, offset, data)
  {
    hide ChunkAfter;
    GatherFits(s, offset, data);
    var n := Room(s, data);
    assert (offset + n) % SECTOR == 0 && |data[n..]| % SECTOR == 0;
  }

  // ---------------------------------------------------------------------------
  // A whole image.
  // ---------------------------------------------------------------------------

  /** An image the streamer is given: whole sectors, no larger than the 2 MB the header check allows. */
  predicate Padded(flash: seq<byte>, image: seq<byte>) {
    |image| % SECTOR == 0 && |image| <= |flash|
  }

  /** Chunk k of the image: 64 KB, or what is left of it. */
  function ChunkOf(image: seq<byte>, k: int): seq<byte>
    requires 0 <= k && CHUNK * k < |image|
  {
    image[CHUNK * k..CHUNK * k + Min(CHUNK, |image| - CHUNK * k)]
  }

  lemma ChunkFits(flash: seq<byte>, image: seq<byte>, k: int)
    requires Padded(flash, image) && 0 <= k && CHUNK * k < |image|
    ensures FitsChunk(flash, CHUNK * k, ChunkOf(image, k))
  {
    WholeSectors(|image|, k);
  }

  /** What is left of a whole number of sectors behind k chunks is a whole number of sectors. */
  lemma WholeSectors(n: nat, k: nat)
    requires n % SECTOR == 0
    ensures (CHUNK * k) % SECTOR == 0 && (n - CHUNK * k) % SECTOR == 0
  {
    Multiple(16 * k);
    Multiple(n / SECTOR - 16 * k);
    assert n == SECTOR * (n / SECTOR);
  }

  lemma Multiple(q: int)
    ensures (SECTOR * q) % SECTOR == 0
  {
  }

  /** Flash after chunks k, k + 1, ... of the image have been written, in order. */
  function ImageAfter(flash: seq<byte>, image: seq<byte>, k: int): (r: seq<byte>)
    requires Padded(flash, image) && 0 <= k
    ensures |r| == |flash|
    decreases |image| - CHUNK * k
  {
    if CHUNK * k >= |image| then flash
    else
      ChunkFits(flash, image, k);
      ImageAfter(ChunkAfter(flash, CHUNK * k, ChunkOf(image, k)), image, k + 1)
  }

  /** The number of 64 KB chunks an image spans. */
  function ChunkCount(image: seq<byte>): int { (|image| + CHUNK - 1) / CHUNK }

  /** Writing the chunks from k on leaves everything below chunk k, and above the last chunk, alone. */
  lemma {:induction false} OtherChunksUntouched(flash: seq<byte>, image: seq<byte>, k: int, a: int)
    requires Padded(flash, image) && 0 <= k && 0 <= a < |flash|
    requires a < CHUNK * k || CHUNK * ChunkCount(image) <= a
    ensures ImageAfter(flash, image, k)[a] == flash[a]
    decreases |image| - CHUNK * k
  {
    hide ChunkAfter, FitsChunk;
    if CHUNK * k < |image| {
      var data := ChunkOf(image, k);
      ChunkFits(flash, image, k);
      assert k + 1 <= ChunkCount(image);
      OutsideChunk(flash, CHUNK * k, data, a);
      OtherChunksUntouched(ChunkAfter(flash, CHUNK * k, data), image, k + 1, a);
    }
  }

  /** What ends up at an image address is what its own chunk left there. */
  lemma {:induction false} ByteOfImage(flash: seq<byte>, image: seq<byte>, k: int, c: int, a: int)
    requires Padded(flash, image) && 0 <= k <= c && CHUNK * c <= a < CHUNK * (c + 1) && a < |image|
    ensures FitsChunk(flash, CHUNK * c, ChunkOf(image, c))
    ensures ImageAfter(flash, image, k)[a] == ByteAfter(flash, CHUNK * c, ChunkOf(image, c), a)
    decreases c - k
  {
    hide ByteAfter, FitsChunk;
    var data := ChunkOf(image, k);
    ChunkFits(flash, image, k);
    ChunkFits(flash, image, c);
    var next := ChunkAfter(flash, CHUNK * k, data);
    if k == c {
      OtherChunksUntouched(next, image, k + 1, a);
    } else {
      ByteOfImage(next, image, k + 1, c, a);
      ChunkUntouched(flash, image, k, c);
      ByteAfterLocal(flash, next, CHUNK * c, ChunkOf(image, c), a);
    }
  }

  /** Writing chunk k leaves chunk c as it was. */
  lemma ChunkUntouched(flash: seq<byte>, image: seq<byte>, k: int, c: int)
    requires Padded(flash, image) && 0 <= k < c && CHUNK * c < |image|
    requires FitsChunk(flash, CHUNK * k, ChunkOf(image, k))
    ensures var lo, hi := CHUNK * c, CHUNK * c + |ChunkOf(image, c)|;
            ChunkAfter(flash, CHUNK * k, ChunkOf(image, k))[lo..hi] == flash[lo..hi]
  {
    var lo, hi := CHUNK * c, CHUNK * c + |ChunkOf(image, c)|;
    var next := ChunkAfter(flash, CHUNK * k, ChunkOf(image, k));
    forall a | lo <= a < hi ensures next[a] == flash[a] {
      OutsideChunk(flash, CHUNK * k, ChunkOf(image, k), a);
    }
  }

  /** The image's second chunk is a full one and loses a block. */
  predicate LosesInImage(flash: seq<byte>, image: seq<byte>)
    requires Padded(flash, image)
  {
    |image| > CHUNK && (ChunkFits(flash, image, 1); LosesABlock(flash, CHUNK, ChunkOf(image, 1)))
  }

  lemma ChunkSlice(flash: seq<byte>, image: seq<byte>, c: int)
    requires Padded(flash, image) && 0 <= c && CHUNK * c < |image|
    requires FitsChunk(flash, CHUNK * c, ChunkOf(image, c))
    ensures var lo, data := CHUNK * c, ChunkOf(image, c);
            ImageAfter(flash, image, 0)[lo..lo + |data|] == ChunkAfter(flash, lo, data)[lo..lo + |data|]
  {
    var lo, data := CHUNK * c, ChunkOf(image, c);
    forall a | lo <= a < lo + |data| ensures ImageAfter(flash, image, 0)[a] == ChunkAfter(flash, lo, data)[a] {
      ByteOfImage(flash, image, 0, c, a);
    }
  }

  /**
   The image is in flash afterwards exactly when its second chunk loses no block: no other
   chunk sits at an offset equal to its length.
   */
  lemma ImageWrittenExactly(flash: seq<byte>, image: seq<byte>)
    requires Padded(flash, image)
    ensures ImageAfter(flash, image, 0)[..|image|] == image <==> !LosesInImage(flash, image)
  {
    hide ChunkAfter, FitsChunk, ImageAfter, LosesABlock;
    var after := ImageAfter(flash, image, 0);
    if LosesInImage(flash, image) {
      ChunkFits(flash, image, 1);
      SecondChunkLost(flash, image);
    } else {
      forall a | 0 <= a < |image| ensures after[a] == image[a] {
        var c := a / CHUNK;
        ChunkFits(flash, image, c);
        ChunkHolds(flash, image, c);
        assert after[CHUNK * c..CHUNK * c + |ChunkOf(image, c)|][a - CHUNK * c] == after[a];
      }
    }
  }

  lemma SecondChunkLost(flash: seq<byte>, image: seq<byte>)
    requires Padded(flash, image) && LosesInImage(flash, image)
    ensures ImageAfter(flash, image, 0)[..|image|] != image
  {
    var data := ChunkOf(image, 1);
    var after := ImageAfter(flash, image, 0);
    hide ChunkAfter, FitsChunk, ImageAfter, LosesABlock;
    ChunkSlice(flash, image, 1);
    ChunkWrittenExactly(flash, CHUNK, data);
    SubSlice(after, 0, |image|, CHUNK, CHUNK + |data|);
  }

  /** It happens: 128 KB of zeros in flash, and an image that differs in the first byte of its second chunk. */
  lemma LossIsPossible() returns (flash: seq<byte>, image: seq<byte>)
    ensures Padded(flash, image) && LosesInImage(flash, image) && ImageAfter(flash, image, 0)[..|image|] != image
  {
    flash := seq<byte>(2 * CHUNK, _ => 0);
    image := seq<byte>(2 * CHUNK, i => if i == CHUNK then 1 else 0);
    OneByteLoses(flash, image, 0);
    SecondChunkLost(flash, image);
  }

  /** A flash that differs from a full second chunk in one byte, where the image is not blank, loses its block. */
  lemma OneByteLoses(flash: seq<byte>, image: seq<byte>, i: int)
    requires Padded(flash, image) && 2 * CHUNK <= |image| && 0 <= i < CHUNK
    requires image[CHUNK + i] != BLANK
    requires forall a :: CHUNK <= a < 2 * CHUNK ==> (flash[a] != image[a] <==> a == CHUNK + i)
    ensures LosesInImage(flash, image)
  {
    ChunkFits(flash, image, 1);
    var data := ChunkOf(image, 1);
    forall k | 0 <= k < CHUNK ensures flash[CHUNK + k] != data[k] <==> k == i {
      assert data[k] == image[CHUNK + k];
    }
    OneByteDiffers(flash, data, i);
  }

  lemma OneByteDiffers(flash: seq<byte>, data: seq<byte>, i: int)
    requires FitsChunk(flash, CHUNK, data) && |data| == CHUNK && 0 <= i < CHUNK
    requires forall k :: 0 <= k < CHUNK ==> (flash[CHUNK + k] != data[k] <==> k == i)
    ensures BlockChanged(flash, CHUNK, data, i / SECTOR) && Changes(flash, CHUNK, data) == 1
  {
    forall b | 0 <= b < |data| / SECTOR ensures BlockChanged(flash, CHUNK, data, b) <==> b == i / SECTOR {
      ChangedIffHolds(flash, data, i, b);
    }
    OnlyOneChanged(flash, CHUNK, data, i / SECTOR, |data| / SECTOR);
  }

  lemma ChangedIffHolds(flash: seq<byte>, data: seq<byte>, i: int, b: int)
    requires FitsChunk(flash, CHUNK, data) && |data| == CHUNK && 0 <= i < CHUNK && 0 <= b < |data| / SECTOR
    requires forall k :: 0 <= k < CHUNK ==> (flash[CHUNK + k] != data[k] <==> k == i)
    ensures BlockChanged(flash, CHUNK, data, b) <==> b == i / SECTOR
  {
    var lo, hi := SECTOR * b, SECTOR * (b + 1);
    var x, y := data[lo..hi], flash[CHUNK + lo..CHUNK + hi];
    assert |x| == |y| == SECTOR && forall k :: 0 <= k < SECTOR ==> x[k] == data[lo + k] && y[k] == flash[CHUNK + lo + k];
    if b == i / SECTOR {
      assert x[i - lo] != y[i - lo];
    }
  }

  /** An image that no flash contents can make the routine lose: its second chunk is not a full one, or is blank. */
  predicate NeverLoses(image: seq<byte>) { |image| < 2 * CHUNK || forall a :: CHUNK <= a < 2 * CHUNK ==> image[a] == BLANK }

  lemma SafeFromLoss(flash: seq<byte>, image: seq<byte>)
    requires Padded(flash, image) && NeverLoses(image)
    ensures !LosesInImage(flash, image)
  {
    if |image| > CHUNK {
      ChunkFits(flash, image, 1);
      var data := ChunkOf(image, 1);
      hide BlockChanged, Changes, FitsChunk;
      assert forall k :: 0 <= k < |data| ==> data[k] == image[CHUNK + k];
    }
  }

  /** A flash that agrees with `flash` outside the second chunk, and there with the image in all bytes but one. */
  function AllButOne(flash: seq<byte>, image: seq<byte>, a: int): (r: seq<byte>)
    requires Padded(flash, image) && 2 * CHUNK <= |image|
    ensures |r| == |flash|
  {
    seq<byte>(|flash|, i requires 0 <= i < |flash| =>
      if i == a then (if 0 <= a < |image| && image[a] == 0 then 1 else 0)
      else if CHUNK <= i < 2 * CHUNK then image[i] else flash[i])
  }

  /**
   Whether a flashing can lose a block, decided by the image alone: whatever an earlier failed
   attempt left in the image's own chunks, none is lost if and only if the second chunk is not
   a full one or is all blank.
   */
  lemma NothingLostIff(flash: seq<byte>, image: seq<byte>)
    requires Padded(flash, image)
    ensures NeverLoses(image) <==>
            forall start :: |start| == |flash| && SameOutside(flash, start, 0, CHUNK * ChunkCount(image)) ==> !LosesInImage(start, image)
  {
    hide LosesInImage;
    if NeverLoses(image) {
      forall start | |start| == |flash| && SameOutside(flash, start, 0, CHUNK * ChunkCount(image)) ensures !LosesInImage(start, image) {
        SafeFromLoss(start, image);
      }
    } else {
      var a :| CHUNK <= a < 2 * CHUNK && image[a] != BLANK;
      var start := AllButOne(flash, image, a);
      assert start[a] != image[a];
      OneByteLoses(start, image, a - CHUNK);
      assert SameOutside(flash, start, 0, CHUNK * ChunkCount(image));
      assert LosesInImage(start, image);
    }
  }

  lemma ChunkHolds(flash: seq<byte>, image: seq<byte>, c: int)
    requires Padded(flash, image) && !LosesInImage(flash, image) && 0 <= c && CHUNK * c < |image|
    ensures var data := ChunkOf(image, c); ImageAfter(flash, image, 0)[CHUNK * c..CHUNK * c + |data|] == data
  {
    hide ChunkAfter, FitsChunk, ImageAfter;
    ChunkFits(flash, image, c);
    ChunkSlice(flash, image, c);
    ChunkWrittenExactly(flash, CHUNK * c, ChunkOf(image, c));
  }

  // ---------------------------------------------------------------------------
  // The code: accumulator, remote call, retry loop.
  // ---------------------------------------------------------------------------

  predicate SameOutside(before: seq<byte>, after: seq<byte>, lo: int, hi: int) {
    |before| == |after| && forall a :: 0 <= a < |before| && !(lo <= a < hi) ==> after[a] == before[a]
  }

  lemma SameOutsideSelf(x: seq<byte>, lo: int, hi: int)
    ensures SameOutside(x, x, lo, hi)
  {
  }

  lemma SameOutsideTrans(x: seq<byte>, y: seq<byte>, z: seq<byte>, lo: int, hi: int)
    requires SameOutside(x, y, lo, hi) && SameOutside(y, z, lo, hi)
    ensures SameOutside(x, z, lo, hi)
  {
  }

  /** Memory keeps what it held in [lo, hi). */
  ghost predicate KeptIn(m: Memory, m': Memory, lo: int, hi: int) {
    forall a :: lo <= a < hi ==> SameAt(m, m', a)
  }

  lemma FetchKept(m: Memory, m': Memory, lo: int, hi: int, base: int, n: int)
    requires KeptIn(m, m', lo, hi) && 0 <= n && lo <= base && base + n <= hi
    ensures Fetch(m', base, n) == Fetch(m, base, n)
  {
    var x, y := Fetch(m', base, n), Fetch(m, base, n);
    forall i | 0 <= i < n ensures x[i] == y[i] {
      assert SameAt(m, m', base + i);
      assert x[i] == ByteAt(m', base + i) && y[i] == ByteAt(m, base + i);
    }
  }

  lemma FetchOutside(m: Memory, m': Memory, lo: int, hi: int, base: int, n: int)
    requires OnlyWithin(m, m', lo, hi) && 0 <= n && (base + n <= lo || hi <= base)
    ensures Fetch(m', base, n) == Fetch(m, base, n)
  {
    var x, y := Fetch(m', base, n), Fetch(m, base, n);
    forall i | 0 <= i < n ensures x[i] == y[i] {
      assert SameAt(m, m', base + i);
      assert x[i] == ByteAt(m', base + i) && y[i] == ByteAt(m, base + i);
    }
  }

  lemma FetchStored(m: Memory, base: int, data: seq<byte>)
    ensures Fetch(Store(m, base, data), base, |data|) == data
  {
    var x := Fetch(Store(m, base, data), base, |data|);
    forall i | 0 <= i < |data| ensures x[i] == data[i] {
      assert x[i] == ByteAt(Store(m, base, data), base + i);
    }
  }

  /** Fetching a range is fetching its two parts. */
  lemma FetchSplit(m: Memory, base: int, n: int, k: int)
    requires 0 <= n && 0 <= k
    ensures Fetch(m, base, n + k) == Fetch(m, base, n) + Fetch(m, base + n, k)
  {
  }

  /** Appending to a buffer: what was there stays, what is stored behind it follows. */
  lemma FetchAppended(m: Memory, base: int, n: int, data: seq<byte>)
    requires 0 <= n
    ensures Fetch(Store(m, base + n, data), base, n + |data|) == Fetch(m, base, n) + data
  {
    hide Store, OnlyWithin, Fetch;
    var m' := Store(m, base + n, data);
    FetchSplit(m', base, n, |data|);
    FetchStored(m, base + n, data);
    StoreStays(m, base + n, data);
    FetchOutside(m, m', base + n, base + n + |data|, base, n);
  }

  /** Whole sectors at word addresses are always delivered. */
  lemma SectorsDeliverable(addr: int, n: int)
    requires addr % 4 == 0 && 0 < n && n % SECTOR == 0
    ensures Deliverable(addr, n) && DeliveredBytes(addr, n) == n
  {
    assert HeadBytes(addr, n) == 0;
    SectorsAreWords(n);
    hide HeadBytes;
  }

  lemma SectorsAreWords(n: int)
    requires 0 < n && n % SECTOR == 0
    ensures n % 4 == 0 && 4 <= n
  {
    assert n == 4 * (1024 * (n / SECTOR));
  }

  lemma CodeDelivered(code: seq<byte>)
    requires CodeDeliverable(code)
    ensures DeliveredBytes(CODE_START, |code|) == |code|
  {
  }

  /** The routine's own code is delivered whole by the block writer. */
  predicate CodeDeliverable(code: seq<byte>) {
    Deliverable(0x2001_0000, |code|) && |code| <= 0x1_0000
  }

  class Flasher {
    const driver: Driver
    const nor: Nor
    const code: seq<byte>
    const codeAddr: int
    var codeCopied: bool
    var chunkStart: int
    var chunkSize: int
    ghost var pending: seq<byte>

    ghost predicate CodeLoaded()
      reads driver.target
    {
      Fetch(driver.target.port.mem, 0x2001_0000, |code|) == code
    }

    /** The gathered bytes are in the target's data buffer, and a copied routine is in place. */
    ghost predicate Valid()
      reads this, driver, driver.target, nor
    {
      && CodeDeliverable(code) && |nor.cells| < NO_ADDR
      && (codeCopied ==> CodeLoaded())
      && 0 <= chunkSize == |pending|
      && Fetch(driver.target.port.mem, 0x2000_0000, chunkSize) == pending
      && StreamOk(Abs())
    }

    ghost function Abs(): Stream
      reads this, nor
    {
      Stream(nor.cells, chunkStart, pending)
    }

    constructor (driver: Driver, nor: Nor, code: seq<byte>, codeAddr: int)
      requires CodeDeliverable(code) && |nor.cells| < NO_ADDR
      ensures Valid() && pending == [] && this.driver == driver && this.nor == nor && this.code == code
    {
      this.driver, this.nor, this.code, this.codeAddr := driver, nor, code, codeAddr;
      codeCopied, chunkStart, chunkSize, pending := false, 0, 0, [];
    }

    /**
     The remote call. If it succeeds and the routine is in place, the routine has run on the
     chunk in the data buffer. If it fails the routine may have stopped anywhere, so the
     chunk's 64 KB may hold anything. If something else is in place, so may all of flash.
     */
    method CallFlashBlock(offset: int, length: int) returns (ok: bool)
      requires driver.Synced() && 0 <= length && |nor.cells| < NO_ADDR
      requires FitsChunk(nor.cells, offset, Fetch(driver.target.port.mem, DATA_BUFFER, length))
      modifies driver`selectCache, driver`cswCache, driver.target, nor
      ensures KeptIn(old(driver.target.port.mem), driver.target.port.mem, DATA_BUFFER, BOOT2_START)
      ensures ok ==> driver.Synced()
      ensures ok && old(CodeLoaded())
        ==> nor.cells == ChunkAfter(old(nor.cells), offset, old(Fetch(driver.target.port.mem, DATA_BUFFER, length)))
      ensures old(CodeLoaded()) ==> SameOutside(old(nor.cells), nor.cells, offset, offset + CHUNK)
    {
      ok := *;
      var data := Fetch(driver.target.port.mem, DATA_BUFFER, length);
      if Fetch(driver.target.port.mem, CODE_START, |code|) != code {
        nor.cells := *;
      } else if ok {
        ghost var before := nor.cells;
        nor.FlashBlock(offset, data);
        forall a | 0 <= a < |before| && !(offset <= a < offset + CHUNK) ensures nor.cells[a] == before[a] {
          OutsideChunk(before, offset, data, a);
        }
      } else {
        var junk: seq<byte> := *;
        var was := nor.cells;
        nor.cells := seq(|was|, a requires 0 <= a < |was| => if offset <= a < offset + CHUNK && a < |junk| then junk[a] else was[a]);
        driver.selectCache, driver.cswCache := *, *;
      }
      var m: Memory := *;
      driver.target.port := driver.target.port.(mem :=
        (map a | a in m && !(DATA_BUFFER <= a < BOOT2_START) :: m[a]) +
        (map a | a in driver.target.port.mem && DATA_BUFFER <= a < BOOT2_START :: driver.target.port.mem[a]));
    }
  
    /** Copy the routine over if it is not there yet, then run it on the chunk in the buffer. */
    method ProgramFlashChunk(offset: int, length: int) returns (ok: bool)
      requires driver.Synced() && CodeDeliverable(code) && (codeCopied ==> CodeLoaded()) && |nor.cells| < NO_ADDR
      requires 0 <= length <= CHUNK
      requires FitsChunk(nor.cells, offset, Fetch(driver.target.port.mem, DATA_BUFFER, length))
      modifies this`codeCopied, driver`selectCache, driver`cswCache, driver.target, nor
      ensures codeCopied ==> CodeLoaded()
      ensures KeptIn(old(driver.target.port.mem), driver.target.port.mem, DATA_BUFFER, CODE_START)
      ensures ok ==> driver.Synced()
      ensures ok ==> nor.cells == ChunkAfter(old(nor.cells), offset, old(Fetch(driver.target.port.mem, DATA_BUFFER, length)))
      ensures |nor.cells| == |old(nor.cells)| && SameOutside(old(nor.cells), nor.cells, offset, offset + CHUNK)
    {
      hide Fetch, Store, OnlyWithin, FitsChunk, ChunkAfter, DeliveredBytes;
      ghost var m0 := driver.target.port.mem;
      if !codeCopied {
        assert |code| >= 1;
        ok := driver.MemWriteBlock(CODE_START, |code|, code, codeAddr);
        ghost var m1 := driver.target.port.mem;
        CodeCopyKeepsData(m0, m1, |code|);
        FetchKept(m0, m1, DATA_BUFFER, CODE_START, DATA_BUFFER, length);
        if !ok { return; }
        CodeDelivered(code);
        assert code[..|code|] == code;
        FetchStored(m0, CODE_START, code);
        codeCopied := true;
      }
      ghost var m2 := driver.target.port.mem;
      ok := CallFlashBlock(offset, length);
      FetchKept(m2, driver.target.port.mem, DATA_BUFFER, BOOT2_START, CODE_START, |code|);
      KeptTrans(m0, m2, driver.target.port.mem);
    }

    /** Copy n bytes behind the gathered ones; whatever happens those, and a copied routine, stay. */
    method CopyBehind(at: int, n: int, src: seq<byte>, srcAddr: int) returns (ok: bool)
      requires Valid() && driver.Synced() && at == DATA_BUFFER + chunkSize && at % 4 == 0
      requires 0 < n <= |src| && n % SECTOR == 0 && chunkSize + n <= CHUNK
      modifies driver`selectCache, driver`cswCache, driver.target
      ensures Valid()
      ensures ok ==> driver.Synced() && Fetch(driver.target.port.mem, DATA_BUFFER, chunkSize + n) == pending + src[..n]
    {
      hide Fetch, Store, OnlyWithin, FitsChunk, Deliverable, DeliveredBytes;
      ghost var m0 := driver.target.port.mem;
      ok := driver.MemWriteBlock(at, n, src, srcAddr);
      ghost var m1 := driver.target.port.mem;
      FetchOutside(m0, m1, at, at + n, DATA_BUFFER, chunkSize);
      FetchOutside(m0, m1, at, at + n, CODE_START, |code|);
      SectorsDeliverable(at, n);
      FetchAppended(m0, DATA_BUFFER, chunkSize, src[..n]);
    }

    /** Copy as much as fits behind the gathered bytes, and write the chunk out once it is full. */
    method GatherStep(offset: int, src: seq<byte>, srcAddr: int) returns (ok: bool, n: int)
      requires Valid() && driver.Synced() && src != [] && Continues(Abs(), offset, src)
      modifies this, driver`selectCache, driver`cswCache, driver.target, nor
      ensures Valid() && n == Min(CHUNK - old(chunkSize), |src|)
      ensures ok ==> driver.Synced() && Continues(Abs(), offset + n, src[n..])
      ensures ok ==> Gathered(Abs(), offset + n, src[n..]) == Gathered(old(Abs()), offset, src)
      ensures ok ==> pending == [] || n == |src|
      ensures !ok ==> pending == [] || (pending == old(pending) && chunkStart == old(chunkStart))
      ensures old(pending) == [] ==> SameOutside(old(nor.cells), nor.cells, offset, offset + CHUNK)
    {
      hide Fetch, Store, OnlyWithin, FitsChunk, ChunkAfter, Deliverable, DeliveredBytes, CodeDeliverable;
      hide Continues, Gathered, SameOutside;
      SameOutsideSelf(nor.cells, offset, offset + CHUNK);
      ghost var s0 := Abs();
      GatherFits(s0, offset, src);
      GatherOnce(s0, offset, src);
      if chunkSize == 0 {
        chunkStart := offset;
      }
      n := Min(CHUNK - chunkSize, |src|);
      ok := CopyBehind(DATA_BUFFER + (offset - chunkStart), n, src, srcAddr);
      if !ok { return; }
      chunkSize, pending := chunkSize + n, pending + src[..n];
      if chunkSize == CHUNK {
        ok := ProgramFlashChunk(chunkStart, chunkSize);
        chunkSize, pending := 0, [];
      }
    }

    /**
     Add a run of bytes at a flash offset; a request far past the gathered chunk writes it out
     first, and an empty one only does that. A failed call leaves no new bytes gathered.
     */
    method AddFlashBit(offset: int, src: seq<byte>, srcAddr: int) returns (ok: bool)
      requires Valid() && driver.Synced() && Continues(BeforeGather(Abs(), offset), offset, src)
      modifies this, driver`selectCache, driver`cswCache, driver.target, nor
      ensures Valid()
      ensures ok ==> driver.Synced() && Abs() == AddBit(old(Abs()), offset, src)
      ensures !ok ==> pending == [] || pending == old(pending)
      ensures old(pending) == [] && |src| <= CHUNK ==> SameOutside(old(nor.cells), nor.cells, offset, offset + CHUNK)
      ensures src == [] ==> SameOutside(old(nor.cells), nor.cells, old(chunkStart), old(chunkStart) + CHUNK)
      ensures src == [] && old(pending) == [] ==> nor.cells == old(nor.cells)
      ensures src == [] && ok ==> !codeCopied
      ensures src == [] && !ok ==> pending == []
    {
      hide Gathered, FitsChunk, ChunkAfter, Fetch, CodeDeliverable;
      ok := true;
      if chunkSize > 0 && offset >= chunkStart + CHUNK {
        ok := ProgramFlashChunk(chunkStart, chunkSize);
        chunkSize, pending := 0, [];
        if !ok { return; }
      }
      ghost var s1 := Abs();
      assert s1 == BeforeGather(old(Abs()), offset);
      if |src| == 0 {
        codeCopied := false;
        GatheredNothing(s1, offset);
        return;
      }
      var at, left := offset, src;
      while |left| > 0
        invariant Valid() && ok && driver.Synced() && Continues(Abs(), at, left)
        invariant Gathered(Abs(), at, left) == Gathered(s1, offset, src)
        invariant (at == offset && left == src && Abs() == s1) || (pending == [] || left == [])
        invariant s1.pending == [] && |src| <= CHUNK ==> SameOutside(s1.flash, nor.cells, offset, offset + CHUNK)
        invariant s1.pending == [] && |src| <= CHUNK ==> left == [] || (at == offset && left == src)
        decreases |left|
      {
        var n;
        ok, n := GatherStep(at, left, srcAddr + (at - offset));
        if !ok { return; }
        at, left := at + n, left[n..];
      }
      GatheredNothing(Abs(), at);
    }
  }

  lemma GatheredNothing(s: Stream, offset: int)
    requires StreamOk(s) && Continues(s, offset, [])
    ensures Gathered(s, offset, []) == s
  {
  }

  /** What one call of the accumulator does: a request past the gathered chunk writes that out first. */
  function AddBit(s: Stream, offset: int, data: seq<byte>): (r: Stream)
    requires StreamOk(s) && Continues(BeforeGather(s, offset), offset, data)
    ensures StreamOk(r)
  {
    Gathered(BeforeGather(s, offset), offset, data)
  }

  function BeforeGather(s: Stream, offset: int): (r: Stream)
    requires StreamOk(s)
    ensures StreamOk(r) && |r.flash| == |s.flash|
  {
    if s.pending != [] && offset >= s.start + CHUNK then Flushed(s) else s
  }

  lemma KeptTrans(m0: Memory, m1: Memory, m2: Memory)
    requires m0 == m1 || KeptIn(m0, m1, DATA_BUFFER, CODE_START)
    requires KeptIn(m1, m2, DATA_BUFFER, BOOT2_START)
    ensures KeptIn(m0, m2, DATA_BUFFER, CODE_START)
  {
    forall a | DATA_BUFFER <= a < CODE_START ensures SameAt(m0, m2, a) {
      assert SameAt(m1, m2, a) && (m0 == m1 || SameAt(m0, m1, a));
    }
  }

  lemma CodeCopyKeepsData(m: Memory, m': Memory, n: int)
    requires OnlyWithin(m, m', CODE_START, CODE_START + Max(n, 1))
    ensures KeptIn(m, m', DATA_BUFFER, CODE_START)
  {
  }
}
