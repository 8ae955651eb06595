/**
 The UF2 converter: a binary cut into 512-byte blocks with addresses, and back.
 */
module Uf2Conv {
  import opened Common
  import opened Bytes

  const MAGIC0: word := 0x0A32_4655
  const MAGIC1: word := 0x9E5D_5157
  const MAGIC_END: word := 0x0AB1_6F30
  const FAMILY_FLAG := 0x2000
  const BLOCK := 512
  const PAYLOAD := 256
  const MAX_DATA := 476
  const MAX_PADDING := 10 * 1024 * 1024

  datatype Result<T> = Ok(value: T) | Error
  // ---------------------------------------------------------------------------
  // Writing
  // ---------------------------------------------------------------------------

  function Blocks(n: nat): nat { (n + 255) / 256 }

  /** Up to 256 bytes from index i on, filled up with zeros. */
  function Chunk(x: seq<byte>, i: nat): (r: seq<byte>)
    requires i <= |x|
    ensures |r| == PAYLOAD
  {
    var c := x[i..Min(i + PAYLOAD, |x|)];
    c + Zeros(PAYLOAD - |c|)
  }

  function Header(flags: word, addr: word, size: word, no: word, count: word, family: word): (r: seq<byte>)
    ensures |r| == 32
  {
    LanesOf(MAGIC0) + LanesOf(MAGIC1) + LanesOf(flags) + LanesOf(addr) + LanesOf(size) + LanesOf(no) + LanesOf(count) + LanesOf(family)
  }

  function FlagsFor(family: word): word { if family != 0 then FAMILY_FLAG else 0 }

  /** Addresses and counts that fit the header's 32-bit fields. */
  predicate Fits(n: nat, base: word) { n > 0 ==> base + PAYLOAD * (Blocks(n) - 1) < 0x1_0000_0000 && Blocks(n) < 0x1_0000_0000 }

  function BlockFor(x: seq<byte>, base: word, family: word, k: nat): (r: seq<byte>)
    requires Fits(|x|, base) && k < Blocks(|x|)
    ensures |r| == BLOCK
  {
    Header(FlagsFor(family), base + PAYLOAD * k, PAYLOAD, k, Blocks(|x|), family) + Chunk(x, PAYLOAD * k) + Zeros(220) + LanesOf(MAGIC_END)
  }

  /** The first n blocks of the file. */
  function File(x: seq<byte>, base: word, family: word, n: nat): (r: seq<byte>)
    requires Fits(|x|, base) && n <= Blocks(|x|)
    ensures |r| == BLOCK * n
  {
    if n == 0 then [] else File(x, base, family, n - 1) + BlockFor(x, base, family, n - 1)
  }

  // ---------------------------------------------------------------------------
  // Reading
  // ---------------------------------------------------------------------------

  /** The reader's variables between blocks. */
  datatype Reader = Reader(curr: Option<int>, family: Option<word>, found: map<word, word>, out: seq<byte>, start: word)

  predicate HasFamily(flags: word) { flags / FAMILY_FLAG % 2 == 1 }

  /** Where the reader stands once it has looked at a block's address and family. */
  function Located(r: Reader, wanted: word, flags: word, addr: word, fam: word): Reader {
    var r1 := if HasFamily(flags) && r.family.None? then r.(family := Some(fam)) else r;
    if r1.curr.None? || (HasFamily(flags) && r1.family != Some(fam))
    then r1.(family := Some(fam), curr := Some(addr), start := if wanted == 0 || wanted == fam then addr else r1.start)
    else r1
  }

  function Found(found: map<word, word>, fam: word, addr: word): map<word, word> {
    if fam in found && found[fam] <= addr then found else found[fam := addr]
  }

  /** A flashable block's payload, behind the padding its address asks for. */
  function TakePayload(r: Reader, wanted: word, flags: word, addr: word, fam: word, payload: seq<byte>, last: bool): Result<Reader> {
    var r1 := Located(r, wanted, flags, addr, fam);
    var padding := addr - (if r1.curr.None? then addr else r1.curr.value);
    if padding < 0 || padding > MAX_PADDING || padding % 4 != 0 then Error
    else
      var out := r1.out + Zeros(padding);
      var out1 := if wanted == 0 || (HasFamily(flags) && wanted == fam) then out + payload else out;
      var found := if HasFamily(flags) then Found(r1.found, fam, addr) else r1.found;
      var r2 := Reader(Some(addr + |payload|), r1.family, found, out1, r1.start);
      Ok(if last && |found| > 1 && wanted == 0 then r2.(out := [], start := 0) else r2)
  }

  /** One block; the message about a bad magic itself fails, so such a block stops the conversion too. */
  function ReadBlock(r: Reader, wanted: word, block: seq<byte>, last: bool): Result<Reader>
    requires |block| == BLOCK
  {
    var flags, addr, size, fam := WordAt(block, 8), WordAt(block, 12), WordAt(block, 16), WordAt(block, 28);
    if WordAt(block, 0) != MAGIC0 || WordAt(block, 4) != MAGIC1 then Error
    else if flags % 2 == 1 then Ok(r)
    else if size > MAX_DATA then Error
    else TakePayload(r, wanted, flags, addr, fam, block[32..32 + size], last)
  }

  /** The reader after the first n of `count` blocks. */
  function ReadBlocks(buf: seq<byte>, wanted: word, start: word, n: nat): Result<Reader>
    requires BLOCK * n <= |buf|
  {
    if n == 0 then Ok(Reader(None, None, map[], [], start))
    else
      var r := ReadBlocks(buf, wanted, start, n - 1);
      if r.Error? then Error
      else ReadBlock(r.value, wanted, buf[BLOCK * (n - 1)..BLOCK * n], n == |buf| / BLOCK)
  }

  /** The converter and its two globals. */
  class Converter {
    var appStart: word
    var familyId: word

    constructor ()
      ensures appStart == 0x2000 && familyId == 0
    {
      appStart, familyId := 0x2000, 0;
    }

    method ToUf2(x: seq<byte>) returns (r: Result<seq<byte>>)
      ensures r == if Fits(|x|, appStart) then Ok(File(x, appStart, familyId, Blocks(|x|))) else Error
      ensures r.Ok? <==> |x| == 0 || (appStart + 256 * ((|x| - 1) / 256) < 0x1_0000_0000 && (|x| + 255) / 256 < 0x1_0000_0000)
    {
      hide Header, Chunk, LanesOf;
      var padding: seq<byte> := [];
      while |padding| < BLOCK - PAYLOAD - 32 - 4
        invariant |padding| % 4 == 0 && |padding| <= 220 && padding == Zeros(|padding|)
      {
        padding := padding + [0, 0, 0, 0];
      }
      var count := (|x| + 255) / 256;
      if !Fits(|x|, appStart) { return Error; }
      var out := [];
      for no := 0 to count
        invariant out == File(x, appStart, familyId, no)
      {
        var chunk := x[PAYLOAD * no..Min(PAYLOAD * no + PAYLOAD, |x|)];
        ghost var raw := chunk;
        var flags := 0;
        if familyId != 0 { flags := FAMILY_FLAG; }
        var hd := Header(flags, PAYLOAD * no + appStart, PAYLOAD, no, count, familyId);
        while |chunk| < PAYLOAD
          invariant |raw| <= |chunk| <= PAYLOAD && chunk == raw + Zeros(|chunk| - |raw|)
        {
          chunk := chunk + [0];
        }
        FilledChunk(x, PAYLOAD * no, chunk);
        var block := hd + chunk + padding + LanesOf(MAGIC_END);
        out := out + block;
      }
      r := Ok(out);
    }

    method FromUf2(buf: seq<byte>) returns (r: Result<seq<byte>>)
      modifies this`appStart
      ensures var d := ReadBlocks(buf, familyId, old(appStart), |buf| / BLOCK);
              r == (if d.Error? then Error else Ok(d.value.out)) && (d.Ok? ==> appStart == d.value.start)
    {
      hide WordAt, ReadBlock;
      var count := |buf| / BLOCK;
      var d := Reader(None, None, map[], [], appStart);
      ghost var start := appStart;
      for no := 0 to count
        invariant ReadBlocks(buf, familyId, start, no) == Ok(d)
      {
        var ptr := no * BLOCK;
        var step := NextBlock(d, familyId, buf[ptr..ptr + BLOCK], no == count - 1);
        if step.Error? {
          FailsToTheEnd(buf, familyId, start, no + 1, count);
          return Error;
        }
        d := step.value;
      }
      appStart := d.start;
      r := Ok(d.out);
    }

    static method NextBlock(r: Reader, wanted: word, block: seq<byte>, last: bool) returns (result: Result<Reader>)
      requires |block| == BLOCK
      ensures result == ReadBlock(r, wanted, block, last)
    {
      hide WordAt, TakePayload;
      if WordAt(block, 0) != MAGIC0 || WordAt(block, 4) != MAGIC1 { return Error; }
      var flags, addr, size, fam := WordAt(block, 8), WordAt(block, 12), WordAt(block, 16), WordAt(block, 28);
      if flags % 2 == 1 { return Ok(r); }
      if size > MAX_DATA { return Error; }
      result := Payload(r, wanted, flags, addr, fam, block[32..32 + size], last);
    }

    static method Locate(r: Reader, wanted: word, flags: word, addr: word, fam: word) returns (d: Reader)
      ensures d == Located(r, wanted, flags, addr, fam) && d.curr.Some?
    {
      hide HasFamily;
      d := r;
      if HasFamily(flags) && d.family.None? {
        d := d.(family := Some(fam));
      }
      if d.curr.None? || (HasFamily(flags) && d.family != Some(fam)) {
        d := d.(family := Some(fam), curr := Some(addr));
        if wanted == 0 || wanted == fam { d := d.(start := addr); }
      }
    }

    static method Payload(r: Reader, wanted: word, flags: word, addr: word, fam: word, payload: seq<byte>, last: bool)
      returns (result: Result<Reader>)
      ensures result == TakePayload(r, wanted, flags, addr, fam, payload, last)
    {
      hide HasFamily, Located;
      var d := Locate(r, wanted, flags, addr, fam);
      var padding := addr - d.curr.value;
      if padding < 0 || padding > MAX_PADDING || padding % 4 != 0 { return Error; }
      var zeros := PadWords(padding);
      var out := d.out + zeros;
      if wanted == 0 || (HasFamily(flags) && wanted == fam) {
        out := out + payload;
      }
      var found := d.found;
      if HasFamily(flags) {
        if fam in found {
          if found[fam] > addr { found := found[fam := addr]; }
        } else {
          found := found[fam := addr];
        }
      }
      d := Reader(Some(addr + |payload|), d.family, found, out, d.start);
      if last && |found| > 1 && wanted == 0 {
        d := d.(out := [], start := 0);
      }
      result := Ok(d);
    }

    static method PadWords(padding: nat) returns (out: seq<byte>)
      requires padding % 4 == 0
      ensures out == Zeros(padding)
    {
      out := [];
      var left := padding;
      while left > 0
        invariant 0 <= left <= padding && left % 4 == 0 && out == Zeros(padding - left)
      {
        left := left - 4;
        out := out + [0, 0, 0, 0];
      }
    }
  }

  lemma FilledChunk(x: seq<byte>, i: nat, chunk: seq<byte>)
    requires i <= |x| && |chunk| == PAYLOAD
    requires var raw := x[i..Min(i + PAYLOAD, |x|)]; chunk == raw + Zeros(|chunk| - |raw|)
    ensures chunk == Chunk(x, i)
  {
  }

  lemma {:induction false} FailsToTheEnd(buf: seq<byte>, wanted: word, start: word, n: nat, count: nat)
    requires n <= count && BLOCK * count <= |buf| && ReadBlocks(buf, wanted, start, n).Error?
    ensures ReadBlocks(buf, wanted, start, count).Error?
  {
    hide ReadBlock;
    if n < count {
      FailsToTheEnd(buf, wanted, start, n, count - 1);
    }
  }

  // ---------------------------------------------------------------------------
  // What the reader rejects
  // ---------------------------------------------------------------------------

  predicate GoodMagic(block: seq<byte>)
    requires |block| == BLOCK
  {
    WordAt(block, 0) == MAGIC0 && WordAt(block, 4) == MAGIC1
  }

  /** A block that goes on where the reader stands: not the first, and not of another family. */
  predicate GoesOn(r: Reader, flags: word, fam: word) {
    r.curr.Some? && !(HasFamily(flags) && r.family.Some? && r.family.value != fam)
  }

  /**
   The exact condition on one block: the magics are right, and unless it is marked not for
   flash, its data fits and its address is 0 to 10 MB and whole words ahead of the reader.
   */
  lemma BlockReadIff(r: Reader, wanted: word, block: seq<byte>, last: bool)
    requires |block| == BLOCK
    ensures var flags, addr, size, fam := WordAt(block, 8), WordAt(block, 12), WordAt(block, 16), WordAt(block, 28);
            ReadBlock(r, wanted, block, last).Ok? <==>
              GoodMagic(block)
              && (flags % 2 == 1
                  || (size <= 476
                      && (GoesOn(r, flags, fam) ==> 0 <= addr - r.curr.value <= 0xA0_0000 && (addr - r.curr.value) % 4 == 0)))
  {
    hide WordAt, HasFamily;
  }

  lemma BadMagicFails(r: Reader, wanted: word, block: seq<byte>, last: bool)
    requires |block| == BLOCK && !GoodMagic(block)
    ensures ReadBlock(r, wanted, block, last).Error?
  {
    hide WordAt, TakePayload;
  }

  /** A file with a wrong magic in any of its blocks is not converted at all, whatever the other blocks are. */
  lemma BadMagicStops(buf: seq<byte>, wanted: word, start: word, k: nat)
    requires k < |buf| / BLOCK && !GoodMagic(buf[BLOCK * k..BLOCK * (k + 1)])
    ensures ReadBlocks(buf, wanted, start, |buf| / BLOCK).Error?
  {
    hide ReadBlock, GoodMagic;
    var r := ReadBlocks(buf, wanted, start, k);
    if r.Ok? {
      BadMagicFails(r.value, wanted, buf[BLOCK * k..BLOCK * (k + 1)], k + 1 == |buf| / BLOCK);
    }
    assert ReadBlocks(buf, wanted, start, k + 1).Error?;
    FailsToTheEnd(buf, wanted, start, k + 1, |buf| / BLOCK);
  }

  lemma LastBlock(file: seq<byte>, block: seq<byte>, n: nat)
    requires |file| == BLOCK * n && |block| == BLOCK
    ensures |file + block| / BLOCK == n + 1 && (file + block)[BLOCK * n..BLOCK * (n + 1)] == block
  {
  }

  lemma ZerosHaveNoMagic()
    ensures !GoodMagic(Zeros(BLOCK))
  {
    assert WordAt(Zeros(BLOCK), 0) == 0;
  }

  /** It happens: any file of n blocks, with one block of zeros behind it. */
  lemma ZerosStop(file: seq<byte>, n: nat, wanted: word, start: word)
    requires |file| == BLOCK * n
    ensures var buf := file + Zeros(BLOCK); ReadBlocks(buf, wanted, start, |buf| / BLOCK).Error?
  {
    hide ReadBlocks, GoodMagic, Zeros;
    LastBlock(file, Zeros(BLOCK), n);
    ZerosHaveNoMagic();
    BadMagicStops(file + Zeros(BLOCK), wanted, start, n);
  }

  // ---------------------------------------------------------------------------
  // The round trip
  // ---------------------------------------------------------------------------

  /** The input filled up with zeros to whole blocks. */
  function Padded(x: seq<byte>): (r: seq<byte>)
    ensures |r| == PAYLOAD * Blocks(|x|)
  {
    x + Zeros(PAYLOAD * Blocks(|x|) - |x|)
  }

  lemma ChunkOfPadded(x: seq<byte>, k: nat)
    requires k < Blocks(|x|)
    ensures Chunk(x, PAYLOAD * k) == Padded(x)[PAYLOAD * k..PAYLOAD * (k + 1)]
  {
  }

  lemma HeaderWords(a: seq<byte>, b: seq<byte>, c: seq<byte>, d: seq<byte>, e: seq<byte>, f: seq<byte>, g: seq<byte>, h: seq<byte>,
                    payload: seq<byte>, rest: seq<byte>)
    requires |a| == 4 && |b| == 4 && |c| == 4 && |d| == 4 && |e| == 4 && |f| == 4 && |g| == 4 && |h| == 4 && |payload| == PAYLOAD
    ensures var s := a + b + c + d + e + f + g + h + payload + rest;
            && s[0..4] == a && s[4..8] == b && s[8..12] == c && s[12..16] == d && s[16..20] == e && s[20..24] == f && s[24..28] == g && s[28..32] == h
            && s[32..32 + PAYLOAD] == payload
  {
  }

  /** Every block is 512 bytes with consecutive addresses, and says what it holds. */
  lemma BlockFields(x: seq<byte>, base: word, family: word, k: nat)
    requires Fits(|x|, base) && k < Blocks(|x|)
    ensures var b := BlockFor(x, base, family, k);
            && WordAt(b, 0) == 0x0A32_4655 && WordAt(b, 4) == 0x9E5D_5157 && WordAt(b, 8) == (if family != 0 then 0x2000 else 0)
            && WordAt(b, 12) == base + 256 * k && WordAt(b, 16) == 256 && WordAt(b, 28) == family
            && WordAt(b, 20) == k && WordAt(b, 24) == (|x| + 255) / 256 && WordAt(b, 508) == 0x0AB1_6F30
            && b[32..288] == Padded(x)[256 * k..256 * (k + 1)] && b[288..508] == Zeros(220)
  {
    ChunkOfPadded(x, k);
    hide LanesOf, WordAt, Chunk, Padded;
    var b := BlockFor(x, base, family, k);
    var rest := Zeros(220) + LanesOf(MAGIC_END);
    HeaderWords(LanesOf(MAGIC0), LanesOf(MAGIC1), LanesOf(FlagsFor(family)), LanesOf(base + PAYLOAD * k), LanesOf(PAYLOAD),
                LanesOf(k), LanesOf(Blocks(|x|)), LanesOf(family), Chunk(x, PAYLOAD * k), rest);
    assert b == LanesOf(MAGIC0) + LanesOf(MAGIC1) + LanesOf(FlagsFor(family)) + LanesOf(base + PAYLOAD * k) + LanesOf(PAYLOAD)
             + LanesOf(k) + LanesOf(Blocks(|x|)) + LanesOf(family) + Chunk(x, PAYLOAD * k) + rest;
    PackedReadsBack(MAGIC0, b, 0);
    PackedReadsBack(MAGIC1, b, 4);
    PackedReadsBack(FlagsFor(family), b, 8);
    PackedReadsBack(base + PAYLOAD * k, b, 12);
    PackedReadsBack(PAYLOAD, b, 16);
    PackedReadsBack(family, b, 28);
    PackedReadsBack(k, b, 20);
    PackedReadsBack(Blocks(|x|), b, 24);
    BlockEnd(x, base, family, k);
    PackedReadsBack(MAGIC_END, b, 508);
  }

  lemma BlockEnd(x: seq<byte>, base: word, family: word, k: nat)
    requires Fits(|x|, base) && k < Blocks(|x|)
    ensures var b := BlockFor(x, base, family, k); b[288..508] == Zeros(220) && b[508..512] == LanesOf(MAGIC_END)
  {
    hide Header, Chunk, LanesOf, Zeros;
  }

  lemma {:induction false} BlockOfFile(x: seq<byte>, base: word, family: word, n: nat, k: nat)
    requires Fits(|x|, base) && k < n <= Blocks(|x|)
    ensures File(x, base, family, n)[BLOCK * k..BLOCK * (k + 1)] == BlockFor(x, base, family, k)
  {
    hide BlockFor;
    var before, b := File(x, base, family, n - 1), BlockFor(x, base, family, n - 1);
    if k < n - 1 {
      BlockOfFile(x, base, family, n - 1, k);
      EarlySlice(before, b, BLOCK * k, BLOCK * (k + 1));
    } else {
      assert (before + b)[|before|..] == b;
    }
  }

  lemma EarlySlice(a: seq<byte>, b: seq<byte>, i: nat, j: nat)
    requires i <= j <= |a|
    ensures (a + b)[i..j] == a[i..j]
  {
  }

  /** The reader after n blocks of the converter's own file. */
  function After(x: seq<byte>, base: word, family: word, start: word, n: nat): Reader
    requires n <= Blocks(|x|)
  {
    if n == 0 then Reader(None, None, map[], [], start)
    else Reader(Some(base + PAYLOAD * n), Some(family), if family == 0 then map[] else map[family := base], Padded(x)[..PAYLOAD * n], base)
  }

  lemma Grows(p: seq<byte>, k: nat)
    requires PAYLOAD * (k + 1) <= |p|
    ensures p[..PAYLOAD * k] + Zeros(0) + p[PAYLOAD * k..PAYLOAD * (k + 1)] == p[..PAYLOAD * (k + 1)]
  {
  }

  lemma OneFamily(family: word, base: word)
    ensures |map[family := base]| == 1
  {
    assert map[family := base].Keys == {family};
  }

  /** The payload of the converter's own block k extends the output by 256 bytes. */
  lemma TakesOwnPayload(x: seq<byte>, base: word, family: word, start: word, k: nat, addr: word, payload: seq<byte>, last: bool)
    requires Fits(|x|, base) && k < Blocks(|x|) && addr == base + PAYLOAD * k
    requires payload == Padded(x)[PAYLOAD * k..PAYLOAD * (k + 1)]
    ensures TakePayload(After(x, base, family, start, k), family, FlagsFor(family), addr, family, payload, last)
         == Ok(After(x, base, family, start, k + 1))
  {
    assert HasFamily(FlagsFor(family)) <==> family != 0;
    Grows(Padded(x), k);
    OneFamily(family, base);
    hide HasFamily, FlagsFor, Padded, Zeros, Fits;
    var flags := FlagsFor(family);
    var r1 := Located(After(x, base, family, start, k), family, flags, addr, family);
    assert r1.curr == Some(addr) && r1.family == Some(family) && r1.start == base;
    assert Padded(x)[..PAYLOAD * 0] == [];
    var found := if HasFamily(flags) then Found(r1.found, family, addr) else r1.found;
    assert found == if family == 0 then map[] else map[family := base];
  }

  /** A flashable block with its 256 bytes is read by taking its payload. */
  lemma ReadsByTaking(r: Reader, wanted: word, block: seq<byte>, last: bool, flags: word, addr: word, fam: word)
    requires |block| == BLOCK && GoodMagic(block) && flags % 2 == 0
    requires WordAt(block, 8) == flags && WordAt(block, 12) == addr && WordAt(block, 16) == PAYLOAD && WordAt(block, 28) == fam
    ensures ReadBlock(r, wanted, block, last) == TakePayload(r, wanted, flags, addr, fam, block[32..32 + PAYLOAD], last)
  {
    hide WordAt, TakePayload;
  }

  lemma ReadsOwnBlock(x: seq<byte>, base: word, family: word, start: word, k: nat, last: bool)
    requires Fits(|x|, base) && k < Blocks(|x|)
    ensures ReadBlock(After(x, base, family, start, k), family, BlockFor(x, base, family, k), last)
         == Ok(After(x, base, family, start, k + 1))
  {
    assert FlagsFor(family) % 2 == 0;
    hide WordAt, BlockFor, Padded, HasFamily, FlagsFor, TakePayload, After, ReadBlock;
    var block, addr := BlockFor(x, base, family, k), base + PAYLOAD * k;
    BlockFields(x, base, family, k);
    ReadsByTaking(After(x, base, family, start, k), family, block, last, FlagsFor(family), addr, family);
    TakesOwnPayload(x, base, family, start, k, addr, block[32..32 + PAYLOAD], last);
  }

  lemma {:induction false} ReadsOwnBlocks(x: seq<byte>, base: word, family: word, start: word, n: nat)
    requires Fits(|x|, base) && n <= Blocks(|x|)
    ensures ReadBlocks(File(x, base, family, Blocks(|x|)), family, start, n) == Ok(After(x, base, family, start, n))
  {
    hide BlockFor, ReadBlock, Padded;
    if n > 0 {
      ReadsOwnBlocks(x, base, family, start, n - 1);
      BlockOfFile(x, base, family, Blocks(|x|), n - 1);
      ReadsOwnBlock(x, base, family, start, n - 1, n == Blocks(|x|));
    }
  }

  /**
   Converting to UF2 and back gives the input filled up with zeros to a multiple of 256, for
   every input, base address and family; for a non-empty input the base comes back too.
   */
  lemma RoundTrip(x: seq<byte>, base: word, family: word, start: word)
    requires Fits(|x|, base)
    ensures var file := File(x, base, family, Blocks(|x|)); var d := ReadBlocks(file, family, start, |file| / BLOCK);
            d.Ok? && d.value.out == Padded(x) && d.value.start == (if x == [] then start else base)
  {
    ReadsOwnBlocks(x, base, family, start, Blocks(|x|));
    hide ReadBlocks, File;
    assert |File(x, base, family, Blocks(|x|))| / BLOCK == Blocks(|x|);
    assert Padded(x)[..PAYLOAD * Blocks(|x|)] == Padded(x);
    if x == [] {
      assert Padded(x) == [];
    }
  }

  // ---------------------------------------------------------------------------
  // Where the reader puts what it reads
  // ---------------------------------------------------------------------------

  /** A flashable block of one family. */
  datatype Piece = Piece(flags: word, addr: word, payload: seq<byte>)

  /** The reader after blocks that are not the file's last. */
  function TakeAll(wanted: word, start: word, fam: word, ps: seq<Piece>): Result<Reader> {
    if ps == [] then Ok(Reader(None, None, map[], [], start))
    else
      var r, p := TakeAll(wanted, start, fam, ps[..|ps| - 1]), ps[|ps| - 1];
      if r.Error? then Error else TakePayload(r.value, wanted, p.flags, p.addr, fam, p.payload, false)
  }

  /** Byte j of the output lies in the payload of block k. */
  predicate Within(ps: seq<Piece>, k: nat, j: int)
    requires k < |ps|
  {
    0 <= j - (ps[k].addr - ps[0].addr) < |ps[k].payload|
  }

  ghost predicate Filled(ps: seq<Piece>, j: int) { exists k :: 0 <= k < |ps| && Within(ps, k, j) }

  /** The memory image the blocks describe: every payload at its address, zeros between them. */
  ghost predicate IsImage(out: seq<byte>, ps: seq<Piece>)
    requires ps != []
  {
    var last := ps[|ps| - 1];
    && |out| == last.addr + |last.payload| - ps[0].addr
    && (forall k, j :: 0 <= k < |ps| && Within(ps, k, j) ==> 0 <= j < |out| && out[j] == ps[k].payload[j - (ps[k].addr - ps[0].addr)])
    && (forall j :: 0 <= j < |out| && !Filled(ps, j) ==> out[j] == 0)
  }

  /** What one more block of the family does to the output. */
  lemma TakesPiece(r: Reader, wanted: word, fam: word, p: Piece)
    requires TakePayload(r, wanted, p.flags, p.addr, fam, p.payload, false).Ok?
    requires r.curr.Some? ==> r.family == Some(fam)
    ensures var t := TakePayload(r, wanted, p.flags, p.addr, fam, p.payload, false).value;
            var gap := if r.curr.None? then 0 else p.addr - r.curr.value;
            && t.curr == Some(p.addr + |p.payload|) && t.family == Some(fam) && 0 <= gap <= 0xA0_0000 && gap % 4 == 0
            && t.out == r.out + Zeros(gap) +
                 (if wanted == 0 || (p.flags / 0x2000 % 2 == 1 && wanted == fam) then p.payload else [])
  {
    hide Found, Zeros;
    assert forall x: seq<byte> :: x + [] == x;
  }

  /** The reader stands behind the last of these blocks and has laid them all out. */
  ghost predicate Standing(r: Reader, fam: word, ps: seq<Piece>)
    requires ps != []
  {
    var last := ps[|ps| - 1];
    IsImage(r.out, ps) && r.curr == Some(last.addr + |last.payload|) && r.family == Some(fam) && ps[0].addr <= last.addr
  }

  /**
   The reader accepts ascending blocks of one family and lays them out as the memory image they
   describe, when it wants every family.
   */
  lemma ReadsImage(start: word, fam: word, ps: seq<Piece>)
    requires ps != [] && TakeAll(0, start, fam, ps).Ok?
    ensures IsImage(TakeAll(0, start, fam, ps).value.out, ps)
    ensures var last := ps[|ps| - 1];
            TakeAll(0, start, fam, ps[..|ps| - 1]).Ok? && TakeAll(0, start, fam, ps)
            == TakePayload(TakeAll(0, start, fam, ps[..|ps| - 1]).value, 0, last.flags, last.addr, fam, last.payload, true)
  {
    hide IsImage;
    AllStanding(start, fam, ps);
    OneFamilyFound(start, fam, ps[..|ps| - 1]);
    var last := ps[|ps| - 1];
    LastKeeps(TakeAll(0, start, fam, ps[..|ps| - 1]).value, fam, last);
  }

  lemma {:induction false} OneFamilyFound(start: word, fam: word, ps: seq<Piece>)
    requires TakeAll(0, start, fam, ps).Ok?
    ensures TakeAll(0, start, fam, ps).value.found.Keys <= {fam}
  {
    if ps != [] {
      OneFamilyFound(start, fam, ps[..|ps| - 1]);
      hide Zeros;
    }
  }

  /** The last block of a file of one family leaves what was read. */
  lemma LastKeeps(r: Reader, fam: word, p: Piece)
    requires r.found.Keys <= {fam}
    ensures TakePayload(r, 0, p.flags, p.addr, fam, p.payload, true) == TakePayload(r, 0, p.flags, p.addr, fam, p.payload, false)
  {
    hide Zeros;
    FoundOne(r.found, fam, p.addr);
    FoundOne(Located(r, 0, p.flags, p.addr, fam).found, fam, p.addr);
  }

  lemma FoundOne(found: map<word, word>, fam: word, addr: word)
    requires found.Keys <= {fam}
    ensures Found(found, fam, addr).Keys <= {fam} && |Found(found, fam, addr)| <= 1 && |found| <= 1
  {
    KeysBound(found, fam);
    KeysBound(Found(found, fam, addr), fam);
  }

  lemma KeysBound(found: map<word, word>, fam: word)
    ensures found.Keys <= {fam} ==> |found| <= 1
  {
    if found.Keys <= {fam} {
      SubsetSize(found.Keys, fam);
      assert |found| == |found.Keys|;
    }
  }

  lemma SubsetSize(s: set<word>, fam: word)
    requires s <= {fam}
    ensures |s| <= 1
  {
    assert s == {} || s == {fam};
  }

  lemma {:induction false} AllStanding(start: word, fam: word, ps: seq<Piece>)
    requires ps != [] && TakeAll(0, start, fam, ps).Ok?
    ensures Standing(TakeAll(0, start, fam, ps).value, fam, ps)
    decreases |ps|
  {
    hide *;
    if |ps| == 1 {
      assert ps == [ps[0]];
      FirstPiece(start, fam, ps[0]);
    } else {
      Unsnoc(ps);
      TakeMore(start, fam, ps[..|ps| - 1], ps[|ps| - 1]);
      AllStanding(start, fam, ps[..|ps| - 1]);
      NextPiece(TakeAll(0, start, fam, ps[..|ps| - 1]).value, fam, ps[..|ps| - 1], ps[|ps| - 1]);
    }
  }

  lemma Unsnoc(ps: seq<Piece>)
    requires |ps| > 1
    ensures ps == ps[..|ps| - 1] + [ps[|ps| - 1]] && ps[..|ps| - 1] != []
  {
  }

  lemma TakeMore(start: word, fam: word, ps: seq<Piece>, p: Piece)
    ensures var r := TakeAll(0, start, fam, ps);
            TakeAll(0, start, fam, ps + [p]) == if r.Error? then Error else TakePayload(r.value, 0, p.flags, p.addr, fam, p.payload, false)
  {
    hide TakePayload;
    assert (ps + [p])[..|ps|] == ps;
  }

  lemma FirstPiece(start: word, fam: word, p: Piece)
    requires TakeAll(0, start, fam, [p]).Ok?
    ensures Standing(TakeAll(0, start, fam, [p]).value, fam, [p])
  {
    var none := Reader(None, None, map[], [], start);
    assert [p][..0] == [] && TakeAll(0, start, fam, []) == Ok(none);
    hide TakePayload, Zeros, IsImage;
    TakesPiece(none, 0, fam, p);
    NothingBefore(p.payload);
    OneImage([p]);
  }

  lemma NothingBefore(payload: seq<byte>)
    ensures [] + Zeros(0) + payload == payload
  {
  }

  lemma NextPiece(r: Reader, fam: word, ps: seq<Piece>, p: Piece)
    requires ps != [] && Standing(r, fam, ps) && TakePayload(r, 0, p.flags, p.addr, fam, p.payload, false).Ok?
    ensures Standing(TakePayload(r, 0, p.flags, p.addr, fam, p.payload, false).value, fam, ps + [p])
  {
    hide TakePayload, IsImage, Zeros;
    TakesPiece(r, 0, fam, p);
    MoreImage(r.out, ps, p);
  }

  lemma OneImage(ps: seq<Piece>)
    requires |ps| == 1
    ensures IsImage(ps[0].payload, ps)
  {
    var out := ps[0].payload;
    forall k, j | 0 <= k < |ps| && Within(ps, k, j) ensures 0 <= j < |out| && out[j] == ps[k].payload[j - (ps[k].addr - ps[0].addr)] {
      assert k == 0;
    }
    forall j | 0 <= j < |out| ensures Filled(ps, j) {
      assert Within(ps, 0, j);
    }
  }

  lemma MoreImage(out: seq<byte>, ps: seq<Piece>, p: Piece)
    requires ps != [] && IsImage(out, ps)
    requires p.addr >= ps[|ps| - 1].addr + |ps[|ps| - 1].payload|
    ensures IsImage(out + Zeros(p.addr - (ps[|ps| - 1].addr + |ps[|ps| - 1].payload|)) + p.payload, ps + [p])
  {
    var all, gap := ps + [p], p.addr - (ps[|ps| - 1].addr + |ps[|ps| - 1].payload|);
    var t := out + Zeros(gap) + p.payload;
    assert |out| + gap == p.addr - ps[0].addr;
    forall k, j | 0 <= k < |all| && Within(all, k, j) ensures 0 <= j < |t| && t[j] == all[k].payload[j - (all[k].addr - all[0].addr)] {
      if k < |ps| {
        assert Within(ps, k, j);
      }
    }
    forall j | 0 <= j < |t| && !Filled(all, j) ensures t[j] == 0 {
      assert !Within(all, |ps|, j);
      forall k | 0 <= k < |ps| ensures !Within(ps, k, j) { assert !Within(all, k, j); }
      assert !Filled(ps, j);
    }
  }

  /** Blocks of a family that is not the wanted one leave nothing but the zeros between them. */
  lemma {:induction false} UnwantedLeavesZeros(wanted: word, start: word, fam: word, ps: seq<Piece>)
    requires wanted != 0 && wanted != fam && TakeAll(wanted, start, fam, ps).Ok?
    ensures var r := TakeAll(wanted, start, fam, ps).value;
            r.out == Zeros(|r.out|) && r.start == start && (ps != [] ==> r.curr.Some? && r.family == Some(fam))
  {
    if ps != [] {
      UnwantedLeavesZeros(wanted, start, fam, ps[..|ps| - 1]);
      var r := TakeAll(wanted, start, fam, ps[..|ps| - 1]).value;
      TakesPiece(r, wanted, fam, ps[|ps| - 1]);
      KeepsStart(r, wanted, fam, ps[|ps| - 1]);
      hide TakePayload;
    } else {
      assert [] == Zeros(0);
    }
  }

  lemma KeepsStart(r: Reader, wanted: word, fam: word, p: Piece)
    requires wanted != 0 && wanted != fam && TakePayload(r, wanted, p.flags, p.addr, fam, p.payload, false).Ok?
    ensures TakePayload(r, wanted, p.flags, p.addr, fam, p.payload, false).value.start == r.start
  {
    hide Found, Zeros, HasFamily;
  }

  /** A second family in the file leaves a reader that wants every family with nothing, at address zero. */
  lemma TwoFamiliesGiveNothing(r: Reader, flags: word, addr: word, fam: word, other: word, payload: seq<byte>)
    requires flags / 0x2000 % 2 == 1 && other in r.found && other != fam
    ensures var t := TakePayload(r, 0, flags, addr, fam, payload, true); t.Ok? ==> t.value.out == [] && t.value.start == 0
  {
    var found := Found(Located(r, 0, flags, addr, fam).found, fam, addr);
    assert {fam, other} <= found.Keys;
    TwoKeys(found, fam, other);
  }

  lemma TwoKeys(m: map<word, word>, a: word, b: word)
    requires a in m && b in m && a != b
    ensures |m| > 1
  {
    var two := {a, b};
    assert two <= m.Keys && |m.Keys - two| >= 0 && m.Keys == (m.Keys - two) + two;
  }

  /** The two methods in a row. */
  method ThereAndBack(tool: Converter, x: seq<byte>) returns (r: Result<seq<byte>>)
    modifies tool
    ensures r == if Fits(|x|, old(tool.appStart)) then Ok(Padded(x)) else Error
    ensures tool.appStart == old(tool.appStart) && tool.familyId == old(tool.familyId)
  {
    hide File, ReadBlocks, Padded;
    var uf2 := tool.ToUf2(x);
    if uf2.Error? { return Error; }
    RoundTrip(x, tool.appStart, tool.familyId, tool.appStart);
    r := tool.FromUf2(uf2.value);
  }
}
