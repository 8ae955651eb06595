/**
 The Arm debug port driver: a MEM-AP reached through cached SELECT and CSW registers, the
 word cache in front of memory reads, and the block writer that streams over an
 auto-increment address wrapping every 1 KB.
 */
module Adi {
  import opened Common
  import opened Bytes
  import opened ReadCache

  // ---------------------------------------------------------------------------
  // The target: one core's MEM-AP, as the architecture describes it.
  // ---------------------------------------------------------------------------

  /** The fields of SELECT: the access port, its register bank, and the debug port's own bank. */
  datatype Select = Select(ap: int, apBank: int, dpBank: int)

  /** The fields of CSW the driver varies: transfer size in bytes, and single auto-increment. */
  datatype Control = Control(size: int, increment: bool)

  const BYTES := Control(1, false)
  const HALVES := Control(2, false)
  const WORDS := Control(4, false)
  const WORD_STREAM := Control(4, true)

  datatype Port = Port(select: Select, csw: Control, tar: int, mem: Memory)

  /** A write to one of the three MEM-AP registers the driver uses. */
  datatype ApWord = Csw(control: Control) | Tar(addr: int) | Drw(data: word)

  /** SELECT addresses AP 0, bank 0: where CSW, TAR and DRW live. */
  predicate Addressed(p: Port) { p.select.ap == 0 && p.select.apBank == 0 }

  /** Where an access at TAR lands: transfers are aligned to their size. */
  function AccessBase(csw: Control, tar: int): int {
    if csw.size == 4 then tar - tar % 4 else if csw.size == 2 then tar - tar % 2 else tar
  }

  /** Single auto-increment touches only the low ten bits of TAR. */
  function NextTar(csw: Control, tar: int): int {
    if csw.increment then tar - tar % 1024 + (tar + csw.size) % 1024 else tar
  }

  /** The bytes a DRW write puts at TAR: each byte travels on the lane of its address. */
  function DrwBytes(csw: Control, tar: int, v: word): seq<byte> {
    var lanes := LanesOf(v);
    if csw.size == 4 then lanes
    else if csw.size == 2 then (if tar % 4 < 2 then lanes[..2] else lanes[2..])
    else [lanes[tar % 4]]
  }

  /** What the MEM-AP does with a register write that reaches it. */
  function OnMemAp(p: Port, w: ApWord): Port {
    match w
    case Csw(v) => p.(csw := v)
    case Tar(a) => p.(tar := a)
    case Drw(v) =>
      p.(mem := Store(p.mem, AccessBase(p.csw, p.tar), DrwBytes(p.csw, p.tar, v)), tar := NextTar(p.csw, p.tar))
  }

  /** The three transfers a driver without any cache would issue for one access. */
  function Access(p: Port, control: Control, addr: int, v: word): Port {
    OnMemAp(OnMemAp(OnMemAp(p, Csw(control)), Tar(addr)), Drw(v))
  }

  /** The increment gives the next word except at a 1 KB boundary, so it is just there that TAR must be rewritten. */
  lemma StreamAddress(addr: int)
    requires addr % 4 == 0
    ensures NextTar(WORD_STREAM, addr) == addr + 4 <==> (addr + 4) % 1024 != 0
  {
    var page, low := addr / 1024, addr % 1024;
    assert low % 4 == 0 by { assert addr == 4 * (256 * page) + low; }
    assert addr + 4 == 1024 * page + (low + 4);
    if low == 1020 {
      assert addr + 4 == 1024 * (page + 1);
    }
  }

  /** One DRW write of a word stream, whatever SELECT holds. */
  lemma DrwStores(p: Port, addr: int, v: word)
    requires p.csw == WORD_STREAM && p.tar == addr && addr % 4 == 0
    ensures forall s :: OnMemAp(p.(select := s), Drw(v))
                     == p.(select := s, mem := Store(p.mem, addr, LanesOf(v)), tar := NextTar(WORD_STREAM, addr))
  {
    hide Store, LanesOf, NextTar;
  }

  lemma LoadStored(m: Memory, addr: int, w: word)
    ensures LoadWord(Store(m, addr, LanesOf(w)), addr) == w
  {
    WordOfLanes(w);
  }

  class Target {
    var port: Port

    constructor (port: Port)
      ensures this.port == port
    {
      this.port := port;
    }
  }

  // ---------------------------------------------------------------------------
  // The block writer, as a function of its arguments.
  // ---------------------------------------------------------------------------

  /** Bytes written one and two at a time to reach a word boundary. */
  function HeadBytes(addr: int, count: int): int { Min(count, (4 - addr % 4) % 4) }

  /** From a word boundary: the block step does not advance the address, so a tail after it is lost. */
  function RestDelivered(count: int): int
    requires 0 <= count
  {
    if count < 4 then Max(count, 1) else count - count % 4
  }

  /** How many leading bytes of the source end up in memory; an empty request still writes one. */
  function DeliveredBytes(addr: int, count: int): int
    requires 0 <= count
  {
    var head := HeadBytes(addr, count);
    if 0 < count && head == count then count else head + RestDelivered(count - head)
  }

  /** Exactly which requests are delivered whole. */
  predicate Deliverable(addr: int, count: int)
    requires 0 <= count
  {
    var rest := count - HeadBytes(addr, count);
    0 < count && (rest < 4 || rest % 4 == 0)
  }

  /** A block write copies the whole source, whatever was in memory, exactly when it is Deliverable. */
  lemma BlockCopiesExactlyWhenDeliverable(addr: int, src: seq<byte>)
    ensures Deliverable(addr, |src|) <==>
            0 < |src| && forall m: Memory :: Store(m, addr, src[..DeliveredBytes(addr, |src|)]) == Store(m, addr, src)
  {
    if Deliverable(addr, |src|) {
      assert src[..DeliveredBytes(addr, |src|)] == src;
    } else if 0 < |src| {
      var n := DeliveredBytes(addr, |src|);
      var m: Memory := map[];
      assert addr + n !in Store(m, addr, src[..n]);
      assert addr + n in Store(m, addr, src);
    }
  }

  // ---------------------------------------------------------------------------
  // Single accesses put the expected bytes in memory.
  // ---------------------------------------------------------------------------

  function ShiftToLane(v: byte, addr: int): word {
    if addr % 4 == 0 then v
    else if addr % 4 == 1 then 0x100 * v
    else if addr % 4 == 2 then 0x1_0000 * v
    else 0x100_0000 * v
  }

  function ShiftToHalf(lo: byte, hi: byte, addr: int): word {
    if addr % 4 < 2 then lo + 0x100 * hi else 0x1_0000 * (lo + 0x100 * hi)
  }

  lemma ByteAccess(p: Port, addr: int, v: byte)
    ensures Access(p, BYTES, addr, ShiftToLane(v, addr)).mem == Store(p.mem, addr, [v])
  {
    var w := ShiftToLane(v, addr);
    assert LanesOf(w)[addr % 4] == v;
  }

  lemma HalfBytes(addr: int, lo: byte, hi: byte)
    requires addr % 2 == 0
    ensures DrwBytes(HALVES, addr, ShiftToHalf(lo, hi, addr)) == [lo, hi]
  {
    LanesOfWord(lo, hi, 0, 0);
    LanesOfWord(0, 0, lo, hi);
    assert ShiftToHalf(lo, hi, addr) == if addr % 4 < 2 then Word(lo, hi, 0, 0) else Word(0, 0, lo, hi);
    hide Word, LanesOf, ShiftToHalf;
  }

  lemma HalfAccess(p: Port, addr: int, lo: byte, hi: byte)
    requires addr % 2 == 0
    ensures Access(p, HALVES, addr, ShiftToHalf(lo, hi, addr)).mem == Store(p.mem, addr, [lo, hi])
  {
    HalfBytes(addr, lo, hi);
    AccessMem(p, HALVES, addr, ShiftToHalf(lo, hi, addr));
  }

  lemma AccessMem(p: Port, control: Control, addr: int, v: word)
    ensures Access(p, control, addr, v).mem == Store(p.mem, AccessBase(control, addr), DrwBytes(control, addr, v))
  {
  }

  lemma WordAccess(p: Port, addr: int, v: word)
    requires addr % 4 == 0
    ensures Access(p, WORDS, addr, v).mem == Store(p.mem, addr, LanesOf(v))
  {
  }

  // ---------------------------------------------------------------------------
  // The driver.
  // ---------------------------------------------------------------------------

  lemma WholeWords(count: int, words: int)
    requires 4 <= count && words == count - count % 4
    ensures words % 4 == 0 && 4 <= words <= count < words + 4 && RestDelivered(count) == words
  {
  }

  lemma HeadAligns(addr: int, count: int)
    requires 0 <= count
    ensures HeadBytes(addr, count) < count ==> (addr + HeadBytes(addr, count)) % 4 == 0
  {
  }

  lemma StoreNothing(m: Memory, addr: int)
    ensures Store(m, addr, []) == m
  {
  }

  /** The bytes of the tail are the block's own first bytes, already in place. */
  lemma TailIsThere(m: Memory, addr: int, src: seq<byte>, words: nat, tail: nat)
    requires tail <= words <= |src|
    ensures Store(Store(m, addr, src[..words]), addr, src[..tail]) == Store(m, addr, src[..words])
  {
    hide Store;
    assert src[..words][..tail] == src[..tail];
    StoreAgain(m, addr, src[..words], tail);
  }

  lemma StoreNextWord(m: Memory, start: int, src: seq<byte>, i: nat)
    requires i + 4 <= |src|
    ensures Store(Store(m, start, src[..i]), start + i, LanesOf(WordAt(src, i))) == Store(m, start, src[..i + 4])
  {
    hide Store, LanesOf, Word;
    LanesOfWord(src[i], src[i + 1], src[i + 2], src[i + 3]);
    StoreThenStore(m, start, src[..i], [src[i], src[i + 1], src[i + 2], src[i + 3]]);
    assert src[..i] + [src[i], src[i + 1], src[i + 2], src[i + 3]] == src[..i + 4];
  }

  /** The value both register caches start from: the all-ones SELECT no driver ever writes. */
  const UNKNOWN_SELECT := Select(255, 0xF0, 15)

  class Driver {
    const target: Target
    var selectCache: Select
    var cswCache: Option<Control>
    const memCache: array<CacheLine>
    var memCachePos: int
    var memCacheValid: bool

    ghost predicate SelectSynced()
      reads this, target
    {
      selectCache == UNKNOWN_SELECT || selectCache == target.port.select
    }

    /** The two register caches say what the target's registers hold, or that nobody knows. */
    ghost predicate Synced()
      reads this, target
    {
      && SelectSynced()
      && (cswCache == None || cswCache == Some(target.port.csw))
    }

    ghost predicate CacheShaped()
      reads this
    {
      memCache.Length == CACHE_SIZE && 0 <= memCachePos < CACHE_SIZE
    }

    /** Every word the read cache would serve is the word in memory. */
    ghost predicate Coherent()
      reads this, target, memCache
    {
      && CacheShaped()
      && (memCacheValid ==> forall i :: 0 <= i < CACHE_SIZE && memCache[i].addr < CACHEABLE_END ==>
            memCache[i].value == LoadWord(target.port.mem, memCache[i].addr))
    }

    constructor (target: Target)
      ensures this.target == target && Synced() && Coherent() && fresh(memCache)
    {
      this.target := target;
      selectCache, cswCache := UNKNOWN_SELECT, None;
      memCache := new CacheLine[CACHE_SIZE](i => CacheLine(NO_ADDR, 0));
      memCachePos, memCacheValid := 0, false;
    }

    /**
     Re-establish the link. Whatever happens on the wire, the register caches go back to
     unknown first, so a cache left wrong by a failed transfer is never used again.
     */
    method DpInit() returns (ok: bool)
      modifies this`selectCache, this`cswCache, target`port
      ensures Synced() && target.port.mem == old(target.port.mem)
    {
      selectCache, cswCache := UNKNOWN_SELECT, None;
      var select, csw, tar := *, *, *;
      target.port := Port(select, csw, tar, target.port.mem);
      ok := *;
    }

    /** One SWD write to SELECT: it may fail, and a failed one may or may not have landed. */
    method SwdWriteSelect(v: Select) returns (ok: bool)
      modifies target`port
      ensures target.port == old(target.port).(select := target.port.select)
      ensures ok ==> target.port.select == v
    {
      ok := *;
      var landed: bool := *;
      if ok || landed {
        target.port := target.port.(select := v);
      }
    }

    /** One SWD write to an AP register. It reaches the MEM-AP only if SELECT addresses it. */
    method SwdWriteAp(w: ApWord) returns (ok: bool)
      modifies target`port
      ensures var p := old(target.port); var done := if Addressed(p) then OnMemAp(p, w) else p;
              target.port == done || (!ok && target.port == p)
    {
      ok := *;
      var landed: bool := *;
      if (ok || landed) && Addressed(target.port) {
        target.port := OnMemAp(target.port, w);
      }
    }

    method DpSelectBank(bank: int) returns (ok: bool)
      requires SelectSynced() && 0 <= bank < 0xF
      modifies this`selectCache, target`port
      ensures target.port == old(target.port).(select := target.port.select)
      ensures ok ==> SelectSynced() && target.port.select.dpBank == bank
    {
      ok := true;
      if selectCache.dpBank != bank {
        selectCache := selectCache.(dpBank := bank);
        ok := SwdWriteSelect(selectCache);
      }
    }

    method ApSelectWithBank(ap: int, bank: int) returns (ok: bool)
      requires SelectSynced() && ap != UNKNOWN_SELECT.ap
      modifies this`selectCache, target`port
      ensures target.port == old(target.port).(select := target.port.select)
      ensures ok ==> selectCache == target.port.select && target.port.select.ap == ap && target.port.select.apBank == bank
    {
      ok := true;
      if ap != selectCache.ap || bank != selectCache.apBank {
        selectCache := Select(ap, bank, selectCache.dpBank);
        ok := SwdWriteSelect(selectCache);
      }
    }

    method ApWrite(w: ApWord) returns (ok: bool)
      requires SelectSynced()
      modifies this`selectCache, target`port
      ensures var p := old(target.port).(select := target.port.select);
              target.port == OnMemAp(p, w) || (!ok && target.port == p)
      ensures ok ==> selectCache == target.port.select && Addressed(target.port)
    {
      ok := ApSelectWithBank(0, 0);
      if !ok { return; }
      ok := SwdWriteAp(w);
    }

    method ApMemSetCsw(v: Control) returns (ok: bool)
      requires Synced()
      modifies this`selectCache, this`cswCache, target`port
      ensures target.port == old(target.port).(select := target.port.select, csw := target.port.csw)
      ensures ok ==> Synced() && cswCache == Some(v) && target.port.csw == v
    {
      ok := true;
      if cswCache != Some(v) {
        cswCache := Some(v);
        ok := ApWrite(Csw(v));
      }
    }

    /** CSW, TAR, DRW: the effect on the target is that of a driver that writes all three every time. */
    method MemWrite(control: Control, addr: int, v: word) returns (ok: bool)
      requires Synced()
      modifies this`selectCache, this`cswCache, target`port
      ensures ok ==> Synced() && target.port == Access(old(target.port).(select := target.port.select), control, addr, v)
      ensures ok || target.port.mem == old(target.port.mem) || target.port.mem == Access(old(target.port), control, addr, v).mem
    {
      ok := ApMemSetCsw(control);
      if !ok { return; }
      ok := ApWrite(Tar(addr));
      if !ok { return; }
      ok := ApWrite(Drw(v));
    }

    method MemWrite8(addr: int, v: byte) returns (ok: bool)
      requires Synced()
      modifies this`selectCache, this`cswCache, target`port
      ensures ok ==> Synced() && target.port.mem == Store(old(target.port.mem), addr, [v])
      ensures OnlyWithin(old(target.port.mem), target.port.mem, addr, addr + 1)
    {
      hide Access, Store, OnlyWithin, LanesOf, ShiftToLane, ShiftToHalf;
      OnlyWithinSelf(target.port.mem, addr, addr + 1);
      StoreStays(target.port.mem, addr, [v]);
      ByteAccess(target.port, addr, v);
      ok := MemWrite(BYTES, addr, ShiftToLane(v, addr));
      ByteAccess(old(target.port).(select := target.port.select), addr, v);
    }

    method MemWrite16(addr: int, lo: byte, hi: byte) returns (ok: bool)
      requires Synced() && addr % 2 == 0
      modifies this`selectCache, this`cswCache, target`port
      ensures ok ==> Synced() && target.port.mem == Store(old(target.port.mem), addr, [lo, hi])
      ensures OnlyWithin(old(target.port.mem), target.port.mem, addr, addr + 2)
    {
      hide Access, Store, OnlyWithin, LanesOf, ShiftToLane, ShiftToHalf;
      OnlyWithinSelf(target.port.mem, addr, addr + 2);
      StoreStays(target.port.mem, addr, [lo, hi]);
      HalfAccess(target.port, addr, lo, hi);
      ok := MemWrite(HALVES, addr, ShiftToHalf(lo, hi, addr));
      HalfAccess(old(target.port).(select := target.port.select), addr, lo, hi);
    }

    method MemWrite32(addr: int, v: word) returns (ok: bool)
      requires Synced() && addr % 4 == 0
      modifies this`selectCache, this`cswCache, target`port
      ensures ok ==> Synced() && target.port.mem == Store(old(target.port.mem), addr, LanesOf(v))
      ensures OnlyWithin(old(target.port.mem), target.port.mem, addr, addr + 4)
    {
      hide Access, Store, OnlyWithin, LanesOf, ShiftToLane, ShiftToHalf;
      OnlyWithinSelf(target.port.mem, addr, addr + 4);
      StoreStays(target.port.mem, addr, LanesOf(v));
      WordAccess(target.port, addr, v);
      ok := MemWrite(WORDS, addr, v);
      WordAccess(old(target.port).(select := target.port.select), addr, v);
    }

    // ----- the four-word read cache -----

    ghost function Lines(): Cache
      reads this, memCache
    {
      Cache(memCache[..], memCachePos, memCacheValid)
    }

    /** The cache and the memory behind it. */
    ghost function Seen(): View
      reads this, memCache, target
    {
      View(Lines(), target.port.mem)
    }

    /** addr is served from the cache. */
    ghost predicate Cached(addr: int)
      reads this, memCache
    {
      Hit(Lines(), addr)
    }

    /** The word the cache serves for addr. */
    ghost function Served(addr: int): word
      requires Cached(addr)
      reads this, memCache
    {
      Held(Lines(), addr)
    }

    method MemCacheFind(addr: int) returns (found: bool, v: word)
      requires CacheShaped()
      ensures found == Cached(addr)
      ensures found ==> v == Served(addr)
      ensures found && Coherent() ==> v == LoadWord(target.port.mem, addr)
    {
      v := 0;
      if addr >= CACHEABLE_END || !memCacheValid { return false, v; }
      for i := 0 to CACHE_SIZE
        invariant forall k :: 0 <= k < i ==> memCache[k].addr != addr
        invariant FirstLine(memCache[..], addr, 0) == FirstLine(memCache[..], addr, i)
      {
        if memCache[i].addr == addr {
          return true, memCache[i].value;
        }
      }
      return false, v;
    }

    method MemCacheAdd(addr: int, v: word)
      requires CacheShaped()
      modifies this`memCachePos, this`memCacheValid, memCache
      ensures CacheShaped() && Lines() == Added(old(Lines()), addr, v)
      ensures old(Coherent()) && v == LoadWord(target.port.mem, addr) ==> Coherent()
      ensures addr < CACHEABLE_END ==> Cached(addr)
    {
      hide LoadWord;
      if addr >= CACHEABLE_END { return; }
      if !memCacheValid {
        for i := 0 to CACHE_SIZE
          invariant forall k :: 0 <= k < i ==> memCache[k] == CacheLine(NO_ADDR, old(memCache[k]).value)
          invariant forall k :: i <= k < CACHE_SIZE ==> memCache[k] == old(memCache[k])
        {
          memCache[i] := CacheLine(NO_ADDR, memCache[i].value);
        }
        memCachePos := 0;
        memCacheValid := true;
      }
      ghost var lines := memCache[..];
      assert lines == if old(memCacheValid) then old(memCache[..]) else Emptied(old(memCache[..]));
      memCache[memCachePos] := CacheLine(addr, v);
      memCachePos := if memCachePos + 1 == CACHE_SIZE then 0 else memCachePos + 1;
    }

    method MemCacheInvalidate()
      requires CacheShaped()
      modifies this`memCacheValid
      ensures Coherent() && Seen() == Used(old(Seen()), Forgets)
    {
      memCacheValid := false;
    }

    /** Select, start the read, collect the word: the target keeps its state. */
    method ApReadDrw() returns (ok: bool, v: word)
      requires SelectSynced()
      modifies this`selectCache, target`port
      ensures target.port == old(target.port).(select := target.port.select)
      ensures ok ==> selectCache == target.port.select && v == LoadWord(target.port.mem, target.port.tar)
    {
      v := 0;
      ok := ApSelectWithBank(0, 0);
      if !ok { return; }
      ok := *;
      v := LoadWord(target.port.mem, target.port.tar);
    }

    /**
     A successful word read is the word in memory exactly when the address is not cached or its
     cached line holds that word; a coherent cache makes that always so.
     */
    method MemRead32(addr: int) returns (ok: bool, v: word)
      requires Synced() && CacheShaped() && addr % 4 == 0
      modifies this`selectCache, this`cswCache, this`memCachePos, this`memCacheValid, memCache, target`port
      ensures target.port.mem == old(target.port.mem)
      ensures CacheShaped() && (ok ==> Synced())
      ensures ok ==> v == Answer(old(Seen()), addr) && Seen() == Used(old(Seen()), Gets(addr))
      ensures !ok ==> Seen() == old(Seen())
      ensures old(Coherent()) ==> Coherent() && (ok ==> v == LoadWord(target.port.mem, addr))
      ensures old(Cached(addr)) ==> ok && v == old(Served(addr))
      ensures ok ==> (v == LoadWord(target.port.mem, addr) <==>
                      !old(Cached(addr)) || old(Served(addr)) == LoadWord(target.port.mem, addr))
      ensures ok && addr < CACHEABLE_END ==> Cached(addr)
    {
      ok, v := MemCacheFind(addr);
      if ok { return; }
      ok := ApMemSetCsw(WORDS);
      if !ok { return; }
      ok := ApWrite(Tar(addr));
      if !ok { return; }
      ok, v := ApReadDrw();
      if !ok { return; }
      MemCacheAdd(addr, v);
    }

    /**
     Writes do not invalidate the cache: after a read, a successful write and a second read,
     the second read repeats the first one. So it is the word in memory exactly when the
     write stored what was already there.
     */
    method ReadWriteRead(addr: int, w: word) returns (ok: bool, before: word, after: word)
      requires Synced() && Coherent() && addr % 4 == 0 && addr < CACHEABLE_END
      modifies this`selectCache, this`cswCache, this`memCachePos, this`memCacheValid, memCache, target`port
      ensures ok ==> before == old(LoadWord(target.port.mem, addr)) && after == before
      ensures ok ==> LoadWord(target.port.mem, addr) == w
      ensures ok ==> (after == LoadWord(target.port.mem, addr) <==> w == before)
    {
      hide Store, LoadWord, LanesOf;
      after := 0;
      ok, before := MemRead32(addr);
      if !ok { return; }
      ghost var m := target.port.mem;
      ok := MemWrite32(addr, w);
      if !ok { return; }
      LoadStored(m, addr, w);
      ok, after := MemRead32(addr);
    }

    // ----- streaming a block -----

    /**
     One DRW write of the stream, with the 1 KB fix-up: afterwards TAR is the next word again,
     although the hardware increment wrapped.
     */
    method StreamWord(addr: int, v: word) returns (ok: bool)
      requires SelectSynced() && addr % 4 == 0 && target.port.tar == addr
      requires cswCache == Some(WORD_STREAM) && target.port.csw == WORD_STREAM
      modifies this`selectCache, target`port
      ensures ok ==> SelectSynced() && target.port.tar == addr + 4 && target.port.csw == WORD_STREAM
      ensures ok ==> target.port.mem == Store(old(target.port.mem), addr, LanesOf(v))
      ensures OnlyWithin(old(target.port.mem), target.port.mem, addr, addr + 4)
    {
      StreamAddress(addr);
      DrwStores(target.port, addr, v);
      OnlyWithinSelf(target.port.mem, addr, addr + 4);
      StoreStays(target.port.mem, addr, LanesOf(v));
      hide Store, OnlyWithin, LanesOf, NextTar, DrwBytes, AccessBase;
      ok := ApWrite(Drw(v));
      if !ok { return; }
      if (addr + 4) % 1024 == 0 {
        ok := ApWrite(Tar(addr + 4));
      }
    }

    /** Set up the stream: auto-increment words starting at addr. */
    method StreamStart(addr: int) returns (ok: bool)
      requires Synced()
      modifies this`selectCache, this`cswCache, target`port
      ensures target.port.mem == old(target.port.mem)
      ensures ok ==> SelectSynced() && target.port.tar == addr && cswCache == Some(WORD_STREAM) && target.port.csw == WORD_STREAM
    {
      ok := ApMemSetCsw(WORD_STREAM);
      if !ok { return; }
      ok := ApWrite(Tar(addr));
    }

    /** The first i bytes of the source have been streamed over m0 and TAR is at the next word. */
    ghost predicate Streaming(m0: Memory, start: int, src: seq<byte>, i: int)
      reads this, target
    {
      && SelectSynced() && target.port.tar == start + i
      && cswCache == Some(WORD_STREAM) && target.port.csw == WORD_STREAM
      && 0 <= i <= |src| && target.port.mem == Store(m0, start, src[..i])
    }

    /** The word at index i of a block, after everything before it has been streamed over m0. */
    method StreamStep(start: int, length: int, src: seq<byte>, i: int, v: word, ghost m0: Memory) returns (ok: bool)
      requires (start + i) % 4 == 0 && 0 <= i && i + 4 <= length <= |src| && v == WordAt(src, i)
      requires Streaming(m0, start, src, i)
      modifies this`selectCache, target`port
      ensures ok ==> Streaming(m0, start, src, i + 4)
      ensures OnlyWithin(m0, target.port.mem, start, start + length)
    {
      ghost var m := target.port.mem;
      ok := StreamWord(start + i, v);
      StoreNextWord(m0, start, src, i);
      StoreStays(m0, start, src[..i]);
      OnlyWithinTrans(m0, m, target.port.mem, start, start + i, start + i, start + i + 4, start, start + length);
    }

    method MemWriteBlockAligned(start: int, length: int, src: seq<byte>) returns (ok: bool)
      requires Synced() && start % 4 == 0 && length % 4 == 0 && 0 <= length <= |src|
      modifies this`selectCache, this`cswCache, target`port
      ensures ok ==> Synced() && target.port.mem == Store(old(target.port.mem), start, src[..length])
      ensures OnlyWithin(old(target.port.mem), target.port.mem, start, start + length)
    {
      hide Store;
      ok := StreamStart(start);
      if !ok { return; }
      var addr, words, i := start, length / 4, 0;
      ghost var m0 := target.port.mem;
      StoreNothing(m0, start);
      while words > 0
        invariant 0 <= i && 0 <= words && i + 4 * words == length && addr == start + i && addr % 4 == 0
        invariant Streaming(m0, start, src, i)
      {
        var v := WordAt(src, i);
        ok := StreamStep(start, length, src, i, v, m0);
        if !ok { return; }
        words, addr, i := words - 1, addr + 4, i + 4;
      }
      StoreStays(m0, start, src[..length]);
    }

    method MemWriteBlockUnaligned(start: int, length: int, src: seq<byte>) returns (ok: bool)
      requires Synced() && start % 4 == 0 && length % 4 == 0 && 0 <= length <= |src|
      modifies this`selectCache, this`cswCache, target`port
      ensures ok ==> Synced() && target.port.mem == Store(old(target.port.mem), start, src[..length])
      ensures OnlyWithin(old(target.port.mem), target.port.mem, start, start + length)
    {
      hide Store;
      ok := StreamStart(start);
      if !ok { return; }
      var addr, words, i := start, length / 4, 0;
      ghost var m0 := target.port.mem;
      StoreNothing(m0, start);
      while words > 0
        invariant 0 <= i && 0 <= words && i + 4 * words == length && addr == start + i && addr % 4 == 0
        invariant Streaming(m0, start, src, i)
      {
        var v: word := src[i];
        v := v + 0x100 * (src[i + 1] as int);
        v := v + 0x1_0000 * (src[i + 2] as int);
        v := v + 0x100_0000 * (src[i + 3] as int);
        ok := StreamStep(start, length, src, i, v, m0);
        if !ok { return; }
        words, addr, i := words - 1, addr + 4, i + 4;
      }
      StoreStays(m0, start, src[..length]);
    }

    /** Up to three bytes, one and two at a time, until the address is a word boundary. */
    method WriteHead(start: int, total: int, src: seq<byte>) returns (ok: bool, p: int)
      requires Synced() && 0 <= total <= |src|
      modifies this`selectCache, this`cswCache, target`port
      ensures 0 <= p <= total
      ensures ok ==> p == HeadBytes(start, total)
      ensures ok ==> Synced() && target.port.mem == Store(old(target.port.mem), start, src[..p])
      ensures OnlyWithin(old(target.port.mem), target.port.mem, start, start + total)
    {
      hide Store;
      ghost var m0 := target.port.mem;
      var addr, count := start, total;
      ok, p := true, 0;
      StoreNothing(m0, start);
      if addr % 2 == 1 && count > 0 {
        ok := MemWrite8(addr, src[0]);
        if !ok { return; }
        assert [src[0]] == src[..1];
        addr, count, p := addr + 1, count - 1, 1;
      }
      StoreStays(m0, start, src[..p]);
      if addr % 4 >= 2 && count > 0 {
        ghost var m1 := target.port.mem;
        if count == 1 {
          ok := MemWrite8(addr, src[p]);
          assert [src[p]] == src[p..p + 1];
          OnlyWithinTrans(m0, m1, target.port.mem, start, start + p, addr, addr + 1, start, start + total);
          StoreMore(m0, start, src, p, 1);
          p := p + 1;
          return;
        }
        ok := MemWrite16(addr, src[p], src[p + 1]);
        assert [src[p], src[p + 1]] == src[p..p + 2];
        OnlyWithinTrans(m0, m1, target.port.mem, start, start + p, addr, addr + 2, start, start + total);
        StoreMore(m0, start, src, p, 2);
        p := p + 2;
      }
    }

    /** The last one to three bytes: written at addr, which the block step has not moved. */
    method WriteTail(addr: int, count: int, src: seq<byte>) returns (ok: bool)
      requires Synced() && 0 <= count < 4 && Max(count, 1) <= |src| && (count >= 2 ==> addr % 2 == 0)
      modifies this`selectCache, this`cswCache, target`port
      ensures ok ==> Synced() && target.port.mem == Store(old(target.port.mem), addr, src[..Max(count, 1)])
      ensures OnlyWithin(old(target.port.mem), target.port.mem, addr, addr + Max(count, 1))
    {
      hide Store, OnlyWithin;
      ghost var m0 := target.port.mem;
      if count < 2 {
        ok := MemWrite8(addr, src[0]);
        assert [src[0]] == src[..1];
        return;
      }
      ok := MemWrite16(addr, src[0], src[1]);
      assert [src[0], src[1]] == src[..2];
      if count == 2 { return; }
      ghost var m1 := target.port.mem;
      OnlyWithinSelf(m1, addr, addr + 3);
      OnlyWithinTrans(m0, m1, m1, addr, addr + 2, addr, addr + 3, addr, addr + 3);
      if !ok { return; }
      ok := MemWrite8(addr + 2, src[2]);
      assert [src[2]] == src[2..3];
      OnlyWithinTrans(m0, m1, target.port.mem, addr, addr + 2, addr + 2, addr + 3, addr, addr + 3);
      StoreMore(m0, addr, src, 2, 1);
    }

    /** The word block, straight from an aligned source or assembled byte by byte. */
    method WriteWords(addr: int, words: int, src: seq<byte>, aligned: bool) returns (ok: bool)
      requires Synced() && addr % 4 == 0 && words % 4 == 0 && 0 <= words <= |src|
      modifies this`selectCache, this`cswCache, target`port
      ensures ok ==> Synced() && target.port.mem == Store(old(target.port.mem), addr, src[..words])
      ensures OnlyWithin(old(target.port.mem), target.port.mem, addr, addr + words)
    {
      if aligned {
        ok := MemWriteBlockAligned(addr, words, src);
      } else {
        ok := MemWriteBlockUnaligned(addr, words, src);
      }
    }

    /** Four bytes or more: the word block, then the tail that overwrites the block's first bytes. */
    method WriteBlockAndTail(addr: int, count: int, src: seq<byte>, aligned: bool) returns (ok: bool)
      requires Synced() && 4 <= count <= |src| && addr % 4 == 0
      modifies this`selectCache, this`cswCache, target`port
      ensures ok ==> Synced() && target.port.mem == Store(old(target.port.mem), addr, src[..RestDelivered(count)])
      ensures OnlyWithin(old(target.port.mem), target.port.mem, addr, addr + count)
    {
      hide Store, OnlyWithin, LanesOf, Word;
      ghost var m0 := target.port.mem;
      var words := count - count % 4;
      var tail := count - words;
      WholeWords(count, words);
      hide RestDelivered;
      ok := WriteWords(addr, words, src, aligned);
      ghost var m1 := target.port.mem;
      OnlyWithinSelf(m1, addr, addr);
      OnlyWithinTrans(m0, m1, m1, addr, addr + words, addr, addr, addr, addr + count);
      if !ok || tail == 0 { return; }
      ok := WriteTail(addr, tail, src);
      TailIsThere(m0, addr, src, words, tail);
      OnlyWithinTrans(m0, m1, target.port.mem, addr, addr + words, addr, addr + tail, addr, addr + count);
    }

    /** From a word boundary on. */
    method WriteRest(addr: int, count: int, src: seq<byte>, aligned: bool) returns (ok: bool)
      requires Synced() && 0 <= count && Max(count, 1) <= |src| && (count >= 2 ==> addr % 4 == 0)
      modifies this`selectCache, this`cswCache, target`port
      ensures ok ==> Synced() && target.port.mem == Store(old(target.port.mem), addr, src[..RestDelivered(count)])
      ensures OnlyWithin(old(target.port.mem), target.port.mem, addr, addr + Max(count, 1))
    {
      hide Store, OnlyWithin;
      if count < 4 {
        ok := WriteTail(addr, count, src);
        return;
      }
      hide RestDelivered;
      ok := WriteBlockAndTail(addr, count, src, aligned);
    }

    /**
     Copy `total` bytes of src to the target's memory. A successful return copies a prefix
     of the source, and nothing else changes even if a transfer fails half way.
     */
    method MemWriteBlock(start: int, total: int, src: seq<byte>, srcAddr: int) returns (ok: bool)
      requires Synced() && 0 <= total && Max(total, 1) <= |src|
      modifies this`selectCache, this`cswCache, target`port
      ensures ok ==> Synced() && target.port.mem == Store(old(target.port.mem), start, src[..DeliveredBytes(start, total)])
      ensures OnlyWithin(old(target.port.mem), target.port.mem, start, start + Max(total, 1))
    {
      hide Store, OnlyWithin;
      ghost var m0 := target.port.mem;
      var p;
      ok, p := WriteHead(start, total, src);
      ghost var m1 := target.port.mem;
      OnlyWithinSelf(m1, start, start);
      OnlyWithinTrans(m0, m1, m1, start, start + total, start, start, start, start + Max(total, 1));
      if !ok || (0 < total && p == total) { return; }
      HeadAligns(start, total);
      var count, rest := total - p, src[p..];
      ok := WriteRest(start + p, count, rest, (srcAddr + p) % 4 == 0);
      assert rest[..RestDelivered(count)] == src[p..p + RestDelivered(count)];
      StoreMore(m0, start, src, p, RestDelivered(count));
      OnlyWithinTrans(m0, m1, target.port.mem, start, start + total, start + p, start + p + Max(count, 1),
                      start, start + Max(total, 1));
    }
  }
}
