/**
 The pad configuration's flash sector: 16 page-sized slots written one after another, the
 newest told by its sequence number, the whole sector erased when no slot is left.
 */
module PadJournal {
  import opened Common
  import opened Bytes
  import opened FlashTarget

  const PAGE := 256
  const SLOTS := 16
  const HEADER := 8
  const MAGIC: word := 0x5041_4443
  const EMPTY: word := 0xFFFF_FFFF

  type Page = p: seq<byte> | |p| == PAGE witness seq(PAGE, _ => 0)

  /** Flash and the sequence counter kept in memory. */
  datatype Journal = Journal(slots: seq<Page>, sequence: word)

  predicate Shaped(j: Journal) { |j.slots| == SLOTS }

  function BlankPage(): Page { seq<byte>(PAGE, _ => BLANK) }

  function BlankSector(): (r: seq<Page>)
    ensures |r| == SLOTS && forall i :: 0 <= i < SLOTS ==> r[i] == BlankPage()
  {
    seq<Page>(SLOTS, _ => BlankPage())
  }

  /** Programming a page clears bits and cannot set any. */
  function PageProgrammed(cells: Page, data: Page): Page {
    seq<byte>(PAGE, i requires 0 <= i < PAGE => And(cells[i], data[i]))
  }

  function Magic(p: Page): word { WordAt(p, 0) }
  function Sequence(p: Page): word { WordAt(p, 4) }
  function Body(p: Page): seq<byte> { p[HEADER..] }

  predicate Live(p: Page) { Magic(p) == MAGIC && Sequence(p) != EMPTY }

  /** The page a save writes: the caller's bytes under a fresh header. */
  function Record(config: Page, sequence: word): Page { LanesOf(MAGIC) + LanesOf(sequence) + Body(config) }

  // ---------------------------------------------------------------------------
  // Slot searches
  // ---------------------------------------------------------------------------

  /** The live slot with the highest sequence among the first n, the first of equals; -1 if none is live. */
  function Newest(slots: seq<Page>, n: int): (r: int)
    requires 0 <= n <= |slots|
    ensures -1 <= r < n
    ensures r >= 0 ==> Live(slots[r])
  {
    if n == 0 then -1
    else
      var r := Newest(slots, n - 1);
      if Live(slots[n - 1]) && (r == -1 || Sequence(slots[n - 1]) > Sequence(slots[r])) then n - 1 else r
  }

  /** The first slot from n on whose sequence field is erased; -1 if there is none. */
  function FirstEmpty(slots: seq<Page>, n: int): (r: int)
    requires 0 <= n <= |slots|
    ensures r == -1 || n <= r < |slots|
    decreases |slots| - n
  {
    if n == |slots| then -1 else if Sequence(slots[n]) == EMPTY then n else FirstEmpty(slots, n + 1)
  }

  // ---------------------------------------------------------------------------
  // The operations on values
  // ---------------------------------------------------------------------------

  function Next(sequence: word): word { (sequence + 1) % 0x1_0000_0000 }

  /** Flash when a save reaches its write: the sector has been erased if it was full. */
  function Readied(slots: seq<Page>): (r: seq<Page>)
    requires |slots| == SLOTS
    ensures |r| == SLOTS
  {
    if FirstEmpty(slots, 0) == -1 then BlankSector() else slots
  }

  function Saved(j: Journal, config: Page): (r: Journal)
    requires Shaped(j)
    ensures Shaped(r)
  {
    var e := FirstEmpty(j.slots, 0);
    var at := if e == -1 then 0 else e;
    var slots := Readied(j.slots);
    Journal(slots[at := PageProgrammed(slots[at], Record(config, Next(j.sequence)))], Next(j.sequence))
  }

  function Loaded(j: Journal): Option<Page>
    requires Shaped(j)
  {
    var n := Newest(j.slots, SLOTS);
    if n == -1 then None else Some(j.slots[n])
  }

  function AfterLoad(j: Journal): (r: Journal)
    requires Shaped(j)
    ensures Shaped(r)
  {
    var p := Loaded(j);
    if p.None? then j else j.(sequence := Sequence(p.value))
  }

  /** After a restart the counter is taken from flash. */
  function Restarted(slots: seq<Page>): (r: Journal)
    requires |slots| == SLOTS
    ensures Shaped(r)
  {
    AfterLoad(Journal(slots, 0))
  }

  function Wiped(): Journal { Journal(BlankSector(), 0) }

  // ---------------------------------------------------------------------------
  // The driver
  // ---------------------------------------------------------------------------

  class PadStorage {
    const slots: array<Page>
    var sequence: word

    ghost predicate Valid()
      reads this
    {
      slots.Length == SLOTS
    }

    ghost function Abs(): (j: Journal)
      requires Valid()
      reads this, slots
      ensures Shaped(j)
    {
      Journal(slots[..], sequence)
    }

    /** A device powering up with the given flash; Init reads the counter. */
    constructor (flash: seq<Page>)
      requires |flash| == SLOTS
      ensures Valid() && fresh(slots) && Abs() == Journal(flash, 0)
    {
      slots := new Page[SLOTS](i requires 0 <= i < SLOTS => flash[i]);
      sequence := 0;
    }

    method FindNewest() returns (newest: int)
      requires Valid()
      ensures newest == Newest(Abs().slots, SLOTS)
    {
      hide Live, Sequence;
      newest := -1;
      var highest: word := 0;
      ghost var all := slots[..];
      for i := 0 to SLOTS
        invariant newest == Newest(all, i)
        invariant newest >= 0 ==> highest == Sequence(all[newest])
      {
        assert slots[i] == all[i];
        var isLive := IsLive(slots[i]);
        if isLive {
          var s := SequenceOf(slots[i]);
          if newest == -1 || s > highest {
            highest := s;
            newest := i;
          }
        }
      }
    }

    method FindEmpty() returns (slot: int)
      requires Valid()
      ensures slot == FirstEmpty(Abs().slots, 0)
    {
      hide Sequence;
      ghost var all := slots[..];
      for i := 0 to SLOTS
        invariant FirstEmpty(all, 0) == FirstEmpty(all, i)
      {
        assert slots[i] == all[i];
        var s := SequenceOf(slots[i]);
        if s == EMPTY { return i; }
      }
      slot := -1;
    }

    static method IsLive(p: Page) returns (b: bool)
      ensures b == Live(p)
    {
      b := Magic(p) == MAGIC && Sequence(p) != EMPTY;
    }

    static method SequenceOf(p: Page) returns (s: word)
      ensures s == Sequence(p)
    {
      s := Sequence(p);
    }

    method WritePage(slot: int, config: Page)
      requires Valid() && 0 <= slot < SLOTS
      modifies slots
      ensures Abs().slots == old(Abs().slots)[slot := PageProgrammed(old(Abs().slots)[slot], config)]
    {
      slots[slot] := PageProgrammed(slots[slot], config);
    }

    method EraseSector()
      requires Valid()
      modifies slots
      ensures Abs().slots == BlankSector()
    {
      for i := 0 to SLOTS
        invariant forall k :: 0 <= k < i ==> slots[k] == BlankPage()
      {
        slots[i] := BlankPage();
      }
    }

    method Init()
      requires Valid()
      modifies this`sequence
      ensures Abs() == Restarted(old(Abs()).slots)
    {
      var newest := FindNewest();
      if newest >= 0 {
        sequence := SequenceOf(slots[newest]);
      } else {
        sequence := 0;
      }
    }

    method Load() returns (r: Option<Page>)
      requires Valid()
      modifies this`sequence
      ensures r == Loaded(old(Abs())) && Abs() == AfterLoad(old(Abs()))
    {
      var newest := FindNewest();
      if newest < 0 { return None; }
      r := Some(slots[newest]);
      sequence := SequenceOf(slots[newest]);
    }

    method Save(config: Page)
      requires Valid()
      modifies this`sequence, slots
      ensures Abs() == Saved(old(Abs()), config)
    {
      hide Record, PageProgrammed, BlankPage;
      sequence := (sequence + 1) % 0x1_0000_0000;
      var data := Record(config, sequence);
      var slot := FindEmpty();
      if slot < 0 {
        EraseSector();
        slot := 0;
      }
      WritePage(slot, data);
    }

    method Erase()
      requires Valid()
      modifies this`sequence, slots
      ensures Abs() == Wiped()
    {
      EraseSector();
      sequence := 0;
    }
  }

  // ---------------------------------------------------------------------------
  // What the journal means
  // ---------------------------------------------------------------------------

  /** The simple thing the journal stands for: one optional value, the slots in use, and saves since an erase. */
  datatype Cell = Cell(value: Option<seq<byte>>, used: nat, saves: nat)

  /**
   The first c.used slots are live with strictly increasing sequence numbers, the rest is
   erased, and the newest is the last one written.
   */
  predicate Means(j: Journal, c: Cell) {
    && Shaped(j) && c.used <= SLOTS && c.saves < EMPTY && j.sequence == c.saves
    && (forall i :: 0 <= i < c.used ==> Live(j.slots[i]))
    && (forall i :: c.used <= i < SLOTS ==> j.slots[i] == BlankPage())
    && (forall i, k :: 0 <= i < k < c.used ==> Sequence(j.slots[i]) < Sequence(j.slots[k]))
    && (c.used == 0 ==> c.saves == 0)
    && (c.used > 0 ==> Sequence(j.slots[c.used - 1]) == c.saves)
    && c.value == (if c.used == 0 then None else Some(Body(j.slots[c.used - 1])))
  }

  lemma RecordFields(config: Page, sequence: word)
    ensures var r := Record(config, sequence); Magic(r) == MAGIC && Sequence(r) == sequence && Body(r) == Body(config)
  {
    var r := Record(config, sequence);
    assert r[0..4] == LanesOf(MAGIC) && r[4..8] == LanesOf(sequence);
    hide LanesOf, WordAt;
    PackedReadsBack(MAGIC, r, 0);
    PackedReadsBack(sequence, r, 4);
  }

  /** The bytes of a record: the magic "CDAP", the sequence number low byte first, the caller's bytes from 8 on. */
  lemma RecordBytes(config: Page, sequence: word)
    ensures var r := Record(config, sequence);
            && |r| == 256 && r[0..4] == [0x43, 0x44, 0x41, 0x50] && r[8..256] == config[8..256]
            && r[4] as int + 0x100 * r[5] as int + 0x1_0000 * r[6] as int + 0x100_0000 * r[7] as int == sequence
  {
    MagicLanes();
    WordOfLanes(sequence);
    assert Record(config, sequence) == LanesOf(MAGIC) + LanesOf(sequence) + config[8..];
    hide *;
    ThreeParts(LanesOf(MAGIC), LanesOf(sequence), config[8..]);
  }

  lemma MagicLanes()
    ensures LanesOf(MAGIC) == [0x43, 0x44, 0x41, 0x50]
  {
  }

  lemma ThreeParts(x: seq<byte>, y: seq<byte>, z: seq<byte>)
    requires |x| == 4 && |y| == 4
    ensures var r := x + y + z;
            && r[0..4] == x && r[4] == y[0] && r[5] == y[1] && r[6] == y[2] && r[7] == y[3]
            && |r| == 8 + |z| && r[8..|r|] == z
  {
  }

  lemma BlankFields()
    ensures Sequence(BlankPage()) == EMPTY && !Live(BlankPage())
  {
    var p := BlankPage();
    assert p[4] == BLANK && p[5] == BLANK && p[6] == BLANK && p[7] == BLANK;
  }

  /** Programming an erased page leaves exactly the record. */
  lemma BlankTakesRecord(data: Page)
    ensures PageProgrammed(BlankPage(), data) == data
  {
    hide And;
    AndBlank();
    var p := PageProgrammed(BlankPage(), data);
    forall i | 0 <= i < PAGE ensures p[i] == data[i] {
      assert p[i] == And(BLANK, data[i]);
    }
  }

  lemma {:induction false} NewestIsLast(j: Journal, c: Cell, n: int)
    requires Means(j, c) && 0 <= n <= SLOTS
    ensures Newest(j.slots, n) == Min(n, c.used) - 1
  {
    hide Live, Sequence, BlankPage, Body;
    if n > 0 {
      NewestIsLast(j, c, n - 1);
      BlankFields();
    }
  }

  lemma {:induction false} FirstEmptyIsNext(j: Journal, c: Cell, n: int)
    requires Means(j, c) && 0 <= n <= c.used
    ensures FirstEmpty(j.slots, n) == if c.used == SLOTS then -1 else c.used
    decreases c.used - n
  {
    if n < c.used {
      assert Live(j.slots[n]);
      FirstEmptyIsNext(j, c, n + 1);
    } else {
      BlankFields();
    }
  }

  /** Loading returns the value the journal stands for. */
  lemma LoadsValue(j: Journal, c: Cell)
    requires Means(j, c)
    ensures c.value.None? ==> Loaded(j).None?
    ensures c.value.Some? ==> Loaded(j).Some? && Body(Loaded(j).value) == c.value.value && Sequence(Loaded(j).value) == c.saves
    ensures AfterLoad(j) == j && Restarted(j.slots) == j
  {
    NewestIsLast(j, c, SLOTS);
  }

  lemma WipedMeans()
    ensures Means(Wiped(), Cell(None, 0, 0))
  {
  }

  function CellSaved(c: Cell, config: Page): Cell {
    Cell(Some(Body(config)), if c.used == SLOTS then 1 else c.used + 1, c.saves + 1)
  }

  /** The slot a save takes, and flash before its write. */
  lemma SaveSlot(j: Journal, c: Cell, config: Page)
    requires Means(j, c)
    ensures var used := if c.used == SLOTS then 0 else c.used;
            && Readied(j.slots)[used] == BlankPage()
            && Saved(j, config) == Journal(Readied(j.slots)[used := Record(config, c.saves + 1)], c.saves + 1)
  {
    hide Record, PageProgrammed, BlankPage, Live, Sequence, Magic, Body, FirstEmpty, Newest, And;
    FirstEmptyIsNext(j, c, 0);
    BlankTakesRecord(Record(config, c.saves + 1));
  }

  lemma SavedMeans(j: Journal, c: Cell, config: Page)
    requires Means(j, c) && c.saves + 1 < EMPTY
    ensures Means(Saved(j, config), CellSaved(c, config))
  {
    hide Sequence, Magic, Body, BlankPage, Record, Saved, FirstEmpty, Newest, PageProgrammed, And;
    SaveSlot(j, c, config);
    FirstEmptyIsNext(j, c, 0);
    RecordFields(config, c.saves + 1);
  }

  /**
   The exact condition on one save: the next load returns the record just written if and only
   if the counter has not reached its last value, whose successor looks like an erased slot.
   */
  lemma SaveThenLoad(j: Journal, c: Cell, config: Page)
    requires Means(j, c)
    ensures Loaded(Saved(j, config)) == Some(Record(config, Next(j.sequence))) <==> j.sequence != EMPTY - 1
  {
    SaveSlot(j, c, config);
    RecordFields(config, c.saves + 1);
    if c.saves + 1 < EMPTY {
      SavedMeans(j, c, config);
      var d := CellSaved(c, config);
      NewestIsLast(Saved(j, config), d, SLOTS);
    }
  }

  // ---------------------------------------------------------------------------
  // Every run, with power cuts
  // ---------------------------------------------------------------------------

  /** A save can be cut before the erase, between the erase and the write, or after the write. */
  datatype Cut = BeforeErase | BeforeWrite | AfterWrite

  datatype Op = Save(config: Page) | Load | Erase | Restart | CutSave(config: Page, cut: Cut)

  function Do(j: Journal, op: Op): (r: Journal)
    requires Shaped(j)
    ensures Shaped(r)
  {
    match op
    case Save(config) => Saved(j, config)
    case Load => AfterLoad(j)
    case Erase => Wiped()
    case Restart => Restarted(j.slots)
    case CutSave(config, cut) =>
      match cut
      case BeforeErase => Restarted(j.slots)
      case BeforeWrite => Restarted(Readied(j.slots))
      case AfterWrite => Restarted(Saved(j, config).slots)
  }

  /** The same operation on one optional value: a cut loses it only between erase and write of a full sector. */
  function CellDo(c: Cell, op: Op): Cell {
    match op
    case Save(config) => CellSaved(c, config)
    case Load => c
    case Erase => Cell(None, 0, 0)
    case Restart => c
    case CutSave(config, cut) =>
      match cut
      case BeforeErase => c
      case BeforeWrite => if c.used == SLOTS then Cell(None, 0, 0) else c
      case AfterWrite => CellSaved(c, config)
  }

  function Run(ops: seq<Op>): (j: Journal)
    ensures Shaped(j)
  {
    if ops == [] then Wiped() else Do(Run(ops[..|ops| - 1]), ops[|ops| - 1])
  }

  function CellRun(ops: seq<Op>): Cell {
    if ops == [] then Cell(None, 0, 0) else CellDo(CellRun(ops[..|ops| - 1]), ops[|ops| - 1])
  }

  /** The counter never reaches its last value. */
  predicate FewSaves(ops: seq<Op>) {
    CellRun(ops).saves < EMPTY && (ops != [] ==> FewSaves(ops[..|ops| - 1]))
  }

  /** A restart leaves the journal and its meaning alone. */
  lemma RestartMeans(j: Journal, c: Cell)
    requires Means(j, c)
    ensures Restarted(j.slots) == j
  {
    hide Means, Restarted, Loaded, AfterLoad;
    LoadsValue(j, c);
  }

  /** Flash between the erase and the write of a cut save. */
  lemma ReadiedMeans(j: Journal, c: Cell)
    requires Means(j, c)
    ensures c.used == SLOTS ==> Readied(j.slots) == BlankSector()
    ensures c.used < SLOTS ==> Readied(j.slots) == j.slots
  {
    FirstEmptyIsNext(j, c, 0);
    hide Means, FirstEmpty, BlankSector;
  }

  lemma CutMeans(j: Journal, c: Cell, config: Page, cut: Cut)
    requires Means(j, c) && CellDo(c, CutSave(config, cut)).saves < EMPTY
    ensures Means(Do(j, CutSave(config, cut)), CellDo(c, CutSave(config, cut)))
  {
    assert Shaped(j) && c.used <= SLOTS;
    hide Means, Restarted, Readied, Saved, CellSaved, BlankSector;
    match cut {
      case BeforeErase =>
        RestartMeans(j, c);
      case BeforeWrite =>
        ReadiedMeans(j, c);
        RestartMeans(j, c);
        WipedMeans();
        RestartMeans(Wiped(), Cell(None, 0, 0));
      case AfterWrite =>
        assert CellDo(c, CutSave(config, cut)) == CellSaved(c, config);
        SavesOf(c, config);
        SavedMeans(j, c, config);
        RestartMeans(Saved(j, config), CellSaved(c, config));
    }
  }

  lemma SavesOf(c: Cell, config: Page)
    ensures CellSaved(c, config).saves == c.saves + 1
  {
  }

  lemma DoMeans(j: Journal, c: Cell, op: Op)
    requires Means(j, c) && CellDo(c, op).saves < EMPTY
    ensures Means(Do(j, op), CellDo(c, op))
  {
    assert Shaped(j);
    hide Means, Saved, CellSaved, AfterLoad, Restarted, Loaded;
    match op {
      case Save(config) =>
        SavesOf(c, config);
        SavedMeans(j, c, config);
      case Load =>
        LoadsValue(j, c);
      case Erase =>
        WipedMeans();
      case Restart =>
        RestartMeans(j, c);
      case CutSave(config, cut) =>
        CutMeans(j, c, config, cut);
    }
  }

  lemma {:induction false} RunMeans(ops: seq<Op>)
    requires FewSaves(ops)
    ensures Means(Run(ops), CellRun(ops))
  {
    if ops == [] {
      WipedMeans();
    } else {
      RunMeans(ops[..|ops| - 1]);
      hide Means, Do, CellDo;
      DoMeans(Run(ops[..|ops| - 1]), CellRun(ops[..|ops| - 1]), ops[|ops| - 1]);
    }
  }

  /** From an erased sector, every run leaves exactly the value of the one optional variable. */
  lemma JournalIsOneVariable(ops: seq<Op>)
    requires FewSaves(ops)
    ensures var p, v := Loaded(Run(ops)), CellRun(ops).value;
            (p.None? <==> v.None?) && (v.Some? ==> p.Some? && Body(p.value) == v.value)
  {
    RunMeans(ops);
    LoadsValue(Run(ops), CellRun(ops));
  }

  /** The saves of a run made of nothing else go round the sector's 16 slots; behind the latest one it is erased. */
  lemma {:induction false} SavesGoRound(ops: seq<Op>)
    requires 0 < |ops| < 0xFFFF_FFFF && forall i :: 0 <= i < |ops| ==> ops[i].Save?
    ensures var j, at := Run(ops), (|ops| - 1) % 16;
            && FewSaves(ops) && CellRun(ops).used == at + 1 && CellRun(ops).saves == |ops|
            && |j.slots| == 16 && j.slots[at] == Record(ops[|ops| - 1].config, |ops|)
            && forall i :: at < i < 16 ==> j.slots[i] == BlankPage()
  {
    hide Record, Saved, Readied, CellSaved, BlankPage, Means;
    var init, last := ops[..|ops| - 1], ops[|ops| - 1];
    assert ops[|ops| - 1].Save?;
    if init != [] {
      SavesGoRound(init);
    }
    RunMeans(init);
    OneMoreSave(Run(init), CellRun(init), last.config);
    assert init == [] ==> CellRun(init) == Cell(None, 0, 0);
  }

  lemma OneMoreSave(j: Journal, c: Cell, config: Page)
    requires Means(j, c) && c.saves + 1 < 0xFFFF_FFFF
    ensures var t, d := Saved(j, config), CellSaved(c, config);
            && d.used == (if c.used == 16 then 0 else c.used) + 1 && d.saves == c.saves + 1
            && |t.slots| == 16 && 1 <= d.used <= 16 && t.slots[d.used - 1] == Record(config, d.saves)
            && forall i :: d.used <= i < 16 ==> t.slots[i] == BlankPage()
  {
    hide Record, Saved, Readied, BlankPage, Means;
    UsedFits(j, c);
    SaveSlot(j, c, config);
    SavedMeans(j, c, config);
    BlankBehind(Saved(j, config), CellSaved(c, config));
  }

  lemma UsedFits(j: Journal, c: Cell)
    requires Means(j, c)
    ensures Shaped(j) && c.used <= 16
  {
  }

  lemma BlankBehind(j: Journal, c: Cell)
    requires Means(j, c)
    ensures |j.slots| == 16 && forall i :: c.used <= i < 16 ==> j.slots[i] == BlankPage()
  {
  }

  /** What was saved last and not erased since. */
  function LastSaved(ops: seq<Op>): Option<seq<byte>> {
    if ops == [] then None
    else match ops[|ops| - 1]
         case Save(config) => Some(Body(config))
         case CutSave(config, cut) => if cut.AfterWrite? then Some(Body(config)) else LastSaved(ops[..|ops| - 1])
         case Erase => None
         case Load => LastSaved(ops[..|ops| - 1])
         case Restart => LastSaved(ops[..|ops| - 1])
  }

  predicate NoCutAtWrite(ops: seq<Op>) {
    forall i :: 0 <= i < |ops| && ops[i].CutSave? ==> !ops[i].cut.BeforeWrite? || CellRun(ops[..i]).used < SLOTS
  }

  /** Unless power fails between the erase and the write of a full sector, load returns the last save. */
  lemma {:induction false} CellIsLastSaved(ops: seq<Op>)
    requires NoCutAtWrite(ops)
    ensures CellRun(ops).value == LastSaved(ops)
  {
    if ops != [] {
      var n := |ops| - 1;
      forall i | 0 <= i < n ensures ops[..n][i] == ops[i] && ops[..n][..i] == ops[..i] {}
      CellIsLastSaved(ops[..n]);
      assert ops[..n] == ops[..|ops| - 1];
    }
  }

  lemma LoadReturnsLastSave(ops: seq<Op>)
    requires FewSaves(ops) && NoCutAtWrite(ops)
    ensures var p, v := Loaded(Run(ops)), LastSaved(ops);
            (p.None? <==> v.None?) && (v.Some? ==> p.Some? && Body(p.value) == v.value)
  {
    JournalIsOneVariable(ops);
    CellIsLastSaved(ops);
  }

  /** That exception is real: the value is gone. */
  lemma CutAtWriteLosesValue(ops: seq<Op>, config: Page)
    requires FewSaves(ops) && CellRun(ops).used == SLOTS
    ensures CellRun(ops).value.Some? && Loaded(Run(ops + [CutSave(config, BeforeWrite)])).None?
  {
    RunMeans(ops);
    var all := ops + [CutSave(config, BeforeWrite)];
    assert all[..|all| - 1] == ops;
    JournalIsOneVariable(all);
  }
}
