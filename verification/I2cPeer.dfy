/**
 Sharing one controller over I2C: the slave's registers, served byte by byte from an interrupt
 handler while the main loop taps new events, and the master that polls them.
 */
module I2cPeer {
  import opened Common
  import opened Crc
  import opened PeerEvents

  const REG_STATUS: octet := 0x00
  const REG_DEV_COUNT: octet := 0x01
  const REG_PLAYER0: octet := 0x10
  const REG_NAME: octet := 0x20
  const REG_STATUS_WRITE: octet := 0x80
  const ADDR_BASE: octet := 0xE0
  const EVENT_SIZE := 12
  const NAME_SIZE := 32
  const STATUS_SIZE := 46

  // ---------------------------------------------------------------------------
  // The slave
  // ---------------------------------------------------------------------------

  /** The handler's registers, the event it serves, and the status bytes written to it. */
  datatype Slave = Slave(reg: octet, offset: nat, written: bool, event: seq<octet>, hasData: bool, deviceCount: octet,
                         name: seq<octet>, status: seq<octet>, hasStatus: bool)

  predicate Sized(s: Slave) { |s.event| == EVENT_SIZE && |s.name| == NAME_SIZE && |s.status| <= STATUS_SIZE }

  /** A byte from the master: the first selects a register, the rest fill the status until it is full. */
  function Received(s: Slave, data: octet): Slave {
    if !s.written then s.(reg := data, offset := 0, written := true)
    else if s.reg == REG_STATUS_WRITE && |s.status| < STATUS_SIZE then s.(status := s.status + [data])
    else s
  }

  function StatusByte(hasData: bool): octet { if hasData then 0x11 else 0x10 }

  /** The byte a request is answered with. */
  function Served(s: Slave): octet
    requires Sized(s)
  {
    if s.reg == REG_STATUS then StatusByte(s.hasData)
    else if s.reg == REG_DEV_COUNT then s.deviceCount
    else if s.reg == REG_PLAYER0 then (if s.offset < EVENT_SIZE then s.event[s.offset] else 0)
    else if s.reg == REG_NAME then (if s.offset < NAME_SIZE then s.name[s.offset] else 0)
    else 0xFF
  }

  function Requested(s: Slave): Slave {
    if (s.reg == REG_PLAYER0 && s.offset < EVENT_SIZE) || (s.reg == REG_NAME && s.offset < NAME_SIZE)
    then s.(offset := s.offset + 1) else s
  }

  function Finished(s: Slave): Slave {
    s.(written := false, hasStatus := s.hasStatus || (s.reg == REG_STATUS_WRITE && |s.status| == STATUS_SIZE))
  }

  /** An event that came in over such a link is not sent back out. */
  predicate FromI2cPeer(ev: InputEvent) { ADDR_BASE <= ev.devAddr < ADDR_BASE + 16 }

  function Tapped(s: Slave, player: octet, ev: InputEvent): Slave {
    if FromI2cPeer(ev) then s else s.(event := PackedBytes(Pack(player, ev)), hasData := true, deviceCount := 1)
  }

  /** What the main loop gets when it asks for a new status. */
  function Status(s: Slave): Option<seq<octet>> { if s.hasStatus then Some(s.status) else None }

  class SlaveSide {
    var reg: octet
    var offset: nat
    var written: bool
    var event: seq<octet>
    var hasData: bool
    var deviceCount: octet
    var name: seq<octet>
    const buf: array<octet>
    var bufLen: nat
    var hasStatus: bool

    ghost predicate Valid()
      reads this
    {
      |event| == EVENT_SIZE && |name| == NAME_SIZE && buf.Length == STATUS_SIZE && bufLen <= STATUS_SIZE
      && (hasStatus ==> bufLen == STATUS_SIZE)
    }

    ghost function Abs(): (s: Slave)
      requires Valid()
      reads this, buf
      ensures Sized(s)
    {
      Slave(reg, offset, written, event, hasData, deviceCount, name, buf[..bufLen], hasStatus)
    }

    constructor (name: seq<octet>)
      requires |name| == NAME_SIZE
      ensures Valid() && fresh(buf) && Abs() == Initial(name)
    {
      reg, offset, written, hasData, deviceCount, bufLen, hasStatus := 0, 0, false, false, 0, 0, false;
      event := seq(EVENT_SIZE, _ => 0);
      this.name := name;
      buf := new octet[STATUS_SIZE];
    }

    method OnReceive(data: octet)
      requires Valid()
      modifies this`reg, this`offset, this`written, this`bufLen, buf
      ensures Valid() && Abs() == Received(old(Abs()), data)
    {
      if !written {
        reg := data;
        offset := 0;
        written := true;
      } else if reg == REG_STATUS_WRITE {
        if bufLen < STATUS_SIZE {
          buf[bufLen] := data;
          bufLen := bufLen + 1;
        }
      }
    }

    method OnRequest() returns (byte: octet)
      requires Valid()
      modifies this`offset
      ensures Valid() && byte == Served(old(Abs())) && Abs() == Requested(old(Abs()))
    {
      byte := 0;
      if reg == REG_STATUS {
        byte := 0x10 | (if hasData then 1 else 0);
      } else if reg == REG_DEV_COUNT {
        byte := deviceCount;
      } else if reg == REG_PLAYER0 {
        if offset < EVENT_SIZE {
          byte := event[offset];
          offset := offset + 1;
        }
      } else if reg == REG_NAME {
        if offset < NAME_SIZE {
          byte := name[offset];
          offset := offset + 1;
        }
      } else {
        byte := 0xFF;
      }
    }

    method OnFinish()
      requires Valid()
      modifies this`written, this`hasStatus
      ensures Valid() && Abs() == Finished(old(Abs()))
    {
      if reg == REG_STATUS_WRITE && bufLen == STATUS_SIZE {
        hasStatus := true;
      }
      written := false;
    }

    method Tap(player: octet, ev: InputEvent)
      requires Valid()
      modifies this`event, this`hasData, this`deviceCount
      ensures Valid() && Abs() == Tapped(old(Abs()), player, ev)
    {
      PackedRoundTrip(Pack(player, ev));
      hide PackedBytes;
      if ev.devAddr >= ADDR_BASE && ev.devAddr < ADDR_BASE + 16 { return; }
      event := PackedBytes(Pack(player, ev));
      hasData := true;
      deviceCount := 1;
    }

    method GetStatus() returns (r: Option<seq<octet>>)
      requires Valid()
      modifies this`hasStatus
      ensures Valid() && r == Status(old(Abs())) && Abs() == old(Abs()).(hasStatus := false)
    {
      if !hasStatus { return None; }
      r := Some(buf[..STATUS_SIZE]);
      hasStatus := false;
    }
  }

  function Initial(name: seq<octet>): Slave {
    Slave(0, 0, false, seq(EVENT_SIZE, _ => 0), false, 0, name, [], false)
  }

  // ---------------------------------------------------------------------------
  // Every interleaving of handler and main loop
  // ---------------------------------------------------------------------------

  datatype Step = Receive(data: octet) | Request | Finish | Tap(player: octet, ev: InputEvent) | TakeStatus

  function Do(s: Slave, step: Step): (t: Slave)
    requires Sized(s)
    ensures Sized(t)
  {
    match step
    case Receive(data) => Received(s, data)
    case Request => Requested(s)
    case Finish => Finished(s)
    case Tap(player, ev) => assert |PackedBytes(Pack(player, ev))| == 12 by { PackedRoundTrip(Pack(player, ev)); } Tapped(s, player, ev)
    case TakeStatus => s.(hasStatus := false)
  }

  function Run(s: Slave, steps: seq<Step>): (t: Slave)
    requires Sized(s)
    ensures Sized(t)
  {
    if steps == [] then s else Do(Run(s, steps[..|steps| - 1]), steps[|steps| - 1])
  }

  // ---------------------------------------------------------------------------
  // Reading an event
  // ---------------------------------------------------------------------------

  datatype TapCall = TapCall(player: octet, ev: InputEvent)

  /** The event served after some taps. */
  function EventAfter(event: seq<octet>, taps: seq<TapCall>): (r: seq<octet>)
    requires |event| == EVENT_SIZE
    ensures |r| == EVENT_SIZE
  {
    if taps == [] then event
    else
      var t := taps[|taps| - 1];
      assert |PackedBytes(Pack(t.player, t.ev))| == 12 by { PackedRoundTrip(Pack(t.player, t.ev)); }
      if FromI2cPeer(t.ev) then EventAfter(event, taps[..|taps| - 1]) else PackedBytes(Pack(t.player, t.ev))
  }

  function TapAll(s: Slave, taps: seq<TapCall>): (t: Slave)
    requires Sized(s)
    ensures Sized(t)
  {
    if taps == [] then s
    else Do(TapAll(s, taps[..|taps| - 1]), Step.Tap(taps[|taps| - 1].player, taps[|taps| - 1].ev))
  }

  lemma {:induction false} TapsChangeEvent(s: Slave, taps: seq<TapCall>)
    requires Sized(s)
    ensures var t := TapAll(s, taps);
            t.event == EventAfter(s.event, taps) && t.reg == s.reg && t.offset == s.offset
  {
    hide PackedBytes;
    if taps != [] {
      TapsChangeEvent(s, taps[..|taps| - 1]);
    }
  }

  /** The bytes of a burst of requests, with the taps that land before each one. */
  function ReadBytes(s: Slave, between: seq<seq<TapCall>>): (r: seq<octet>)
    requires Sized(s)
    ensures |r| == |between|
    decreases |between|
  {
    if between == [] then []
    else var t := TapAll(s, between[0]); [Served(t)] + ReadBytes(Requested(t), between[1..])
  }

  /** The event as it stands at request k. */
  function EventAt(event: seq<octet>, between: seq<seq<TapCall>>, k: nat): (r: seq<octet>)
    requires |event| == EVENT_SIZE && k < |between|
    ensures |r| == EVENT_SIZE
    decreases k
  {
    if k == 0 then EventAfter(event, between[0]) else EventAt(EventAfter(event, between[0]), between[1..], k - 1)
  }

  /** Byte k of a read comes from the event as it stands when that byte is requested. */
  lemma {:induction false} ReadsEventAt(s: Slave, between: seq<seq<TapCall>>, k: nat)
    requires Sized(s) && s.reg == REG_PLAYER0 && s.offset + |between| <= EVENT_SIZE && k < |between|
    ensures ReadBytes(s, between)[k] == EventAt(s.event, between, k)[s.offset + k]
    decreases k
  {
    var t := TapAll(s, between[0]);
    TapsChangeEvent(s, between[0]);
    hide TapAll, EventAfter;
    if k > 0 {
      ReadsEventAt(Requested(t), between[1..], k - 1);
    }
  }

  /**
   What byte k of a read is, register by register: 0x00 says version 1 and whether there is an
   event, 0x01 counts devices, 0x10 is the event and 0x20 the name, each followed by zeros; any
   other register reads as 0xFF.
   */
  function RegisterByte(s: Slave, reg: octet, k: nat): octet
    requires Sized(s)
  {
    if reg == 0x00 then (if s.hasData then 0x11 else 0x10)
    else if reg == 0x01 then s.deviceCount
    else if reg == 0x10 then (if k < 12 then s.event[k] else 0)
    else if reg == 0x20 then (if k < 32 then s.name[k] else 0)
    else 0xFF
  }

  predicate InRegister(s: Slave) { s.offset <= if s.reg == 0x10 then 12 else 32 }

  lemma OneRequest(s: Slave, k: nat)
    requires Sized(s) && InRegister(s)
    ensures Served(s) == RegisterByte(s, s.reg, s.offset) && InRegister(Requested(s)) && Requested(s).reg == s.reg
    ensures k > 0 ==> RegisterByte(Requested(s), s.reg, Requested(s).offset + k - 1) == RegisterByte(s, s.reg, s.offset + k)
  {
  }

  lemma {:induction false} QuietBytes(s: Slave, between: seq<seq<TapCall>>, k: nat)
    requires Sized(s) && k < |between| && InRegister(s) && forall i :: 0 <= i < |between| ==> between[i] == []
    ensures ReadBytes(s, between)[k] == RegisterByte(s, s.reg, s.offset + k)
    decreases k
  {
    var rest := between[1..];
    FirstQuiet(s, between);
    hide *;
    OneRequest(s, k);
    if k > 0 {
      forall i | 0 <= i < |rest| ensures rest[i] == [] { assert rest[i] == between[i + 1]; }
      QuietBytes(Requested(s), rest, k - 1);
    }
  }

  lemma FirstQuiet(s: Slave, between: seq<seq<TapCall>>)
    requires Sized(s) && between != [] && between[0] == []
    ensures Sized(Requested(s)) && ReadBytes(s, between) == [Served(s)] + ReadBytes(Requested(s), between[1..])
  {
    hide Served;
    assert TapAll(s, between[0]) == s;
  }

  /** A register read with no tap inside it. */
  lemma RegisterReads(s: Slave, reg: octet, n: nat, k: nat)
    requires Sized(s) && !s.written && k < n
    ensures RegisterRead(s, reg, n)[k] == RegisterByte(s, reg, k)
  {
    var quiet: seq<seq<TapCall>> := seq(n, _ => []);
    hide ReadBytes, RegisterByte;
    QuietBytes(Finished(Received(s, reg)), quiet, k);
    SameByte(s, Finished(Received(s, reg)), reg, k);
  }

  lemma SameByte(s: Slave, t: Slave, reg: octet, k: nat)
    requires Sized(s) && Sized(t) && t.event == s.event && t.name == s.name && t.hasData == s.hasData && t.deviceCount == s.deviceCount
    ensures RegisterByte(t, reg, k) == RegisterByte(s, reg, k)
  {
  }

  /** A tap of an event with such a peer's address changes nothing; any other becomes the event served. */
  lemma TapReplacesEvent(s: Slave, player: octet, ev: InputEvent)
    ensures Tapped(s, player, ev) ==
            if 0xE0 <= ev.devAddr < 0xF0 then s else s.(event := PackedBytes(Pack(player, ev)), hasData := true, deviceCount := 1)
  {
    hide PackedBytes;
  }

  /** The slave once the master has selected the event register. */
  function Selected(s: Slave): (t: Slave)
    requires Sized(s)
    ensures Sized(t)
  {
    Finished(Received(s, REG_PLAYER0))
  }

  lemma {:induction false} QuietEventAt(event: seq<octet>, between: seq<seq<TapCall>>, k: nat)
    requires |event| == EVENT_SIZE && k < |between| && forall i :: 1 <= i < |between| ==> between[i] == []
    ensures EventAt(event, between, k) == EventAfter(event, between[0])
    decreases k
  {
    if k > 0 {
      var rest := between[1..];
      forall i | 0 <= i < |rest| ensures rest[i] == [] { assert rest[i] == between[i + 1]; }
      QuietEventAt(EventAfter(event, between[0]), rest, k - 1);
    }
  }

  /** With no tap inside the read, its 12 bytes are one whole event. */
  lemma QuietReadIsWhole(s: Slave, between: seq<seq<TapCall>>)
    requires Sized(s) && !s.written && |between| == EVENT_SIZE && forall i :: 1 <= i < EVENT_SIZE ==> between[i] == []
    ensures ReadBytes(Selected(s), between) == EventAfter(s.event, between[0])
  {
    hide EventAt, EventAfter, ReadBytes;
    forall k | 0 <= k < EVENT_SIZE ensures ReadBytes(Selected(s), between)[k] == EventAfter(s.event, between[0])[k] {
      ReadsEventAt(Selected(s), between, k);
      QuietEventAt(s.event, between, k);
    }
  }

  /** One tap, just before request j. */
  function OneTapAt(j: nat, tap: TapCall): (r: seq<seq<TapCall>>)
    ensures |r| == EVENT_SIZE
  {
    seq(EVENT_SIZE, i => if i == j then [tap] else [])
  }

  lemma {:induction false} EventAtTap(event: seq<octet>, between: seq<seq<TapCall>>, j: nat, tap: TapCall, k: nat)
    requires |event| == EVENT_SIZE && k < |between| && !FromI2cPeer(tap.ev)
    requires forall i :: 0 <= i < |between| ==> between[i] == if i == j then [tap] else []
    ensures EventAt(event, between, k) == if k < j then event else PackedBytes(Pack(tap.player, tap.ev))
    decreases k
  {
    PackedRoundTrip(Pack(tap.player, tap.ev));
    hide PackedBytes;
    var rest := between[1..];
    if k > 0 {
      forall i | 0 <= i < |rest| ensures rest[i] == between[i + 1] {}
      if j > 0 {
        EventAtTap(event, rest, j - 1, tap, k - 1);
      } else {
        QuietEventAt(PackedBytes(Pack(tap.player, tap.ev)), rest, k - 1);
        assert rest[0] == [];
      }
    }
  }

  /**
   A tap that lands inside a read splices two events: the bytes are the old event's up to the
   tap and the new one's from there, one whole event only if the two agree on either part.
   */
  lemma TornRead(s: Slave, j: nat, tap: TapCall)
    requires Sized(s) && !s.written && 0 < j < EVENT_SIZE && !FromI2cPeer(tap.ev)
    ensures var was, now, r := s.event, PackedBytes(Pack(tap.player, tap.ev)), ReadBytes(Selected(s), OneTapAt(j, tap));
            && |now| == EVENT_SIZE && r == was[..j] + now[j..]
            && ((r == was || r == now) <==> (was[j..] == now[j..] || was[..j] == now[..j]))
  {
    hide ReadBytes, PackedBytes, Selected, OneTapAt;
    PackedRoundTrip(Pack(tap.player, tap.ev));
    var e, n := s.event, PackedBytes(Pack(tap.player, tap.ev));
    var r := ReadBytes(Selected(s), OneTapAt(j, tap));
    forall k | 0 <= k < EVENT_SIZE ensures r[k] == (e[..j] + n[j..])[k] {
      TornByte(s, j, tap, k);
    }
    assert r == e[..j] + n[j..];
    Splice(e, n, j);
  }

  lemma TornByte(s: Slave, j: nat, tap: TapCall, k: nat)
    requires Sized(s) && !s.written && k < EVENT_SIZE && !FromI2cPeer(tap.ev)
    ensures var now := PackedBytes(Pack(tap.player, tap.ev));
            |now| == EVENT_SIZE && ReadBytes(Selected(s), OneTapAt(j, tap))[k] == if k < j then s.event[k] else now[k]
  {
    PackedRoundTrip(Pack(tap.player, tap.ev));
    var between := OneTapAt(j, tap);
    assert forall i :: 0 <= i < EVENT_SIZE ==> between[i] == if i == j then [tap] else [];
    hide EventAt, ReadBytes, PackedBytes, OneTapAt;
    ReadsEventAt(Selected(s), between, k);
    EventAtTap(s.event, between, j, tap, k);
  }

  lemma Splice(e: seq<octet>, n: seq<octet>, j: nat)
    requires |e| == |n| && j <= |e|
    ensures var r := e[..j] + n[j..]; (r == e || r == n) <==> (e[j..] == n[j..] || e[..j] == n[..j])
  {
    var r := e[..j] + n[j..];
    assert r[..j] == e[..j] && r[j..] == n[j..];
    assert e[..j] + e[j..] == e && n[..j] + n[j..] == n;
  }

  // ---------------------------------------------------------------------------
  // The status the master writes
  // ---------------------------------------------------------------------------

  /** All the status bytes a run has received. */
  function StatusBytes(s: Slave, steps: seq<Step>): seq<octet>
    requires Sized(s)
  {
    if steps == [] then []
    else
      var t := Run(s, steps[..|steps| - 1]);
      var before := StatusBytes(s, steps[..|steps| - 1]);
      var step := steps[|steps| - 1];
      if step.Receive? && t.written && t.reg == 0x80 then before + [step.data] else before
  }

  function First(s: seq<octet>, n: nat): seq<octet> { if |s| <= n then s else s[..n] }

  /** Only a data byte sent to the status register changes the status buffer, while it has room. */
  lemma StatusStep(s: Slave, step: Step)
    requires Sized(s)
    ensures Do(s, step).status ==
            if step.Receive? && s.written && s.reg == REG_STATUS_WRITE && |s.status| < STATUS_SIZE
            then s.status + [step.data] else s.status
  {
    hide PackedBytes, Served;
  }

  /** The status buffer only ever takes the first 46 bytes of all that were written. */
  lemma {:induction false} OnlyFirstBytesLand(s: Slave, steps: seq<Step>)
    requires Sized(s)
    ensures Run(s, steps).status == First(s.status + StatusBytes(s, steps), 46)
  {
    if steps == [] {
      assert s.status + [] == s.status;
      return;
    }
    hide PackedBytes, Served, First, Do;
    var init, step := steps[..|steps| - 1], steps[|steps| - 1];
    OnlyFirstBytesLand(s, init);
    StatusStep(Run(s, init), step);
    if step.Receive? {
      FirstMore(s.status, StatusBytes(s, init), step.data);
    }
  }

  lemma FirstMore(a: seq<octet>, x: seq<octet>, d: octet)
    ensures var f := First(a + x, STATUS_SIZE); First(a + (x + [d]), STATUS_SIZE) == if |f| < STATUS_SIZE then f + [d] else f
  {
    assert a + (x + [d]) == (a + x) + [d];
  }

  /** Once the buffer is full nothing the master writes changes it. */
  lemma FullStatusIsFixed(s: Slave, steps: seq<Step>)
    requires Sized(s) && |s.status| == STATUS_SIZE
    ensures Run(s, steps).status == s.status
  {
    OnlyFirstBytesLand(s, steps);
    assert (s.status + StatusBytes(s, steps))[..STATUS_SIZE] == s.status;
  }

  function ReceiveAll(s: Slave, data: seq<octet>): (t: Slave)
    requires Sized(s)
    ensures Sized(t)
  {
    if data == [] then s else Received(ReceiveAll(s, data[..|data| - 1]), data[|data| - 1])
  }

  lemma {:induction false} AllReceived(s: Slave, data: seq<octet>)
    requires Sized(s) && s.written && s.reg == REG_STATUS_WRITE
    ensures ReceiveAll(s, data) == s.(status := First(s.status + data, STATUS_SIZE))
  {
    if data == [] {
      assert s.status + [] == s.status;
    } else {
      var n := |data| - 1;
      AllReceived(s, data[..n]);
      FirstMore(s.status, data[..n], data[n]);
      assert data[..n] + [data[n]] == data;
    }
  }

  /** The master writes a whole status: register, 46 bytes, stop. */
  function StatusWritten(s: Slave, w: seq<octet>): (t: Slave)
    requires Sized(s)
    ensures Sized(t)
  {
    Finished(ReceiveAll(Received(s, REG_STATUS_WRITE), w))
  }

  /** After a complete write a status is always there: the first 46 bytes ever written. */
  lemma StatusAfterWrite(s: Slave, w: seq<octet>)
    requires Sized(s) && !s.written && |w| == STATUS_SIZE
    ensures Status(StatusWritten(s, w)) == Some((s.status + w)[..STATUS_SIZE])
  {
    AllReceived(Received(s, REG_STATUS_WRITE), w);
    assert First(s.status + w, STATUS_SIZE) == (s.status + w)[..STATUS_SIZE];
  }

  lemma {:induction false} OtherRegisterIgnores(s: Slave, data: seq<octet>)
    requires Sized(s) && s.written && s.reg != 0x80
    ensures ReceiveAll(s, data) == s
  {
    if data != [] {
      OtherRegisterIgnores(s, data[..|data| - 1]);
    }
  }

  /**
   Any transfer from the master announces a status exactly when it went to register 0x80 and the
   bytes written so far, its own included, are at least 46; a status announced before stays so.
   */
  lemma TransferAnnouncesIff(s: Slave, reg: octet, data: seq<octet>)
    requires Sized(s) && !s.written
    ensures var t := Finished(ReceiveAll(Received(s, reg), data));
            && !t.written
            && (t.hasStatus <==> s.hasStatus || (reg == 0x80 && |s.status| + |data| >= 46))
            && Status(t) == if t.hasStatus then Some(t.status) else None
  {
    if reg == 0x80 {
      AllReceived(Received(s, reg), data);
    } else {
      OtherRegisterIgnores(Received(s, reg), data);
    }
  }

  lemma PrefixOfNothing(w: seq<octet>)
    requires |w| == STATUS_SIZE
    ensures ([] + w)[..STATUS_SIZE] == w
  {
    assert [] + w == w;
  }

  /** A write that differs in its first byte from what was written before. */
  lemma OtherWrite(before: seq<octet>) returns (w: seq<octet>)
    requires before != []
    ensures |w| == STATUS_SIZE && (before + w)[..STATUS_SIZE] != w
  {
    var other: octet := if before[0] == 0 then 1 else 0;
    w := seq(STATUS_SIZE, _ => other);
    assert (before + w)[..STATUS_SIZE][0] == before[0] && w[0] == other;
  }

  /** So a write is what the main loop gets, whatever was written, only if nothing was written before it. */
  lemma LatestWriteIffFirst(s: Slave)
    requires Sized(s) && !s.written
    ensures s.status == [] <==> forall w :: |w| == STATUS_SIZE ==> Status(StatusWritten(s, w)) == Some(w)
  {
    hide Status, StatusWritten;
    if s.status == [] {
      forall w | |w| == STATUS_SIZE ensures Status(StatusWritten(s, w)) == Some(w) {
        StatusAfterWrite(s, w);
        PrefixOfNothing(w);
      }
    } else {
      var w := OtherWrite(s.status);
      StatusAfterWrite(s, w);
      assert Status(StatusWritten(s, w)) != Some(w);
    }
  }

  // ---------------------------------------------------------------------------
  // The master
  // ---------------------------------------------------------------------------

  const POLL_MS := 4
  const RETRY_MS := 500
  const FAIL_THRESHOLD := 3

  /** What one bus transfer returns. */
  datatype Reply = Failed | Got(bytes: seq<octet>)

  /** What the slave would answer to the three reads of one poll. */
  datatype Bus = Bus(status: Reply, name: Reply, event: Reply)

  datatype Master = Master(connected: bool, failCount: int, lastPoll: int, lastRetry: int)

  predicate HasData(status: octet) { status & 1 == 1 }

  function Neutral(): InputEvent {
    InputEvent(ADDR_BASE, 1, 0, Axes(128, 128, 128, 128, 0, 0), 0, false, NO_TOUCH, NO_TOUCH, false, NO_MOTION)
  }

  /** The event the router gets from a packed one. */
  function FromSlave(p: Packed): InputEvent {
    InputEvent(ADDR_BASE + p.player, p.devType, p.buttons, p.axes, 0, false, NO_TOUCH, NO_TOUCH, false, NO_MOTION)
  }

  predicate Due(m: Master, now: int) {
    if m.connected then (now - m.lastPoll) % U32 >= POLL_MS else (now - m.lastRetry) % U32 >= RETRY_MS
  }

  predicate Answered(bus: Bus) { bus.status.Got? && |bus.status.bytes| == 1 }

  function AfterPoll(m: Master, now: int, bus: Bus): Master {
    if !Due(m, now) then m
    else
      var polled := m.(lastPoll := now, lastRetry := if m.connected then m.lastRetry else now);
      if Answered(bus) then polled.(connected := true, failCount := 0)
      else
        var count := (m.failCount + 1) % 0x100;
        polled.(failCount := count, connected := m.connected && count < FAIL_THRESHOLD)
  }

  /** What a poll submits: the event read, or a neutral one when the slave is given up. */
  function Polled(m: Master, now: int, bus: Bus): seq<InputEvent> {
    if !Due(m, now) then []
    else if Answered(bus) then
      if HasData(bus.status.bytes[0]) && bus.event.Got? && |bus.event.bytes| == EVENT_SIZE
      then [FromSlave(ParsePacked(bus.event.bytes))] else []
    else if m.connected && !AfterPoll(m, now, bus).connected then [Neutral()] else []
  }

  class MasterSide {
    var connected: bool
    var failCount: int
    var lastPoll: int
    var lastRetry: int

    ghost function Abs(): Master
      reads this
    {
      Master(connected, failCount, lastPoll, lastRetry)
    }

    constructor ()
      ensures Abs() == Master(false, 0, 0, 0)
    {
      connected, failCount, lastPoll, lastRetry := false, 0, 0, 0;
    }

    method Task(now: int, bus: Bus) returns (submitted: seq<InputEvent>)
      modifies this
      ensures Abs() == AfterPoll(old(Abs()), now, bus) && submitted == Polled(old(Abs()), now, bus)
    {
      hide ParsePacked, HasData;
      submitted := [];
      if connected {
        if (now - lastPoll) % U32 < POLL_MS { return; }
      } else {
        if (now - lastRetry) % U32 < RETRY_MS { return; }
        lastRetry := now;
      }
      lastPoll := now;
      if !(bus.status.Got? && |bus.status.bytes| == 1) {
        failCount := (failCount + 1) % 0x100;
        if connected && failCount >= FAIL_THRESHOLD {
          connected := false;
          submitted := [Neutral()];
        }
        return;
      }
      if !connected {
        connected := true;
      }
      failCount := 0;
      if HasData(bus.status.bytes[0]) {
        if bus.event.Got? && |bus.event.bytes| == EVENT_SIZE {
          submitted := [FromSlave(ParsePacked(bus.event.bytes))];
        }
      }
    }
  }

  datatype Poll = Poll(now: int, bus: Bus)

  function RunPolls(polls: seq<Poll>): Master {
    if polls == [] then Master(false, 0, 0, 0)
    else var p := polls[|polls| - 1]; AfterPoll(RunPolls(polls[..|polls| - 1]), p.now, p.bus)
  }

  /** How many due polls in a row have failed at the end of a run. */
  function FailedInARow(polls: seq<Poll>): nat {
    if polls == [] then 0
    else
      var before := polls[..|polls| - 1];
      var p := polls[|polls| - 1];
      if !Due(RunPolls(before), p.now) then FailedInARow(before) else if Answered(p.bus) then 0 else FailedInARow(before) + 1
  }

  predicate EverAnswered(polls: seq<Poll>) {
    polls != [] &&
    (EverAnswered(polls[..|polls| - 1]) ||
     (Due(RunPolls(polls[..|polls| - 1]), polls[|polls| - 1].now) && Answered(polls[|polls| - 1].bus)))
  }

  /**
   The master holds the slave connected exactly while it has answered and fewer than three polls
   in a row have failed since, although the failure counter is a byte that wraps.
   */
  lemma {:induction false} ConnectedIffRecentlyAnswered(polls: seq<Poll>)
    ensures var m := RunPolls(polls);
            && m.failCount == FailedInARow(polls) % 0x100
            && (m.connected <==> EverAnswered(polls) && FailedInARow(polls) < FAIL_THRESHOLD)
  {
    hide Due, Answered;
    if polls != [] {
      ConnectedIffRecentlyAnswered(polls[..|polls| - 1]);
      CountsOn(FailedInARow(polls[..|polls| - 1]));
    }
  }

  /**
   In every run, a due poll that fails submits something exactly when the slave had answered and
   it is the third failure in a row: one neutral event, sticks centred and nothing pressed.
   */
  lemma ThirdFailureNeutralises(polls: seq<Poll>, now: int, bus: Bus)
    requires Due(RunPolls(polls), now) && !Answered(bus)
    ensures Polled(RunPolls(polls), now, bus) ==
            if EverAnswered(polls) && FailedInARow(polls) == 2
            then [InputEvent(0xE0, 1, 0, Axes(128, 128, 128, 128, 0, 0), 0, false, Touch(0, 0, false), Touch(0, 0, false),
                             false, Motion(0, 0, 0, 0, 0, 0, 0, 0))]
            else []
  {
    ConnectedIffRecentlyAnswered(polls);
    CountsOn(FailedInARow(polls));
  }

  /** An answered poll submits the event the slave served, if its status byte has bit 0 set and 12 bytes came, and nothing else. */
  lemma AnsweredPollSubmits(m: Master, now: int, bus: Bus)
    requires Due(m, now) && bus.status.Got? && |bus.status.bytes| == 1
    ensures Polled(m, now, bus) ==
            if bus.status.bytes[0] & 1 == 1 && bus.event.Got? && |bus.event.bytes| == 12
            then [FromSlave(ParsePacked(bus.event.bytes))] else []
  {
  }

  /** Polls are due 4 ms after the latest while the slave is connected, 500 ms after the latest retry otherwise. */
  lemma DueInTime(m: Master, last: int, now: int)
    requires last <= now < last + 0x1_0000_0000
    ensures m.connected && m.lastPoll == last % 0x1_0000_0000 ==> (Due(m, now % 0x1_0000_0000) <==> now - last >= 4)
    ensures !m.connected && m.lastRetry == last % 0x1_0000_0000 ==> (Due(m, now % 0x1_0000_0000) <==> now - last >= 500)
  {
    WrapDifference(last, now);
  }

  /** An event the master has submitted is not exported again by a slave if and only if its player number is below 16. */
  lemma EchoedIffBeyond15(p: Packed, s: Slave, player: octet)
    ensures FromI2cPeer(FromSlave(p)) <==> p.player < 16
    ensures p.player < 16 ==> Tapped(s, player, FromSlave(p)) == s
  {
    hide PackedBytes;
  }

  lemma CountsOn(n: nat)
    ensures (n % 0x100 + 1) % 0x100 == (n + 1) % 0x100 && (n < FAIL_THRESHOLD ==> n % 0x100 == n && (n + 1) % 0x100 == n + 1)
  {
  }

  // ---------------------------------------------------------------------------
  // From tap to router
  // ---------------------------------------------------------------------------

  /** The bytes one register read returns: select, then requests, with no tap in between. */
  function RegisterRead(s: Slave, reg: octet, n: nat): (r: seq<octet>)
    requires Sized(s)
    ensures |r| == n
  {
    ReadBytes(Finished(Received(s, reg)), seq(n, _ => []))
  }

  /**
   A due poll submits exactly the event tapped last, if no tap lands between its status read and
   the end of its event read; u is the slave when the event read starts.
   */
  lemma PollDeliversLastTap(s: Slave, u: Slave, m: Master, now: int, player: octet, ev: InputEvent, bus: Bus)
    requires Sized(s) && !s.written && !FromI2cPeer(ev) && Due(m, now)
    requires var t := Tapped(s, player, ev);
             Sized(t) && bus.status == Got(RegisterRead(t, REG_STATUS, 1)) && Sized(u) && !u.written && u.event == t.event
    requires bus.event == Got(RegisterRead(u, REG_PLAYER0, EVENT_SIZE))
    ensures Polled(m, now, bus) ==
            [InputEvent(0xE0 + player, ev.devType, ev.buttons, ev.axes, 0, false, Touch(0, 0, false), Touch(0, 0, false),
                        false, Motion(0, 0, 0, 0, 0, 0, 0, 0))]
  {
    var t := Tapped(s, player, ev);
    PackedRoundTrip(Pack(player, ev));
    StatusSaysData(t);
    var quiet: seq<seq<TapCall>> := seq(EVENT_SIZE, _ => []);
    hide PackedBytes, ParsePacked, ReadBytes, HasData;
    QuietReadIsWhole(u, quiet);
    assert EventAfter(u.event, quiet[0]) == t.event;
  }

  lemma StatusSaysData(t: Slave)
    requires Sized(t) && !t.written && t.hasData
    ensures var r := RegisterRead(t, REG_STATUS, 1); |r| == 1 && HasData(r[0])
  {
    var quiet: seq<seq<TapCall>> := seq(1, _ => []);
    var u := Finished(Received(t, REG_STATUS));
    assert TapAll(u, quiet[0]) == u && Served(u) == 0x11;
    assert ReadBytes(u, quiet)[0] == 0x11;
  }
}
