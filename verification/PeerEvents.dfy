/**
 Input events across the link: a 12-byte EVENT, preceded by an EXT when there is touch or
 motion, paired up again by the consumer; and the producer's periodic refresh.
 */
module PeerEvents {
  import opened Common
  import opened Crc
  import opened Slip

  const MSG_EVENT: octet := 0x01
  const MSG_EXT: octet := 0x0A
  const DEV_ADDR_BASE: octet := 0xC0
  const EXT_SLOTS := 8
  const FLAG_TOUCH: octet := 1
  const FLAG_MOTION: octet := 2

  datatype Axes = Axes(lx: octet, ly: octet, rx: octet, ry: octet, l2: octet, r2: octet)
  datatype Touch = Touch(x: bv16, y: bv16, active: bool)
  datatype Motion = Motion(ax: bv16, ay: bv16, az: bv16, gx: bv16, gy: bv16, gz: bv16, gyroRange: bv16, accelRange: bv16)

  /** The fields of an input event this link carries, or that the consumer fills in itself. */
  datatype InputEvent = InputEvent(devAddr: octet, devType: octet, buttons: bv32, axes: Axes, rz: octet,
                                   hasTouch: bool, touch0: Touch, touch1: Touch, hasMotion: bool, motion: Motion)

  const NO_TOUCH := Touch(0, 0, false)
  const NO_MOTION := Motion(0, 0, 0, 0, 0, 0, 0, 0)

  // ---------------------------------------------------------------------------
  // Wire formats
  // ---------------------------------------------------------------------------

  datatype Packed = Packed(player: octet, devType: octet, buttons: bv32, axes: Axes)

  datatype Ext = Ext(player: octet, flags: octet, touchActive: octet, x0: bv16, x1: bv16, y0: bv16, y1: bv16, motion: Motion)

  function Le16(w: bv16): (r: seq<octet>)
    ensures |r| == 2
  {
    [(w & 0xFF) as octet, ((w >> 8) & 0xFF) as octet]
  }

  function From16(lo: octet, hi: octet): bv16 { (lo as bv16) | ((hi as bv16) << 8) }

  function PackedBytes(p: Packed): seq<octet> {
    [p.player, p.devType] + LeBytes(p.buttons) + [p.axes.lx, p.axes.ly, p.axes.rx, p.axes.ry, p.axes.l2, p.axes.r2]
  }

  function ParsePacked(s: seq<octet>): Packed
    requires |s| == 12
  {
    Packed(s[0], s[1], LeWord(s[2], s[3], s[4], s[5]), Axes(s[6], s[7], s[8], s[9], s[10], s[11]))
  }

  function Four(a: bv16, b: bv16, c: bv16, d: bv16): (r: seq<octet>)
    ensures |r| == 8
  {
    Le16(a) + Le16(b) + Le16(c) + Le16(d)
  }

  function ExtBytes(x: Ext): seq<octet> {
    var m := x.motion;
    [x.player, x.flags, x.touchActive] + Four(x.x0, x.x1, x.y0, x.y1) + Four(m.ax, m.ay, m.az, m.gx)
    + Four(m.gy, m.gz, m.gyroRange, m.accelRange)
  }

  function ParseExt(s: seq<octet>): Ext
    requires |s| == 27
  {
    Ext(s[0], s[1], s[2], From16(s[3], s[4]), From16(s[5], s[6]), From16(s[7], s[8]), From16(s[9], s[10]),
        Motion(From16(s[11], s[12]), From16(s[13], s[14]), From16(s[15], s[16]),
               From16(s[17], s[18]), From16(s[19], s[20]), From16(s[21], s[22]),
               From16(s[23], s[24]), From16(s[25], s[26])))
  }

  lemma Round16(w: bv16)
    ensures From16(Le16(w)[0], Le16(w)[1]) == w
  {
    Raw16(w);
  }

  lemma Raw16(w: bv16)
    ensures (((w & 0xFF) as bv8) as bv16) | (((((w >> 8) & 0xFF) as bv8) as bv16) << 8) == w
  {
  }

  lemma PackedRoundTrip(p: Packed)
    ensures |PackedBytes(p)| == 12 && ParsePacked(PackedBytes(p)) == p
  {
    LeBytesWord(p.buttons);
    hide LeWord, LeBytes;
  }

  lemma RoundFour(a: bv16, b: bv16, c: bv16, d: bv16)
    ensures var r := Four(a, b, c, d);
            From16(r[0], r[1]) == a && From16(r[2], r[3]) == b && From16(r[4], r[5]) == c && From16(r[6], r[7]) == d
  {
    Round16(a);
    Round16(b);
    Round16(c);
    Round16(d);
    hide From16, Le16;
  }

  lemma ExtRoundTrip(x: Ext)
    ensures |ExtBytes(x)| == 27 && ParseExt(ExtBytes(x)) == x
  {
    var m := x.motion;
    RoundFour(x.x0, x.x1, x.y0, x.y1);
    RoundFour(m.ax, m.ay, m.az, m.gx);
    RoundFour(m.gy, m.gz, m.gyroRange, m.accelRange);
    hide From16, Four;
  }

  // ---------------------------------------------------------------------------
  // Producer: what a tapped event puts on the link
  // ---------------------------------------------------------------------------

  /** Events that came in over a peer link are never sent back out. */
  predicate FromPeer(ev: InputEvent) { DEV_ADDR_BASE <= ev.devAddr < DEV_ADDR_BASE + 16 }

  function Pack(player: octet, ev: InputEvent): Packed { Packed(player, ev.devType, ev.buttons, ev.axes) }

  function ActiveBits(a0: bool, a1: bool): octet { (if a0 then 1 else 0) | (if a1 then 2 else 0) }

  function PackExt(player: octet, ev: InputEvent): Ext {
    var flags := (if ev.hasTouch then FLAG_TOUCH else 0) | (if ev.hasMotion then FLAG_MOTION else 0);
    var t0, t1 := if ev.hasTouch then ev.touch0 else NO_TOUCH, if ev.hasTouch then ev.touch1 else NO_TOUCH;
    Ext(player, flags, ActiveBits(t0.active, t1.active), t0.x, t1.x, t0.y, t1.y, if ev.hasMotion then ev.motion else NO_MOTION)
  }

  function EventMessage(p: Packed): Message { Message(MSG_EVENT, PackedBytes(p)) }

  function ExtMessage(x: Ext): Message { Message(MSG_EXT, ExtBytes(x)) }

  /** The messages of one tap, in order. */
  function TapMessages(player: octet, ev: InputEvent): seq<Message> {
    if FromPeer(ev) then []
    else if ev.hasTouch || ev.hasMotion
    then [ExtMessage(PackExt(player, ev)), EventMessage(Pack(player, ev))]
    else [EventMessage(Pack(player, ev))]
  }

  /** A tap sends nothing if and only if the event's address is one a peer's events carry. */
  lemma SilentIffPeerAddress(player: octet, ev: InputEvent)
    ensures TapMessages(player, ev) == [] <==> 0xC0 <= ev.devAddr < 0xD0
  {
  }

  /**
   The bytes of a tap: the EVENT is kind 1 and carries player, type, buttons low byte first and
   the six axes; with touch or motion an EXT of kind 10 goes first.
   */
  lemma TapBytes(player: octet, ev: InputEvent)
    requires !(0xC0 <= ev.devAddr < 0xD0)
    ensures var ms, a := TapMessages(player, ev), ev.axes;
            && |ms| == (if ev.hasTouch || ev.hasMotion then 2 else 1)
            && (|ms| == 2 ==> ms[0] == Message(0x0A, ExtBytesOf(player, ev)))
            && ms[|ms| - 1] == Message(0x01, [player, ev.devType,
                 (ev.buttons & 0xFF) as octet, ((ev.buttons >> 8) & 0xFF) as octet,
                 ((ev.buttons >> 16) & 0xFF) as octet, ((ev.buttons >> 24) & 0xFF) as octet,
                 a.lx, a.ly, a.rx, a.ry, a.l2, a.r2])
  {
    hide *;
    TapList(player, ev);
    ExtByteOrder(player, ev);
    EventByteOrder(Packed(player, ev.devType, ev.buttons, ev.axes));
  }

  lemma TapList(player: octet, ev: InputEvent)
    requires !(0xC0 <= ev.devAddr < 0xD0)
    ensures var ms := TapMessages(player, ev);
            && |ms| == (if ev.hasTouch || ev.hasMotion then 2 else 1)
            && (|ms| == 2 ==> ms[0] == Message(0x0A, ExtBytes(PackExt(player, ev))))
            && ms[|ms| - 1] == Message(0x01, PackedBytes(Packed(player, ev.devType, ev.buttons, ev.axes)))
  {
    hide ExtBytes, PackExt, PackedBytes;
  }

  lemma EventByteOrder(p: Packed)
    ensures PackedBytes(p) == [p.player, p.devType,
              (p.buttons & 0xFF) as octet, ((p.buttons >> 8) & 0xFF) as octet,
              ((p.buttons >> 16) & 0xFF) as octet, ((p.buttons >> 24) & 0xFF) as octet,
              p.axes.lx, p.axes.ly, p.axes.rx, p.axes.ry, p.axes.l2, p.axes.r2]
  {
    hide *;
    WordByteOrder(p.buttons);
    EventParts(p);
  }

  lemma EventParts(p: Packed)
    ensures var b := LeBytes(p.buttons);
            PackedBytes(p) == [p.player, p.devType, b[0], b[1], b[2], b[3],
                               p.axes.lx, p.axes.ly, p.axes.rx, p.axes.ry, p.axes.l2, p.axes.r2]
  {
    hide LeBytes;
  }

  lemma WordByteOrder(w: bv32)
    ensures LeBytes(w) == [(w & 0xFF) as octet, ((w >> 8) & 0xFF) as octet, ((w >> 16) & 0xFF) as octet, ((w >> 24) & 0xFF) as octet]
  {
  }

  function Low(w: bv16): octet { (w & 0xFF) as octet }
  function High(w: bv16): octet { ((w >> 8) & 0xFF) as octet }

  /** The 27 bytes of an EXT: touch is bit 0 and motion bit 1 of the flags, and what is absent is zero. */
  function ExtBytesOf(player: octet, ev: InputEvent): seq<octet> {
    var t0, t1 := if ev.hasTouch then ev.touch0 else Touch(0, 0, false), if ev.hasTouch then ev.touch1 else Touch(0, 0, false);
    var m := if ev.hasMotion then ev.motion else Motion(0, 0, 0, 0, 0, 0, 0, 0);
    var flags: octet := if ev.hasTouch && ev.hasMotion then 3 else if ev.hasMotion then 2 else if ev.hasTouch then 1 else 0;
    var active: octet := if t0.active && t1.active then 3 else if t1.active then 2 else if t0.active then 1 else 0;
    [player, flags, active,
     Low(t0.x), High(t0.x), Low(t1.x), High(t1.x), Low(t0.y), High(t0.y), Low(t1.y), High(t1.y),
     Low(m.ax), High(m.ax), Low(m.ay), High(m.ay), Low(m.az), High(m.az),
     Low(m.gx), High(m.gx), Low(m.gy), High(m.gy), Low(m.gz), High(m.gz),
     Low(m.gyroRange), High(m.gyroRange), Low(m.accelRange), High(m.accelRange)]
  }

  lemma ExtByteOrder(player: octet, ev: InputEvent)
    ensures ExtBytes(PackExt(player, ev)) == ExtBytesOf(player, ev)
  {
    var x := PackExt(player, ev);
    var m := x.motion;
    BitValues(ev.hasTouch, ev.hasMotion);
    var t0, t1 := if ev.hasTouch then ev.touch0 else NO_TOUCH, if ev.hasTouch then ev.touch1 else NO_TOUCH;
    BitValues(t0.active, t1.active);
    ExtParts(x);
    hide Low, High, ActiveBits, ExtBytes;
  }

  lemma BitValues(a: bool, b: bool)
    ensures ActiveBits(a, b) == if a && b then 3 else if b then 2 else if a then 1 else 0
    ensures (if a then FLAG_TOUCH else 0) | (if b then FLAG_MOTION else 0) == if a && b then 3 else if b then 2 else if a then 1 else 0
  {
  }

  lemma ExtParts(x: Ext)
    ensures var m := x.motion;
            ExtBytes(x) == [x.player, x.flags, x.touchActive,
              Low(x.x0), High(x.x0), Low(x.x1), High(x.x1), Low(x.y0), High(x.y0), Low(x.y1), High(x.y1),
              Low(m.ax), High(m.ax), Low(m.ay), High(m.ay), Low(m.az), High(m.az),
              Low(m.gx), High(m.gx), Low(m.gy), High(m.gy), Low(m.gz), High(m.gz),
              Low(m.gyroRange), High(m.gyroRange), Low(m.accelRange), High(m.accelRange)]
  {
    var m := x.motion;
    Halves4(x.x0, x.x1, x.y0, x.y1);
    Halves4(m.ax, m.ay, m.az, m.gx);
    Halves4(m.gy, m.gz, m.gyroRange, m.accelRange);
    ExtGroups(x);
    hide *;
    Joined([x.player, x.flags, x.touchActive], Four(x.x0, x.x1, x.y0, x.y1), Four(m.ax, m.ay, m.az, m.gx),
           Four(m.gy, m.gz, m.gyroRange, m.accelRange));
  }

  lemma ExtGroups(x: Ext)
    ensures var m := x.motion;
            ExtBytes(x) == [x.player, x.flags, x.touchActive] + Four(x.x0, x.x1, x.y0, x.y1) + Four(m.ax, m.ay, m.az, m.gx)
                           + Four(m.gy, m.gz, m.gyroRange, m.accelRange)
  {
    hide Four;
  }

  lemma Joined(h: seq<octet>, a: seq<octet>, b: seq<octet>, c: seq<octet>)
    requires |h| == 3 && |a| == |b| == |c| == 8
    ensures h + a + b + c == [h[0], h[1], h[2], a[0], a[1], a[2], a[3], a[4], a[5], a[6], a[7],
              b[0], b[1], b[2], b[3], b[4], b[5], b[6], b[7], c[0], c[1], c[2], c[3], c[4], c[5], c[6], c[7]]
  {
  }

  lemma HalfIs(w: bv16)
    ensures Le16(w) == [Low(w), High(w)]
  {
  }

  lemma Halves4(a: bv16, b: bv16, c: bv16, d: bv16)
    ensures Four(a, b, c, d) == [Low(a), High(a), Low(b), High(b), Low(c), High(c), Low(d), High(d)]
  {
    hide Le16, Low, High;
    HalfIs(a);
    HalfIs(b);
    HalfIs(c);
    HalfIs(d);
  }

  // ---------------------------------------------------------------------------
  // Consumer
  // ---------------------------------------------------------------------------

  /** The EXT waiting for each slot's next EVENT. */
  type Slots = s: seq<Option<Ext>> | |s| == EXT_SLOTS witness seq(EXT_SLOTS, _ => None)

  const EMPTY: Slots := [None, None, None, None, None, None, None, None]

  function Slot(player: octet): (r: int)
    ensures 0 <= r < EXT_SLOTS
  {
    (player & 7) as int
  }

  /** The event submitted for an EVENT, with the extended state x that was waiting. */
  function Submitted(p: Packed, x: Option<Ext>): InputEvent {
    var touch := x.Some? && x.value.flags & FLAG_TOUCH != 0;
    var motion := x.Some? && x.value.flags & FLAG_MOTION != 0;
    InputEvent(DEV_ADDR_BASE + p.player, p.devType, p.buttons, p.axes, 0,
      touch, if touch then Touch(x.value.x0, x.value.y0, x.value.touchActive & 1 != 0) else NO_TOUCH,
      if touch then Touch(x.value.x1, x.value.y1, (x.value.touchActive >> 1) & 1 != 0) else NO_TOUCH,
      motion, if motion then x.value.motion else NO_MOTION)
  }

  function IsEvent(m: Message): bool { m.kind == MSG_EVENT && |m.payload| == 12 }
  function IsExt(m: Message): bool { m.kind == MSG_EXT && |m.payload| == 27 }

  function Consumed(sl: Slots, m: Message): Slots {
    if IsEvent(m) then sl[Slot(ParsePacked(m.payload).player) := None]
    else if IsExt(m) then sl[Slot(ParseExt(m.payload).player) := Some(ParseExt(m.payload))]
    else sl
  }

  /** The events handed to the router for one message. */
  function Routed(sl: Slots, m: Message): seq<InputEvent> {
    if IsEvent(m) then
      var p := ParsePacked(m.payload);
      [Submitted(p, sl[Slot(p.player)])]
    else []
  }

  function ConsumedAll(sl: Slots, ms: seq<Message>): Slots {
    if ms == [] then sl else Consumed(ConsumedAll(sl, ms[..|ms| - 1]), ms[|ms| - 1])
  }

  function RoutedAll(sl: Slots, ms: seq<Message>): seq<InputEvent> {
    if ms == [] then [] else RoutedAll(sl, ms[..|ms| - 1]) + Routed(ConsumedAll(sl, ms[..|ms| - 1]), ms[|ms| - 1])
  }

  lemma RoutedMore(sl: Slots, ms: seq<Message>, m: Message)
    ensures ConsumedAll(sl, ms + [m]) == Consumed(ConsumedAll(sl, ms), m)
    ensures RoutedAll(sl, ms + [m]) == RoutedAll(sl, ms) + Routed(ConsumedAll(sl, ms), m)
  {
    assert (ms + [m])[..|ms|] == ms;
  }

  /** What a tapped event must come out as: type, buttons, axes, touch and motion kept. */
  function Expected(player: octet, ev: InputEvent): InputEvent {
    InputEvent(0xC0 + player, ev.devType, ev.buttons, ev.axes, 0,
      ev.hasTouch, if ev.hasTouch then ev.touch0 else NO_TOUCH, if ev.hasTouch then ev.touch1 else NO_TOUCH,
      ev.hasMotion, if ev.hasMotion then ev.motion else NO_MOTION)
  }

  lemma FlagBits(t: bool, m: bool)
    ensures var f: octet := (if t then FLAG_TOUCH else 0) | (if m then FLAG_MOTION else 0);
            (f & FLAG_TOUCH != 0) == t && (f & FLAG_MOTION != 0) == m
  {
  }

  lemma ActiveRoundTrip(a0: bool, a1: bool)
    ensures (ActiveBits(a0, a1) & 1 != 0) == a0 && ((ActiveBits(a0, a1) >> 1) & 1 != 0) == a1
  {
  }

  /** An EVENT paired with its own EXT is the tapped event. */
  lemma PairedIsExpected(player: octet, ev: InputEvent)
    ensures Submitted(Pack(player, ev), Some(PackExt(player, ev))) == Expected(player, ev)
    ensures !ev.hasTouch && !ev.hasMotion ==> Submitted(Pack(player, ev), None) == Expected(player, ev)
  {
    FlagBits(ev.hasTouch, ev.hasMotion);
    var t0, t1 := if ev.hasTouch then ev.touch0 else NO_TOUCH, if ev.hasTouch then ev.touch1 else NO_TOUCH;
    ActiveRoundTrip(t0.active, t1.active);
    hide ActiveBits;
  }

  /** An event the consumer has submitted is sent out again if and only if its player number is beyond 15. */
  lemma EchoedIffBeyond15(p: Packed, x: Option<Ext>, player: octet)
    ensures TapMessages(player, Submitted(p, x)) == [] <==> p.player < 16
  {
    hide EventMessage, ExtMessage, Pack, PackExt;
  }

  datatype Tap = Tap(player: octet, ev: InputEvent)

  /** What the producer says: a tapped event, or a packed event again. */
  datatype Utterance = Fresh(t: Tap) | Again(p: Packed)

  function MessagesOf(u: Utterance): seq<Message> {
    match u
    case Fresh(t) => TapMessages(t.player, t.ev)
    case Again(p) => [EventMessage(p)]
  }

  /** What the router must hear of it: the tapped event as it was, or the packed one with neither touch nor motion. */
  function EventsOf(u: Utterance): seq<InputEvent> {
    match u
    case Fresh(t) => if 0xC0 <= t.ev.devAddr < 0xD0 then [] else [Expected(t.player, t.ev)]
    case Again(p) => [Submitted(p, None)]
  }

  function AllMessages(us: seq<Utterance>): seq<Message> {
    if us == [] then [] else AllMessages(us[..|us| - 1]) + MessagesOf(us[|us| - 1])
  }

  function AllExpected(us: seq<Utterance>): seq<InputEvent> {
    if us == [] then [] else AllExpected(us[..|us| - 1]) + EventsOf(us[|us| - 1])
  }

  lemma SlotCleared(k: int, x: Ext)
    requires 0 <= k < EXT_SLOTS
    ensures EMPTY[k := Some(x)][k := None] == EMPTY
  {
  }

  lemma SlotIsEmpty(k: int)
    requires 0 <= k < EXT_SLOTS
    ensures EMPTY[k] == None && EMPTY[k := None] == EMPTY
  {
  }

  lemma PairRouted(ms: seq<Message>, p: Packed, x: Ext)
    requires ConsumedAll(EMPTY, ms) == EMPTY && p.player == x.player
    ensures var all := ms + [ExtMessage(x), EventMessage(p)];
            ConsumedAll(EMPTY, all) == EMPTY && RoutedAll(EMPTY, all) == RoutedAll(EMPTY, ms) + [Submitted(p, Some(x))]
  {
    hide *;
    var k, ext, event := Slot(p.player), ExtMessage(x), EventMessage(p);
    SlotCleared(k, x);
    ExtStep(EMPTY, x);
    EventStep(EMPTY[k := Some(x)], p);
    RoutedMore(EMPTY, ms, ext);
    RoutedMore(EMPTY, ms + [ext], event);
    assert ms + [ext] + [event] == ms + [ext, event];
  }

  lemma AgainArrives(ms: seq<Message>, p: Packed)
    requires ConsumedAll(EMPTY, ms) == EMPTY
    ensures var all := ms + [EventMessage(p)];
            ConsumedAll(EMPTY, all) == EMPTY && RoutedAll(EMPTY, all) == RoutedAll(EMPTY, ms) + [Submitted(p, None)]
  {
    hide *;
    SlotIsEmpty(Slot(p.player));
    EventStep(EMPTY, p);
    RoutedMore(EMPTY, ms, EventMessage(p));
  }

  /** One tap's messages, from empty slots, submit the expected event and leave the slots empty. */
  lemma TapArrives(ms: seq<Message>, t: Tap)
    requires ConsumedAll(EMPTY, ms) == EMPTY && !FromPeer(t.ev)
    ensures var all := ms + TapMessages(t.player, t.ev);
            ConsumedAll(EMPTY, all) == EMPTY && RoutedAll(EMPTY, all) == RoutedAll(EMPTY, ms) + [Expected(t.player, t.ev)]
  {
    var p, x := Pack(t.player, t.ev), PackExt(t.player, t.ev);
    PairedIsExpected(t.player, t.ev);
    assert p.player == x.player;
    assert TapMessages(t.player, t.ev)
        == if t.ev.hasTouch || t.ev.hasMotion then [ExtMessage(x), EventMessage(p)] else [EventMessage(p)];
    hide *;
    PairRouted(ms, p, x);
    AgainArrives(ms, p);
  }

  lemma EventStep(sl: Slots, p: Packed)
    ensures Consumed(sl, EventMessage(p)) == sl[Slot(p.player) := None]
    ensures Routed(sl, EventMessage(p)) == [Submitted(p, sl[Slot(p.player)])]
  {
    PackedRoundTrip(p);
    hide PackedBytes, ParsePacked, Submitted, Slot;
  }

  lemma ExtStep(sl: Slots, x: Ext)
    ensures Consumed(sl, ExtMessage(x)) == sl[Slot(x.player) := Some(x)] && Routed(sl, ExtMessage(x)) == []
  {
    ExtRoundTrip(x);
    hide ExtBytes, ParseExt, Slot;
  }

  /** Over a loss-free link every tapped event is submitted with all it carried, in order, whatever is repeated in between. */
  lemma {:induction false} AllArrive(us: seq<Utterance>)
    ensures ConsumedAll(EMPTY, AllMessages(us)) == EMPTY
    ensures RoutedAll(EMPTY, AllMessages(us)) == AllExpected(us)
  {
    if us != [] {
      var init, u := us[..|us| - 1], us[|us| - 1];
      AllArrive(init);
      hide ConsumedAll, RoutedAll, Expected, Submitted, EventMessage, ExtMessage, Pack, PackExt, FromPeer;
      match u {
        case Again(p) => AgainArrives(AllMessages(init), p);
        case Fresh(t) =>
          if FromPeer(t.ev) {
            assert AllMessages(init) + [] == AllMessages(init);
          } else {
            TapArrives(AllMessages(init), t);
          }
      }
    }
  }
}
