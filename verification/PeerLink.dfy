/**
 The two ends of the input link as the code runs them: the producer's tap and task, the
 consumer's dispatcher, and what reaches the router at the far end.
 */
module PeerLink {
  import opened Common
  import opened Crc
  import opened Slip
  import opened LinkRing
  import opened PeerEvents

  const EVENT_REFRESH_MS := 100

  function FrameOf(m: Message): seq<octet> { Frame(m.kind, m.payload) }

  function FramesOf(ms: seq<Message>): seq<seq<octet>> {
    if ms == [] then [] else FramesOf(ms[..|ms| - 1]) + [FrameOf(ms[|ms| - 1])]
  }

  /** The bytes a list of messages puts on the wire. */
  function Wire(ms: seq<Message>): seq<octet> { EncodeAll(FramesOf(ms)) }

  /** The messages of the frames that pass the checksum. */
  function Passed(fs: seq<seq<octet>>): seq<Message> {
    if fs == [] then []
    else
      var last := fs[|fs| - 1];
      Passed(fs[..|fs| - 1]) + (if Accepted(last) then [Decoded(last)] else [])
  }

  lemma FramesMore(ms: seq<Message>, m: Message)
    ensures FramesOf(ms + [m]) == FramesOf(ms) + [FrameOf(m)]
  {
    assert (ms + [m])[..|ms|] == ms;
  }

  lemma WireMore(ms: seq<Message>, m: Message)
    ensures Wire(ms + [m]) == Wire(ms) + Encode(FrameOf(m))
  {
    FramesMore(ms, m);
    EncodeMore(FramesOf(ms), FrameOf(m));
  }

  lemma {:induction false} FramesPass(ms: seq<Message>)
    requires forall m :: m in ms ==> |m.payload| <= PAYLOAD_MAX
    ensures Passed(FramesOf(ms)) == ms && forall f :: f in FramesOf(ms) ==> Sendable(f)
  {
    if ms != [] {
      var init, m := ms[..|ms| - 1], ms[|ms| - 1];
      assert ms == init + [m] && m in ms;
      FramesPass(init);
      FrameAccepted(m.kind, m.payload);
      var f, fs := FrameOf(m), FramesOf(init);
      assert |f| <= RX_FRAME_MAX && 0 < |f|;
      hide Accepted, FrameOf, Decoded;
      assert (fs + [f])[..|fs|] == fs;
    }
  }

  lemma PayloadsFit(u: Utterance)
    ensures forall m :: m in MessagesOf(u) ==> |m.payload| <= PAYLOAD_MAX
  {
    match u {
      case Fresh(t) => TapShape(t.player, t.ev);
      case Again(p) => EventFits(p);
    }
  }

  lemma {:induction false} AllPayloadsFit(us: seq<Utterance>)
    ensures forall m :: m in AllMessages(us) ==> |m.payload| <= PAYLOAD_MAX
  {
    if us != [] {
      hide MessagesOf;
      AllPayloadsFit(us[..|us| - 1]);
      PayloadsFit(us[|us| - 1]);
    }
  }

  /** From taps, with refreshes anywhere between them, to routed events, through frames, checksums and the byte stream. */
  lemma EventsCrossTheLink(us: seq<Utterance>)
    ensures RoutedAll(EMPTY, Passed(RxFrames(CLEAN, Wire(AllMessages(us))))) == AllExpected(us)
  {
    hide AllExpected;
    AllPayloadsFit(us);
    FramesPass(AllMessages(us));
    RxExact(FramesOf(AllMessages(us)));
    AllArrive(us);
  }

  /** Whether the refresh timer, a wrapping 32-bit millisecond count, has run out. */
  predicate RefreshDue(lastTx: int, now: int) { (now - lastTx) % U32 >= EVENT_REFRESH_MS }

  /** That is when 100 ms or more have passed, up to the clock's period. */
  lemma RefreshDueAfter(last: int, now: int)
    requires last <= now < last + 0x1_0000_0000
    ensures RefreshDue(last % 0x1_0000_0000, now % 0x1_0000_0000) <==> now - last >= 100
  {
    WrapDifference(last, now);
  }

  // ---------------------------------------------------------------------------
  // The producer
  // ---------------------------------------------------------------------------

  class Producer {
    const ring: TxRing
    var last: Option<Packed>
    var lastTx: int

    ghost predicate Valid()
      reads this, ring
    {
      ring.Valid()
    }

    constructor ()
      ensures Valid() && ring.Queue() == [] && ring.drops == 0 && last == None && lastTx == 0 && fresh(ring) && fresh(ring.ring)
    {
      ring := new TxRing();
      last, lastTx := None, 0;
    }

    /** Send one message after others of the same call. */
    method SendNext(m: Message, ghost q0: seq<octet>, ghost d0: int, ghost before: seq<Message>)
      requires ring.Pushed(q0, d0, Wire(before)) && |m.payload| <= PAYLOAD_MAX
      modifies ring, ring.ring
      ensures ring.Pushed(q0, d0, Wire(before + [m]))
    {
      hide Queued, Lost, Encode, Wire, Frame;
      ring.FrameSend(m.kind, m.payload);
      WireMore(before, m);
      QueuedConcat(q0, Wire(before), Encode(FrameOf(m)));
      LostConcat(q0, Wire(before), Encode(FrameOf(m)));
    }

    /** The router tap: EXT first when there is touch or motion, then EVENT; the event is remembered. */
    method Tap(now: int, player: octet, ev: InputEvent)
      requires Valid() && 0 <= now < U32
      modifies this`last, this`lastTx, ring, ring.ring
      ensures ring.Pushed(old(ring.Queue()), old(ring.drops), Wire(TapMessages(player, ev)))
      ensures FromPeer(ev) ==> last == old(last) && lastTx == old(lastTx)
      ensures !FromPeer(ev) ==> last == Some(Pack(player, ev)) && lastTx == now
      ensures 0xC0 <= ev.devAddr < 0xD0 ==> ring.Queue() == old(ring.Queue()) && last == old(last) && lastTx == old(lastTx)
      ensures !(0xC0 <= ev.devAddr < 0xD0) ==> last == Some(Pack(player, ev)) && TapMessages(player, ev) != []
    {
      ghost var q0, d0 := ring.Queue(), ring.drops;
      StartBurst(q0, d0);
      TapShape(player, ev);
      hide TapMessages, FromPeer, EventMessage, ExtMessage, PackExt, Pack, Wire;
      if FromPeer(ev) { return; }
      var packed := Pack(player, ev);
      SendBurst(ev.hasTouch || ev.hasMotion, ExtMessage(PackExt(player, ev)), EventMessage(packed));
      last, lastTx := Some(packed), now;
    }

    /** A message, preceded by another if there is one. */
    method SendBurst(both: bool, first: Message, second: Message)
      requires Valid() && |first.payload| <= PAYLOAD_MAX && |second.payload| <= PAYLOAD_MAX
      modifies ring, ring.ring
      ensures ring.Pushed(old(ring.Queue()), old(ring.drops), Wire(if both then [first, second] else [second]))
    {
      ghost var q0, d0 := ring.Queue(), ring.drops;
      hide *;
      StartBurst(q0, d0);
      assert [] + [first] == [first] && [first] + [second] == [first, second] && [] + [second] == [second];
      if both {
        SendNext(first, q0, d0, []);
        SendNext(second, q0, d0, [first]);
      } else {
        SendNext(second, q0, d0, []);
      }
    }

    lemma StartBurst(q0: seq<octet>, d0: int)
      requires Valid() && ring.Queue() == q0 && ring.drops == d0
      ensures ring.Pushed(q0, d0, Wire([]))
    {
      ring.PushedNothing(q0, d0);
      WireNone();
    }

    /**
     The periodic task's sending half: drain, then, if the ring is empty and the last
     transmission is 100 ms old, queue the last event again.
     */
    method Task(now: int, writable: int) returns (sent: seq<octet>)
      requires Valid() && 0 <= now < U32 && 0 <= writable
      modifies this`lastTx, ring, ring.ring
      ensures var q := old(ring.Queue()); var n := Min(writable, |q|); sent == q[..n]
      ensures var due := last.Some? && |old(ring.Queue())| <= writable && RefreshDue(old(lastTx), now);
              && lastTx == (if due then now else old(lastTx))
              && ring.Pushed(old(ring.Queue())[|sent|..], old(ring.drops), if due then Wire([EventMessage(last.value)]) else Wire([]))
    {
      hide Wire, RefreshDue, EventMessage;
      ghost var q := ring.Queue();
      sent := ring.Drain(writable);
      assert q[..|sent|] == sent && q[|sent|..] == ring.Queue();
      RefreshIfDue(now);
    }

    /** Queue the last event again if the ring is empty and the last transmission is 100 ms old. */
    method RefreshIfDue(now: int)
      requires Valid() && 0 <= now < U32
      modifies this`lastTx, ring, ring.ring
      ensures var due := last.Some? && old(ring.Queue()) == [] && RefreshDue(old(lastTx), now);
              && lastTx == (if due then now else old(lastTx))
              && ring.Pushed(old(ring.Queue()), old(ring.drops), if due then Wire([EventMessage(last.value)]) else Wire([]))
    {
      hide Wire, EventMessage;
      ghost var q0, d0 := ring.Queue(), ring.drops;
      ring.EmptyIff();
      StartBurst(q0, d0);
      if last.Some? && ring.tail == ring.head && (now - lastTx) % U32 >= EVENT_REFRESH_MS {
        lastTx := now;
        EventFits(last.value);
        SendNext(EventMessage(last.value), q0, d0, []);
        assert [] + [EventMessage(last.value)] == [EventMessage(last.value)];
      }
    }
  }

  lemma EventFits(p: Packed)
    ensures |EventMessage(p).payload| == 12
  {
    PackedRoundTrip(p);
  }

  lemma TapShape(player: octet, ev: InputEvent)
    ensures FromPeer(ev) ==> TapMessages(player, ev) == []
    ensures var m0, m1 := ExtMessage(PackExt(player, ev)), EventMessage(Pack(player, ev));
            && |m0.payload| <= PAYLOAD_MAX && |m1.payload| <= PAYLOAD_MAX
            && (!FromPeer(ev) ==> TapMessages(player, ev) == if ev.hasTouch || ev.hasMotion then [m0, m1] else [m1])
  {
    PackedRoundTrip(Pack(player, ev));
    ExtRoundTrip(PackExt(player, ev));
  }

  lemma WireNone()
    ensures Wire([]) == StuffAll([])
  {
  }

  // ---------------------------------------------------------------------------
  // The consumer
  // ---------------------------------------------------------------------------

  class Consumer {
    const ext: array<Ext>
    const extValid: array<bool>
    var crcDrops: int

    ghost predicate Valid()
      reads this
    {
      ext.Length == EXT_SLOTS && extValid.Length == EXT_SLOTS && 0 <= crcDrops < U32
    }

    ghost function Waiting(): Slots
      requires Valid()
      reads this, ext, extValid
    {
      seq(EXT_SLOTS, i requires 0 <= i < EXT_SLOTS reads this, ext, extValid => if extValid[i] then Some(ext[i]) else None)
    }

    /** The dispatcher: drop what fails the checksum, route an EVENT, keep an EXT. */
    method DispatchFrame(f: seq<octet>) returns (out: seq<InputEvent>)
      requires Valid()
      modifies this`crcDrops, ext, extValid
      ensures Valid()
      ensures !Accepted(f) ==> out == [] && Waiting() == old(Waiting())
      ensures |f| >= 5 && !Accepted(f) ==> crcDrops == (old(crcDrops) + 1) % U32
      ensures Accepted(f) ==> out == Routed(old(Waiting()), Decoded(f)) && Waiting() == Consumed(old(Waiting()), Decoded(f))
    {
      out := [];
      if |f| < 5 { return; }
      var crc := ComputeCrc32(f[..|f| - 4]);
      if crc != Tail(f) {
        crcDrops := (crcDrops + 1) % U32;
        return;
      }
      var m := Message(f[0], f[1..|f| - 4]);
      out := Handle(m);
    }

    method Handle(m: Message) returns (out: seq<InputEvent>)
      requires Valid()
      modifies ext, extValid
      ensures out == Routed(old(Waiting()), m) && Waiting() == Consumed(old(Waiting()), m)
    {
      hide Submitted, ParsePacked, ParseExt, Slot;
      out := [];
      if IsEvent(m) {
        var p := ParsePacked(m.payload);
        var i := Slot(p.player);
        out := [Submitted(p, if extValid[i] then Some(ext[i]) else None)];
        extValid[i] := false;
      } else if IsExt(m) {
        var x := ParseExt(m.payload);
        var i := Slot(x.player);
        ext[i] := x;
        extValid[i] := true;
      }
    }
  }
}
