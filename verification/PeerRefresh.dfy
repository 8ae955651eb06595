/**
 The periodic refresh on a quiet link: whatever was lost before, the tasks alone bring the last
 tapped player's state back to the router, and this says when and with which touch and motion.
 */
module PeerRefresh {
  import opened Common
  import opened Crc
  import opened Slip
  import opened LinkRing
  import opened PeerEvents
  import opened PeerLink

  // ---------------------------------------------------------------------------
  // What the router hears
  // ---------------------------------------------------------------------------

  lemma {:induction false} PassedConcat(x: seq<seq<octet>>, y: seq<seq<octet>>)
    ensures Passed(x + y) == Passed(x) + Passed(y)
  {
    hide Accepted, Decoded;
    if y == [] {
      assert x + y == x;
    } else {
      PassedConcat(x, y[..|y| - 1]);
      assert (x + y)[..|x + y| - 1] == x + y[..|y| - 1];
    }
  }

  lemma {:induction false} RoutedConcat(sl: Slots, x: seq<Message>, y: seq<Message>)
    ensures ConsumedAll(sl, x + y) == ConsumedAll(ConsumedAll(sl, x), y)
    ensures RoutedAll(sl, x + y) == RoutedAll(sl, x) + RoutedAll(ConsumedAll(sl, x), y)
  {
    hide Consumed, Routed;
    if y == [] {
      assert x + y == x;
    } else {
      RoutedConcat(sl, x, y[..|y| - 1]);
      assert (x + y)[..|x + y| - 1] == x + y[..|y| - 1];
    }
  }

  /** The events routed for bytes received from a given state, and the extensions left waiting. */
  function Heard(st: Rx, sl: Slots, bytes: seq<octet>): seq<InputEvent> { RoutedAll(sl, Passed(RxFrames(st, bytes))) }

  function Left(st: Rx, sl: Slots, bytes: seq<octet>): Slots { ConsumedAll(sl, Passed(RxFrames(st, bytes))) }

  lemma HeardConcat(st: Rx, sl: Slots, x: seq<octet>, y: seq<octet>)
    ensures Heard(st, sl, x + y) == Heard(st, sl, x) + Heard(RxRun(st, x), Left(st, sl, x), y)
    ensures Left(st, sl, x + y) == Left(RxRun(st, x), Left(st, sl, x), y)
  {
    hide RxFrames, RxRun, Passed, RoutedAll, ConsumedAll;
    RxConcat(st, x, y);
    PassedConcat(RxFrames(st, x), RxFrames(RxRun(st, x), y));
    RoutedConcat(sl, Passed(RxFrames(st, x)), Passed(RxFrames(RxRun(st, x), y)));
  }

  lemma HeardNothing(st: Rx, sl: Slots, bytes: seq<octet>)
    requires RxFrames(st, bytes) == []
    ensures Heard(st, sl, bytes) == [] && Left(st, sl, bytes) == sl
  {
  }

  // ---------------------------------------------------------------------------
  // One refresh
  // ---------------------------------------------------------------------------

  /** The bytes one refresh puts on the wire. */
  function RefreshBytes(p: Packed): seq<octet> { Encode(FrameOf(EventMessage(p))) }

  lemma RefreshFrame(p: Packed)
    ensures var f := FrameOf(EventMessage(p)); |f| == 17 && f[0] == MSG_EVENT && Accepted(f) && Decoded(f) == EventMessage(p)
  {
    PackedRoundTrip(p);
    FrameAccepted(MSG_EVENT, PackedBytes(p));
    hide Crc32, LeBytes, Accepted, PackedBytes, Decoded;
  }

  /** The player, type, buttons and axes of a packed event. */
  predicate Carries(e: InputEvent, p: Packed) {
    e.devAddr == DEV_ADDR_BASE + p.player && e.devType == p.devType && e.buttons == p.buttons && e.axes == p.axes
  }

  lemma HeardOne(st: Rx, sl: Slots, bytes: seq<octet>, f: seq<octet>)
    requires RxFrames(st, bytes) == [f]
    ensures Accepted(f) ==> Heard(st, sl, bytes) == Routed(sl, Decoded(f)) && Left(st, sl, bytes) == Consumed(sl, Decoded(f))
    ensures !Accepted(f) ==> Heard(st, sl, bytes) == [] && Left(st, sl, bytes) == sl
  {
    hide RxFrames, Accepted, Decoded, Routed, Consumed;
    assert [f][..0] == [];
    if Accepted(f) {
      PassedOne(Decoded(f), f);
      OneRouted(sl, Decoded(f));
    } else {
      NonePassed(f);
    }
  }

  lemma PassedOne(m: Message, f: seq<octet>)
    requires Accepted(f) && Decoded(f) == m
    ensures Passed([f]) == [m]
  {
    assert [f][..0] == [];
  }

  lemma NonePassed(f: seq<octet>)
    requires !Accepted(f)
    ensures Passed([f]) == []
  {
    assert [f][..0] == [];
  }

  lemma OneRouted(sl: Slots, m: Message)
    ensures RoutedAll(sl, [m]) == Routed(sl, m) && ConsumedAll(sl, [m]) == Consumed(sl, m)
  {
    assert [m][..0] == [];
  }

  /** A frame of another length than 17 is no event. */
  lemma NotAnEvent(sl: Slots, f: seq<octet>)
    requires Accepted(f) && |f| != 17
    ensures Routed(sl, Decoded(f)) == []
  {
    hide Crc32, Tail, ParsePacked, Submitted;
  }

  /**
   The exact effect of one refresh, whatever state losses left: it is routed, with the touch and
   motion of the extension that was waiting for its player, if and only if the receiver holds
   no part of a frame; otherwise nothing is routed, and either way the receiver is clean after it.
   */
  lemma RefreshRoutedIff(st: Rx, sl: Slots, p: Packed)
    requires |st.buf| <= RX_FRAME_MAX
    ensures RxRun(st, RefreshBytes(p)) == CLEAN
    ensures Heard(st, sl, RefreshBytes(p)) == if st.buf == [] then [Submitted(p, sl[Slot(p.player)])] else []
    ensures st.buf == [] ==> Left(st, sl, RefreshBytes(p)) == sl[Slot(p.player) := None]
  {
    var f := FrameOf(EventMessage(p));
    RefreshFrame(p);
    hide Encode, RxFrames, RxRun, FrameOf, Heard, Left, Filled, Accepted, Decoded, EventMessage, Submitted, Slot, Routed, Consumed, Taken;
    RxBehind(st, f);
    PlainTaken(st, f);
    BehindPart(st.buf, f);
    if st.buf == [] {
      HeardOne(st, sl, RefreshBytes(p), f);
      EventStep(sl, p);
    } else if Filled(st.buf, f) == [] {
      HeardNothing(st, sl, RefreshBytes(p));
    } else {
      var g := Filled(st.buf, f);
      HeardOne(st, sl, RefreshBytes(p), g);
      if Accepted(g) {
        NotAnEvent(sl, g);
      }
    }
  }

  /** The extension waiting for a player has exactly an event's touch and motion. */
  predicate Matches(x: Option<Ext>, ev: InputEvent) {
    match x
    case None => !ev.hasTouch && !ev.hasMotion
    case Some(e) =>
      && (e.flags & FLAG_TOUCH != 0) == ev.hasTouch && (e.flags & FLAG_MOTION != 0) == ev.hasMotion
      && (ev.hasTouch ==> ev.touch0 == Touch(e.x0, e.y0, e.touchActive & 1 != 0)
                          && ev.touch1 == Touch(e.x1, e.y1, (e.touchActive >> 1) & 1 != 0))
      && (ev.hasMotion ==> ev.motion == e.motion)
  }

  /**
   A refresh repeats the tapped event exactly when the extension waiting has its touch and
   motion. With none waiting that is when it had neither; with its own, whose EVENT was lost,
   it is so always. And it is never for another player.
   */
  lemma RefreshRepeatsExactly(sl: Slots, player: octet, ev: InputEvent, other: octet)
    ensures Routed(sl, EventMessage(Pack(player, ev))) == [Expected(player, ev)] <==> Matches(sl[Slot(player)], ev)
    ensures sl[Slot(player)] == Some(PackExt(player, ev))
            ==> Routed(sl, EventMessage(Pack(player, ev))) == [Expected(player, ev)]
    ensures other != player ==> !Carries(Routed(sl, EventMessage(Pack(player, ev)))[0], Pack(other, ev))
  {
    EventStep(sl, Pack(player, ev));
    PairedIsExpected(player, ev);
    hide Routed, EventMessage, PackExt, Slot;
  }

  // ---------------------------------------------------------------------------
  // Many refreshes
  // ---------------------------------------------------------------------------

  function Copies(e: seq<octet>, n: nat): seq<octet> { if n == 0 then [] else Copies(e, n - 1) + e }

  /** The same event n times, the first with what extension x carries and the rest with neither touch nor motion. */
  function Repeats(p: Packed, x: Option<Ext>, n: nat): (r: seq<InputEvent>)
    ensures |r| == n
  {
    if n == 0 then [] else Repeats(p, x, n - 1) + [Submitted(p, if n == 1 then x else None)]
  }

  lemma {:induction false} RepeatsCarry(p: Packed, x: Option<Ext>, n: nat)
    ensures forall i :: 0 <= i < n ==> Carries(Repeats(p, x, n)[i], p)
  {
    if n > 0 {
      RepeatsCarry(p, x, n - 1);
    }
  }

  lemma CopiesMore(e: seq<octet>, n: nat)
    ensures Copies(e, n + 1) == Copies(e, n) + e
  {
  }

  lemma RepeatsMore(p: Packed, x: Option<Ext>, n: nat)
    ensures Repeats(p, x, n + 1) == Repeats(p, x, n) + [Submitted(p, if n == 0 then x else None)]
  {
    hide Submitted;
  }

  lemma CleanNone(st: Rx, sl: Slots, p: Packed)
    ensures RxRun(st, Copies(RefreshBytes(p), 0)) == st
    ensures Heard(st, sl, Copies(RefreshBytes(p), 0)) == Repeats(p, sl[Slot(p.player)], 0)
    ensures Left(st, sl, Copies(RefreshBytes(p), 0)) == sl
  {
    assert RxFrames(st, []) == [];
    hide Heard, Left, RefreshBytes;
    HeardNothing(st, sl, []);
  }

  /** From a receiver that holds no part of a frame, n refreshes are routed n times. */
  lemma {:induction false} CleanRepeats(st: Rx, sl: Slots, p: Packed, n: nat)
    requires st.buf == []
    ensures RxRun(st, Copies(RefreshBytes(p), n)).buf == []
    ensures Heard(st, sl, Copies(RefreshBytes(p), n)) == Repeats(p, sl[Slot(p.player)], n)
    ensures Left(st, sl, Copies(RefreshBytes(p), n)) == if n == 0 then sl else sl[Slot(p.player) := None]
  {
    hide RxRun, Heard, Left, RefreshBytes, Submitted, Slot, Repeats, Copies;
    if n == 0 {
      CleanNone(st, sl, p);
    } else {
      var e, c, k := RefreshBytes(p), Copies(RefreshBytes(p), n - 1), Slot(p.player);
      CopiesMore(e, n - 1);
      RepeatsMore(p, sl[k], n - 1);
      CleanRepeats(st, sl, p, n - 1);
      HeardConcat(st, sl, c, e);
      RxConcat(st, c, e);
      RefreshRoutedIff(RxRun(st, c), Left(st, sl, c), p);
      ClearedAgain(sl, k);
    }
  }

  lemma ClearedAgain(sl: Slots, k: int)
    requires 0 <= k < EXT_SLOTS
    ensures sl[k := None][k] == None && sl[k := None][k := None] == sl[k := None]
  {
  }

  /** How many of n refreshes get through. */
  function Through(st: Rx, n: nat): nat { if st.buf == [] || n == 0 then n else n - 1 }

  /** The extension the first of them carries: what waits for the player when it arrives. */
  function Waits(st: Rx, sl: Slots, p: Packed): Option<Ext> {
    (if st.buf == [] then sl else Left(st, sl, RefreshBytes(p)))[Slot(p.player)]
  }

  lemma {:induction false} CopiesFirst(e: seq<octet>, n: nat)
    requires n > 0
    ensures Copies(e, n) == e + Copies(e, n - 1)
  {
    if n == 1 {
      assert Copies(e, 0) == [];
      assert [] + e == e + [];
    } else {
      CopiesFirst(e, n - 1);
      assert e + Copies(e, n - 2) + e == e + (Copies(e, n - 2) + e);
    }
  }

  /** From any receiver, n refreshes route the event n times, or n - 1 if the first met part of another frame. */
  lemma RefreshesRepeat(st: Rx, sl: Slots, p: Packed, n: nat)
    requires |st.buf| <= RX_FRAME_MAX
    ensures Heard(st, sl, Copies(RefreshBytes(p), n)) == Repeats(p, Waits(st, sl, p), Through(st, n))
  {
    var e := RefreshBytes(p);
    if st.buf == [] || n == 0 {
      if st.buf == [] {
        CleanRepeats(st, sl, p, n);
      } else {
        assert RxFrames(st, []) == [];
        HeardNothing(st, sl, []);
      }
    } else {
      hide RxRun, Heard, Left, RefreshBytes, Submitted, Slot, RxFrames, Repeats;
      CopiesFirst(e, n);
      HeardConcat(st, sl, e, Copies(e, n - 1));
      RefreshRoutedIff(st, sl, p);
      CleanRepeats(CLEAN, Left(st, sl, e), p, n - 1);
    }
  }

  // ---------------------------------------------------------------------------
  // A run of the tasks on a quiet link
  // ---------------------------------------------------------------------------

  /**
   The sending side since the link went quiet: what has been sent and what is queued, the real
   times of the latest transmission and of the latest task, and the refreshes queued so far.
   */
  datatype Quiet = Quiet(sent: seq<octet>, queue: seq<octet>, lastTx: int, clock: int, refreshes: nat)

  datatype Poll = Poll(now: int, writable: nat)

  /** One run of the task at real time `now`, when the UART takes `writable` bytes. */
  function Polled(p: Packed, s: Quiet, poll: Poll): Quiet {
    var n := Min(poll.writable, |s.queue|);
    var rest := s.queue[n..];
    var due := rest == [] && RefreshDue(s.lastTx % U32, poll.now % U32);
    Quiet(s.sent + s.queue[..n], if due then RefreshBytes(p) else rest, if due then poll.now else s.lastTx, poll.now,
          s.refreshes + (if due then 1 else 0))
  }

  function PollAll(p: Packed, s: Quiet, polls: seq<Poll>): Quiet {
    if polls == [] then s else Polled(p, PollAll(p, s, polls[..|polls| - 1]), polls[|polls| - 1])
  }

  /** The link goes quiet at time c with bytes q queued and the latest transmission at g. */
  function Start(q: seq<octet>, g: int, c: int): Quiet { Quiet([], q, g, c, 0) }

  /** What has been sent is what was queued at first and whole refreshes, but for the rest of the last one. */
  predicate Sends(p: Packed, q: seq<octet>, s: Quiet) {
    if s.refreshes == 0 then s.sent + s.queue == q
    else
      var e := RefreshBytes(p);
      var m := |e| - |s.queue|;
      m >= 0 && s.queue == e[m..] && s.sent == q + Copies(e, s.refreshes - 1) + e[..m]
  }

  /** Nothing but the first bytes so far. */
  lemma FirstPolls(p: Packed, q: seq<octet>, s: Quiet, poll: Poll)
    requires Sends(p, q, s) && s.refreshes == 0
    ensures Sends(p, q, Polled(p, s, poll))
  {
    hide RefreshBytes, RefreshDue;
    var e := RefreshBytes(p);
    Halves(s.sent, s.queue, Min(poll.writable, |s.queue|));
    assert e[0..] == e && q + Copies(e, 0) + e[..0] == q;
  }

  lemma LaterPolls(p: Packed, q: seq<octet>, s: Quiet, poll: Poll)
    requires Sends(p, q, s) && s.refreshes > 0
    ensures Sends(p, q, Polled(p, s, poll))
  {
    hide RefreshBytes, RefreshDue, Copies;
    var e, t := RefreshBytes(p), Polled(p, s, poll);
    var c := Copies(e, s.refreshes - 1);
    var m, n := |e| - |s.queue|, Min(poll.writable, |s.queue|);
    SentOn(q + c, e, m, n, s.sent, s.queue);
    if t.refreshes > s.refreshes {
      assert m + n == |e| && t.sent == q + c + e[..|e|] && t.queue == e;
      Another(q, c, e);
      CopiesMore(e, s.refreshes - 1);
    }
  }

  lemma SentOn(x: seq<octet>, e: seq<octet>, m: nat, n: nat, sent: seq<octet>, queue: seq<octet>)
    requires m + n <= |e| && sent == x + e[..m] && queue == e[m..]
    ensures sent + queue[..n] == x + e[..m + n] && queue[n..] == e[m + n..] && |e| - |queue[n..]| == m + n
  {
    MoreOf(x, e, m, n);
  }

  lemma Another(q: seq<octet>, c: seq<octet>, e: seq<octet>)
    ensures q + c + e[..|e|] == q + (c + e) + e[..0] && e[0..] == e
  {
  }

  lemma PollSends(p: Packed, q: seq<octet>, s: Quiet, poll: Poll)
    requires Sends(p, q, s)
    ensures Sends(p, q, Polled(p, s, poll))
  {
    hide Sends, Polled;
    if s.refreshes == 0 {
      FirstPolls(p, q, s, poll);
    } else {
      LaterPolls(p, q, s, poll);
    }
  }

  lemma Halves(x: seq<octet>, y: seq<octet>, n: nat)
    requires n <= |y|
    ensures x + y == (x + y[..n]) + y[n..] && (y[n..] == [] ==> x + y[..n] == x + y)
  {
  }

  lemma MoreOf(x: seq<octet>, e: seq<octet>, m: nat, n: nat)
    requires m + n <= |e|
    ensures x + e[..m] + e[m..][..n] == x + e[..m + n] && e[m..][n..] == e[m + n..]
  {
  }

  lemma {:induction false} RunSends(p: Packed, q: seq<octet>, g: int, c: int, polls: seq<Poll>)
    ensures Sends(p, q, PollAll(p, Start(q, g, c), polls))
  {
    if polls == [] {
      assert [] + q == q;
    } else {
      RunSends(p, q, g, c, polls[..|polls| - 1]);
      hide Sends, Polled;
      PollSends(p, q, PollAll(p, Start(q, g, c), polls[..|polls| - 1]), polls[|polls| - 1]);
    }
  }

  /** A part of a refresh that is not all of it dispatches nothing. */
  lemma PartSilent(st: Rx, sl: Slots, p: Packed, m: nat)
    requires m < |RefreshBytes(p)|
    ensures Heard(st, sl, RefreshBytes(p)[..m]) == []
  {
    var f := FrameOf(EventMessage(p));
    hide FrameOf, EventMessage, StuffAll, RxFrames, Heard;
    StuffedNoEnd(f);
    var part := RefreshBytes(p)[..m];
    assert part == StuffAll(f)[..m];
    RxNoEnd(st, part);
    SilentHears(st, sl, part);
  }

  lemma SilentHears(st: Rx, sl: Slots, bytes: seq<octet>)
    requires RxFrames(st, bytes) == []
    ensures Heard(st, sl, bytes) == []
  {
  }

  /** How many refreshes have been sent to their last byte. */
  function Arrived(s: Quiet): nat { if s.refreshes == 0 || s.queue == [] then s.refreshes else s.refreshes - 1 }

  /** The part of a refresh that is on its way behind the whole ones. */
  function Part(p: Packed, s: Quiet): seq<octet> {
    var m := |RefreshBytes(p)| - |s.queue|;
    if s.queue == [] || m < 0 then [] else RefreshBytes(p)[..m]
  }

  lemma SentParts(p: Packed, q: seq<octet>, s: Quiet)
    requires Sends(p, q, s) && s.refreshes > 0
    ensures s.sent == q + Copies(RefreshBytes(p), Arrived(s)) + Part(p, s)
    ensures Part(p, s) == [] || exists m: nat :: m < |RefreshBytes(p)| && Part(p, s) == RefreshBytes(p)[..m]
  {
    hide RefreshBytes;
    var e, k := RefreshBytes(p), s.refreshes;
    if s.queue == [] {
      var c := Copies(e, k - 1);
      assert e[..|e|] == e && Copies(e, k) == c + e;
      assert q + c + e == q + (c + e) && q + (c + e) + [] == q + (c + e);
    } else {
      var m := |e| - |s.queue|;
      assert m < |e| && Part(p, s) == e[..m];
    }
  }

  lemma PartHears(st: Rx, sl: Slots, p: Packed, part: seq<octet>)
    requires part == [] || exists m: nat :: m < |RefreshBytes(p)| && part == RefreshBytes(p)[..m]
    ensures Heard(st, sl, part) == []
  {
    assert RxFrames(st, []) == [];
    hide RefreshBytes, RxFrames, Heard;
    if part == [] {
      SilentHears(st, sl, part);
    } else {
      var m: nat :| m < |RefreshBytes(p)| && part == RefreshBytes(p)[..m];
      PartSilent(st, sl, p, m);
    }
  }

  /** What the router has heard since the first bytes: the event as often as whole refreshes got through. */
  lemma HeardSoFar(st: Rx, sl: Slots, p: Packed, q: seq<octet>, s: Quiet)
    requires |st.buf| <= RX_FRAME_MAX && Sends(p, q, s) && s.refreshes > 0
    ensures var u, l := RxRun(st, q), Left(st, sl, q);
            Heard(st, sl, s.sent) == Heard(st, sl, q) + Repeats(p, Waits(u, l, p), Through(u, Arrived(s)))
  {
    hide RefreshBytes, RxRun, Heard, Left, Repeats, Waits, RxFrames, Copies, Sends, Part, Through, Arrived;
    var copies := Copies(RefreshBytes(p), Arrived(s));
    SentParts(p, q, s);
    RxBounded(st, q);
    HeardConcat(st, sl, q, copies);
    RefreshesRepeat(RxRun(st, q), Left(st, sl, q), p, Arrived(s));
    HeardConcat(st, sl, q + copies, Part(p, s));
    PartHears(RxRun(st, q + copies), Left(st, sl, q + copies), p, Part(p, s));
  }

  /** So in every run of the quiet task, whatever the UART takes when. */
  lemma HeardInRun(noise: seq<octet>, sl: Slots, p: Packed, q: seq<octet>, g: int, c: int, polls: seq<Poll>)
    ensures var st := RxRun(CLEAN, noise); var u, l := RxRun(st, q), Left(st, sl, q); var s := PollAll(p, Start(q, g, c), polls);
            s.refreshes > 0 ==> Heard(st, sl, s.sent) == Heard(st, sl, q) + Repeats(p, Waits(u, l, p), Through(u, Arrived(s)))
  {
    var s := PollAll(p, Start(q, g, c), polls);
    RxBounded(CLEAN, noise);
    RunSends(p, q, g, c, polls);
    hide RxRun, Heard, Left, Repeats, Waits, Sends, PollAll, Through, Arrived;
    if s.refreshes > 0 {
      HeardSoFar(RxRun(CLEAN, noise), sl, p, q, s);
    }
  }

  // ---------------------------------------------------------------------------
  // In time
  // ---------------------------------------------------------------------------

  /** When the bytes now queued were queued, at the latest. */
  function Since(s: Quiet, c: int): int { if s.refreshes == 0 then c else s.lastTx }

  /** Bytes stay queued for no longer than h ms. */
  predicate Drains(s: Quiet, c: int, h: int) { s.queue != [] ==> s.clock <= Since(s, c) + h }

  /** The tasks run at most d ms apart, and the UART takes what is queued within h ms, in as many tasks as it likes. */
  predicate Steady(p: Packed, s: Quiet, polls: seq<Poll>, d: int, h: int) {
    polls != [] ==>
      var init, poll := polls[..|polls| - 1], polls[|polls| - 1];
      var t := PollAll(p, s, init);
      Steady(p, s, init, d, h) && t.clock <= poll.now <= t.clock + d && Drains(Polled(p, t, poll), s.clock, h)
  }

  /** The timer's period, or longer when the queue takes longer. */
  function Period(h: int): int { Max(100, h + 1) }

  /** The first refresh is queued before one period and one interval have passed, the second before two of each. */
  predicate InTime(s: Quiet, g: int, c: int, d: int, h: int) {
    && s.lastTx <= s.clock && c <= s.clock < Since(s, c) + Period(h)
    && (s.refreshes == 0 ==> s.lastTx == g)
    && (s.refreshes == 1 ==> s.lastTx < c + Period(h) + d)
    && (s.refreshes == 2 ==> s.lastTx < c + 2 * (Period(h) + d))
  }

  /** The latest transmission is less than 100 ms old, clock wrap included, or bytes are still queued. */
  predicate Young(s: Quiet) { s.clock < s.lastTx + 100 || s.queue != [] }

  lemma PollInTime(p: Packed, s: Quiet, poll: Poll, g: int, c: int, d: int, h: int)
    requires g <= c && 0 <= d && 0 <= h && c - g + Period(h) + d < U32 && InTime(s, g, c, d, h)
    requires s.clock <= poll.now <= s.clock + d && Drains(Polled(p, s, poll), c, h)
    ensures var t := Polled(p, s, poll); InTime(t, g, c, d, h) && Young(t) && t.clock == poll.now
  {
    hide RefreshBytes;
    WrapDifference(s.lastTx, poll.now);
  }

  lemma {:induction false} RunInTime(p: Packed, q: seq<octet>, g: int, c: int, d: int, h: int, polls: seq<Poll>)
    requires g <= c && 0 <= d && 0 <= h && c - g + Period(h) + d < U32
    requires Steady(p, Start(q, g, c), polls, d, h)
    ensures var s := PollAll(p, Start(q, g, c), polls);
            InTime(s, g, c, d, h) && Drains(s, c, h) && (polls != [] ==> Young(s))
  {
    if polls != [] {
      var init := polls[..|polls| - 1];
      RunInTime(p, q, g, c, d, h, init);
      hide Polled, InTime, Young, Drains, Period;
      PollInTime(p, PollAll(p, Start(q, g, c), init), polls[|polls| - 1], g, c, d, h);
    }
  }

  /**
   After every task on a quiet link the last tapped player's state was queued less than 100 ms
   ago, across the clock's wrap, or bytes are still queued, and have been for h ms at most.
   */
  lemma {:induction false} QuietRefresh(p: Packed, q: seq<octet>, g: int, c: int, d: int, h: int, polls: seq<Poll>)
    requires g <= c && 0 <= d && 0 <= h && c - g + Period(h) + d < U32
    requires Steady(p, Start(q, g, c), polls, d, h) && polls != []
    ensures var s := PollAll(p, Start(q, g, c), polls);
            s.lastTx <= s.clock && (s.clock < s.lastTx + 100 || (s.queue != [] && s.clock <= Since(s, c) + h))
  {
    RunInTime(p, q, g, c, d, h, polls);
  }

  // ---------------------------------------------------------------------------
  // A UART of a given rate is steady
  // ---------------------------------------------------------------------------

  /** The tasks run at most d ms apart, and the UART takes at least w bytes at each. */
  predicate Regular(p: Packed, s: Quiet, polls: seq<Poll>, d: int, w: nat) {
    polls != [] ==>
      var init, poll := polls[..|polls| - 1], polls[|polls| - 1];
      var t := PollAll(p, s, init);
      Regular(p, s, init, d, w) && t.clock <= poll.now <= t.clock + d && w <= poll.writable
  }

  /** The most bytes ever queued. */
  function Most(p: Packed, q: seq<octet>): nat { Max(|q|, |RefreshBytes(p)|) }

  /** At w bytes in every d ms, n bytes take this long at most. */
  function Span(d: int, w: nat, n: nat): int
    requires 0 < w
  {
    d * n / w
  }

  /** In x ms at least a bytes have gone, at w bytes in every d ms. */
  predicate AtRate(d: int, w: nat, x: int, a: int) { w * x <= d * a }

  /** What is queued has shrunk by w bytes in every d ms. */
  predicate Shrinks(s: Quiet, c: int, d: int, w: nat, m: nat) {
    |s.queue| <= m && s.clock >= Since(s, c) && (s.queue != [] ==> AtRate(d, w, s.clock - Since(s, c), m - |s.queue|))
  }

  lemma RateStep(w: nat, d: int, x: int, y: int, a: int, b: int)
    requires w * x <= d * a && y <= d && b >= w && 0 <= d
    ensures w * (x + y) <= d * (a + b)
  {
    assert w * y <= w * d;
    assert d * w <= d * b;
  }

  lemma Cancel(w: nat, x: int, y: int)
    requires w * x < w * y
    ensures x < y
  {
    assert w * (y - x) > 0;
  }

  lemma RateBound(d: int, w: nat, x: int, a: int, m: nat)
    requires 0 < w && 0 <= d && AtRate(d, w, x, a) && a <= m
    ensures x <= Span(d, w, m)
  {
    assert d * a <= d * m;
    assert d * m < w * (d * m / w + 1);
    Cancel(w, x, d * m / w + 1);
  }

  lemma NoTime(d: int, w: nat, a: int)
    requires 0 <= d && 0 <= a
    ensures AtRate(d, w, 0, a) && (0 < w ==> 0 <= Span(d, w, a))
  {
    assert 0 <= d * a;
  }

  lemma Shrunk(queue: nat, left: nat, x: int, y: int, d: int, w: nat, m: nat)
    requires queue <= m && AtRate(d, w, x, m - queue) && y <= d && 0 <= d && left + w <= queue
    ensures AtRate(d, w, x + y, m - left)
  {
    RateStep(w, d, x, y, m - queue, queue - left);
  }

  /** A task that leaves bytes queued took all the UART would take and sent no refresh. */
  lemma StillQueued(p: Packed, s: Quiet, poll: Poll)
    ensures var t := Polled(p, s, poll);
            && t.clock == poll.now && t.lastTx == (if t.refreshes == s.refreshes then s.lastTx else poll.now)
            && (t.refreshes == s.refreshes ==> |t.queue| == |s.queue| - Min(poll.writable, |s.queue|))
            && (t.refreshes != s.refreshes ==> t.refreshes > 0 && t.queue == RefreshBytes(p))
  {
    hide RefreshBytes, RefreshDue;
  }

  lemma PollShrinks(p: Packed, q: seq<octet>, s: Quiet, poll: Poll, c: int, d: int, w: nat)
    requires 0 < w && 0 <= d && Shrinks(s, c, d, w, Most(p, q)) && s.lastTx <= s.clock
    requires s.clock <= poll.now <= s.clock + d && w <= poll.writable
    ensures var t := Polled(p, s, poll); Shrinks(t, c, d, w, Most(p, q)) && t.lastTx <= t.clock
  {
    var t, m := Polled(p, s, poll), Most(p, q);
    assert |RefreshBytes(p)| <= m;
    StillQueued(p, s, poll);
    hide RefreshBytes, Polled, Most, AtRate;
    if t.refreshes == s.refreshes {
      if t.queue != [] {
        Shrunk(|s.queue|, |t.queue|, s.clock - Since(s, c), poll.now - s.clock, d, w, m);
      }
    } else {
      NoTime(d, w, m - |t.queue|);
    }
  }

  lemma ShrinkingDrains(s: Quiet, c: int, d: int, w: nat, m: nat)
    requires 0 < w && 0 <= d && Shrinks(s, c, d, w, m)
    ensures Drains(s, c, Span(d, w, m))
  {
    hide AtRate, Span;
    if s.queue != [] {
      RateBound(d, w, s.clock - Since(s, c), m - |s.queue|, m);
    }
  }

  lemma StartShrinks(p: Packed, q: seq<octet>, g: int, c: int, d: int, w: nat)
    requires 0 <= d
    ensures Shrinks(Start(q, g, c), c, d, w, Most(p, q))
  {
    NoTime(d, w, Most(p, q) - |q|);
    hide RefreshBytes, AtRate;
  }

  /**
   Tasks at most d ms apart, each taking at least w bytes, empty the queue within d ms for every
   w bytes of it.
   */
  lemma {:induction false} RegularIsSteady(p: Packed, q: seq<octet>, g: int, c: int, d: int, w: nat, polls: seq<Poll>)
    requires g <= c && 0 <= d && 0 < w && Regular(p, Start(q, g, c), polls, d, w)
    ensures var s := PollAll(p, Start(q, g, c), polls); Shrinks(s, c, d, w, Most(p, q)) && s.lastTx <= s.clock
    ensures Steady(p, Start(q, g, c), polls, d, Span(d, w, Most(p, q)))
  {
    StartShrinks(p, q, g, c, d, w);
    hide RefreshBytes, Most, Polled, Shrinks, Drains, Span, AtRate;
    if polls != [] {
      var init, poll := polls[..|polls| - 1], polls[|polls| - 1];
      RegularIsSteady(p, q, g, c, d, w, init);
      var s := PollAll(p, Start(q, g, c), init);
      PollShrinks(p, q, s, poll, c, d, w);
      ShrinkingDrains(Polled(p, s, poll), c, d, w, Most(p, q));
    }
  }


  /**
   The router's latest event is the last tapped player's: since the first bytes it has heard only
   that player's events, the first with the touch and motion of the extension that was waiting
   when it arrived, the others with neither.
   */
  predicate Restored(st: Rx, sl: Slots, p: Packed, q: seq<octet>, sent: seq<octet>) {
    var heard, before := Heard(st, sl, sent), Heard(st, sl, q);
    && |heard| > |before| && heard == before + Repeats(p, Waits(RxRun(st, q), Left(st, sl, q), p), |heard| - |before|)
    && Carries(heard[|heard| - 1], p) && forall i :: |before| <= i < |heard| ==> Carries(heard[i], p)
  }

  lemma ArrivedRestores(st: Rx, sl: Slots, p: Packed, q: seq<octet>, s: Quiet)
    requires |st.buf| <= RX_FRAME_MAX && Sends(p, q, s) && s.refreshes > 0
    requires Through(RxRun(st, q), Arrived(s)) > 0
    ensures Restored(st, sl, p, q, s.sent)
  {
    hide RxRun, Heard, Left, Repeats, Waits, Sends, Carries;
    var x, n := Waits(RxRun(st, q), Left(st, sl, q), p), Through(RxRun(st, q), Arrived(s));
    HeardSoFar(st, sl, p, q, s);
    RepeatsCarry(p, x, n);
  }

  /** When a quiet link has restored the state: one period and one interval, two of each behind part of a frame. */
  function Deadline(u: Rx, c: int, d: int, h: int): int {
    (if u.buf == [] then c + Period(h) + d else c + 2 * (Period(h) + d)) + h
  }

  /**
   The self-correction. Any bytes have been received, any extensions are waiting, and any bytes
   are still queued when the link goes quiet at time c; the UART takes them, and each refresh,
   within h ms. One refresh period and one interval between tasks later the router's latest event
   has the last tapped player's type, buttons and axes, if those bytes leave no part of a frame in
   the receiver, and after two in any case.
   */
  lemma QuietLinkRestores(noise: seq<octet>, sl: Slots, p: Packed, q: seq<octet>, g: int, c: int, d: int, h: int, polls: seq<Poll>)
    requires g <= c && 0 <= d && 0 <= h && c - g + Period(h) + d < U32
    requires Steady(p, Start(q, g, c), polls, d, h) && polls != []
    ensures var st := RxRun(CLEAN, noise); var s := PollAll(p, Start(q, g, c), polls);
            s.clock >= Deadline(RxRun(st, q), c, d, h) ==> Restored(st, sl, p, q, s.sent)
  {
    hide RxRun, PollAll, Steady, Sends, InTime, Young, Drains, Restored;
    var st := RxRun(CLEAN, noise);
    var s := PollAll(p, Start(q, g, c), polls);
    RxBounded(CLEAN, noise);
    RunSends(p, q, g, c, polls);
    RunInTime(p, q, g, c, d, h, polls);
    var u := RxRun(st, q);
    if s.clock >= Deadline(u, c, d, h) {
      EnoughArrived(s, u, g, c, d, h);
      ArrivedRestores(st, sl, p, q, s);
    }
  }

  /** The same for a UART of any given rate, however small its buffer and however long the queue. */
  lemma RegularLinkRestores(noise: seq<octet>, sl: Slots, p: Packed, q: seq<octet>, g: int, c: int, d: int, w: nat, polls: seq<Poll>)
    requires g <= c && 0 <= d && 0 < w && c - g + Period(Span(d, w, Most(p, q))) + d < U32
    requires Regular(p, Start(q, g, c), polls, d, w) && polls != []
    ensures var st := RxRun(CLEAN, noise); var s := PollAll(p, Start(q, g, c), polls);
            s.clock >= Deadline(RxRun(st, q), c, d, Span(d, w, Most(p, q))) ==> Restored(st, sl, p, q, s.sent)
  {
    NoTime(d, w, Most(p, q));
    hide Span, Restored, PollAll, RxRun, Period, Most, Deadline, Steady, Regular, Shrinks;
    RegularIsSteady(p, q, g, c, d, w, polls);
    QuietLinkRestores(noise, sl, p, q, g, c, d, Span(d, w, Most(p, q)), polls);
  }

  lemma EnoughArrived(s: Quiet, u: Rx, g: int, c: int, d: int, h: int)
    requires g <= c && 0 <= d && 0 <= h && InTime(s, g, c, d, h) && Drains(s, c, h) && s.clock >= Deadline(u, c, d, h)
    ensures s.refreshes > 0 && Through(u, Arrived(s)) > 0
  {
  }

  // ---------------------------------------------------------------------------
  // The code runs exactly so
  // ---------------------------------------------------------------------------

  lemma HeardByte(st: Rx, sl: Slots, bytes: seq<octet>, b: octet)
    ensures var u, l := RxRun(st, bytes), Left(st, sl, bytes); var out := RxOut(u, b);
            && RxRun(st, bytes + [b]) == RxStep(u, b)
            && Heard(st, sl, bytes + [b]) == Heard(st, sl, bytes) + RoutedAll(l, Passed(out))
            && Left(st, sl, bytes + [b]) == ConsumedAll(l, Passed(out))
  {
    hide RxStep, RxOut, Passed, RoutedAll, ConsumedAll, RxRun, RxFrames;
    RxMore(st, bytes, b);
    var out := RxOut(RxRun(st, bytes), b);
    PassedConcat(RxFrames(st, bytes), out);
    RoutedConcat(sl, Passed(RxFrames(st, bytes)), Passed(out));
  }

  lemma NoBytes(st: Rx, sl: Slots, bytes: seq<octet>)
    ensures var none := bytes[..0]; RxRun(st, none) == st && Heard(st, sl, none) == [] && Left(st, sl, none) == sl
    ensures bytes[..|bytes|] == bytes
  {
    assert bytes[..0] == [];
    assert RxFrames(st, []) == [];
    HeardNothing(st, sl, []);
  }

  lemma OneMore(bytes: seq<octet>, i: nat)
    requires i < |bytes|
    ensures bytes[..i + 1] == bytes[..i] + [bytes[i]]
  {
  }

  /** The task's receiving half: every byte into the deframer, every frame to the dispatcher. */
  method Receive(d: Deframer, c: Consumer, bytes: seq<octet>) returns (routed: seq<InputEvent>)
    requires d.Valid() && c.Valid()
    modifies d, d.frame, c`crcDrops, c.ext, c.extValid
    ensures d.Valid() && c.Valid() && d.Abs() == RxRun(old(d.Abs()), bytes)
    ensures c.Waiting() == Left(old(d.Abs()), old(c.Waiting()), bytes) && routed == Heard(old(d.Abs()), old(c.Waiting()), bytes)
  {
    hide *;
    routed := [];
    ghost var st, sl := d.Abs(), c.Waiting();
    NoBytes(st, sl, bytes);
    for i := 0 to |bytes|
      invariant d.Valid() && c.Valid() && d.Abs() == RxRun(st, bytes[..i])
      invariant c.Waiting() == Left(st, sl, bytes[..i]) && routed == Heard(st, sl, bytes[..i])
    {
      OneMore(bytes, i);
      var out := ReceiveByte(d, c, bytes[i], st, sl, bytes[..i]);
      routed := routed + out;
    }
  }

  method ReceiveByte(d: Deframer, c: Consumer, b: octet, ghost st: Rx, ghost sl: Slots, ghost bytes: seq<octet>)
    returns (routed: seq<InputEvent>)
    requires d.Valid() && c.Valid() && d.Abs() == RxRun(st, bytes) && c.Waiting() == Left(st, sl, bytes)
    modifies d, d.frame, c`crcDrops, c.ext, c.extValid
    ensures d.Valid() && c.Valid() && d.Abs() == RxRun(st, bytes + [b])
    ensures c.Waiting() == Left(st, sl, bytes + [b]) && Heard(st, sl, bytes + [b]) == Heard(st, sl, bytes) + routed
  {
    hide RxStep, RxOut, Passed, RoutedAll, ConsumedAll, RxRun, RxFrames, Heard, Left;
    HeardByte(st, sl, bytes, b);
    routed := TakeByte(d, c, b);
  }

  method TakeByte(d: Deframer, c: Consumer, b: octet) returns (routed: seq<InputEvent>)
    requires d.Valid() && c.Valid()
    modifies d, d.frame, c`crcDrops, c.ext, c.extValid
    ensures d.Valid() && c.Valid() && d.Abs() == RxStep(old(d.Abs()), b)
    ensures var out := Passed(RxOut(old(d.Abs()), b));
            c.Waiting() == ConsumedAll(old(c.Waiting()), out) && routed == RoutedAll(old(c.Waiting()), out)
  {
    assert |RxOut(d.Abs(), b)| <= 1;
    hide RxStep, RxOut, Passed, RoutedAll, ConsumedAll;
    ghost var waiting := c.Waiting();
    var frames := d.RxByte(b);
    assert c.Waiting() == waiting;
    ghost var after := d.Abs();
    routed := DispatchAll(c, frames);
    assert d.Abs() == after;
  }

  method DispatchAll(c: Consumer, frames: seq<seq<octet>>) returns (routed: seq<InputEvent>)
    requires c.Valid() && |frames| <= 1
    modifies c`crcDrops, c.ext, c.extValid
    ensures c.Valid() && c.Waiting() == ConsumedAll(old(c.Waiting()), Passed(frames))
    ensures routed == RoutedAll(old(c.Waiting()), Passed(frames))
  {
    hide Routed, Consumed, Accepted, Decoded;
    routed := [];
    if frames == [] { return; }
    assert frames == [frames[0]];
    if Accepted(frames[0]) {
      PassedOne(Decoded(frames[0]), frames[0]);
      OneRouted(c.Waiting(), Decoded(frames[0]));
    } else {
      NonePassed(frames[0]);
    }
    routed := c.DispatchFrame(frames[0]);
  }

  /**
   One run of the task at the sender, and its bytes received: the ring, the timer, the receiver,
   the extensions and the router's events move exactly as the run above says.
   */
  method QuietTask(prod: Producer, d: Deframer, c: Consumer, now: int, writable: nat,
                   ghost p: Packed, ghost s: Quiet, ghost st: Rx, ghost sl: Slots)
    returns (routed: seq<InputEvent>)
    requires prod.Valid() && d.Valid() && c.Valid() && prod.last == Some(p)
    requires prod.ring.Queue() == s.queue && prod.lastTx == s.lastTx % U32
    requires d.Abs() == RxRun(st, s.sent) && c.Waiting() == Left(st, sl, s.sent)
    requires prod.ring.ring != d.frame
    modifies prod`lastTx, prod.ring, prod.ring.ring, d, d.frame, c`crcDrops, c.ext, c.extValid
    ensures var t := Polled(p, s, Poll(now, writable));
            && prod.Valid() && d.Valid() && c.Valid()
            && prod.ring.Queue() == t.queue && prod.lastTx == t.lastTx % U32
            && d.Abs() == RxRun(st, t.sent) && c.Waiting() == Left(st, sl, t.sent)
            && Heard(st, sl, t.sent) == Heard(st, sl, s.sent) + routed
  {
    hide RxRun, Heard, Left, RxFrames, Polled, RefreshBytes, QueueOf;
    var sent := SendHalf(prod, now, writable, p, s);
    routed := Receive(d, c, sent);
    HeardConcat(st, sl, s.sent, sent);
    RxConcat(st, s.sent, sent);
  }

  /** The sending half moves queue and timer as the run says. */
  method SendHalf(prod: Producer, now: int, writable: nat, ghost p: Packed, ghost s: Quiet) returns (sent: seq<octet>)
    requires prod.Valid() && prod.last == Some(p) && prod.ring.Queue() == s.queue && prod.lastTx == s.lastTx % U32
    modifies prod`lastTx, prod.ring, prod.ring.ring
    ensures var t := Polled(p, s, Poll(now, writable));
            prod.Valid() && prod.ring.Queue() == t.queue && prod.lastTx == t.lastTx % U32 && t.sent == s.sent + sent
  {
    RefreshQueued(p, s.queue[Min(writable, |s.queue|)..]);
    hide RefreshBytes, RefreshDue, Wire, Queued, Lost, EventMessage;
    sent := prod.Task(now % U32, writable);
  }

  /** A refresh pushed onto an empty ring is queued whole. */
  lemma RefreshQueued(p: Packed, rest: seq<octet>)
    requires |rest| <= CAPACITY
    ensures Queued(rest, Wire([])) == rest
    ensures rest == [] ==> Queued(rest, Wire([EventMessage(p)])) == RefreshBytes(p)
  {
    WireNone();
    assert Queued(rest, []) == rest;
    EventFits(p);
    var m := EventMessage(p);
    FrameFits(m.kind, m.payload);
    WireMore([], m);
    hide Encode, FrameOf, EventMessage;
    var e := RefreshBytes(p);
    assert [] + [m] == [m] && Wire([]) + e == e;
    assert |e| <= CAPACITY;
    assert [] + e[..|e|] == e;
  }
}
