/**
 The whole peer link in use: taps and runs of the task in any order at one end, the ring and the
 wire between, and what the router hears at the other.
 */
module PeerTalk {
  import opened Common
  import opened Crc
  import opened Slip
  import opened LinkRing
  import opened PeerEvents
  import opened PeerLink
  import opened PeerRefresh

  /** A tapped event, or a run of the task when the UART takes `writable` bytes, at a wrapping clock's reading. */
  datatype Call = TapAt(now: int, t: Tap) | TaskAt(now: int, writable: nat)

  /** The ring, what has gone out on the wire, the bytes dropped, the producer's memory, and what it has said. */
  datatype Talk = Talk(queue: seq<octet>, wire: seq<octet>, dropped: int, last: Option<Packed>, lastTx: int,
                       said: seq<Utterance>)

  const SILENT := Talk([], [], 0, None, 0, [])

  function Spoken(u: Utterance): Packed {
    match u
    case Fresh(t) => Pack(t.player, t.ev)
    case Again(p) => p
  }

  /** Queue the messages of one utterance as far as they fit, and remember it. */
  function Say(l: Talk, now: int, u: Utterance): (r: Talk)
    requires |l.queue| <= CAPACITY
    ensures |r.queue| <= CAPACITY
  {
    var s := Wire(MessagesOf(u));
    Talk(Queued(l.queue, s), l.wire, l.dropped + Lost(l.queue, s), Some(Spoken(u)), now, l.said + [u])
  }

  function Transmit(l: Talk, n: nat): Talk
    requires n <= |l.queue|
  {
    l.(wire := l.wire + l.queue[..n], queue := l.queue[n..])
  }

  function Called(l: Talk, call: Call): (r: Talk)
    requires |l.queue| <= CAPACITY
    ensures |r.queue| <= CAPACITY
  {
    match call
    case TapAt(now, t) => if FromPeer(t.ev) then l else Say(l, now, Fresh(t))
    case TaskAt(now, writable) =>
      var m := Transmit(l, Min(writable, |l.queue|));
      if m.last.Some? && m.queue == [] && RefreshDue(m.lastTx, now) then Say(m, now, Again(m.last.value)) else m
  }

  function Talked(calls: seq<Call>): (r: Talk)
    ensures |r.queue| <= CAPACITY
  {
    if calls == [] then SILENT else Called(Talked(calls[..|calls| - 1]), calls[|calls| - 1])
  }

  // ---------------------------------------------------------------------------
  // What is said
  // ---------------------------------------------------------------------------

  /** The taps of a run whose events do not have a peer's address, in order. */
  function TapsIn(calls: seq<Call>): seq<Tap> {
    if calls == [] then []
    else
      var call := calls[|calls| - 1];
      TapsIn(calls[..|calls| - 1]) + (if call.TapAt? && !(0xC0 <= call.t.ev.devAddr < 0xD0) then [call.t] else [])
  }

  /** The taps among what was said. */
  function TapsOf(us: seq<Utterance>): seq<Tap> {
    if us == [] then []
    else
      var u := us[|us| - 1];
      TapsOf(us[..|us| - 1]) + (if u.Fresh? then [u.t] else [])
  }

  function LatestTap(us: seq<Utterance>): Option<Packed> {
    if us == [] then None
    else
      var u := us[|us| - 1];
      if u.Fresh? then Some(Pack(u.t.player, u.t.ev)) else LatestTap(us[..|us| - 1])
  }

  /** Whatever is said again is the event tapped last before it. */
  predicate RepeatsLatest(us: seq<Utterance>) {
    us != [] ==>
      var init, u := us[..|us| - 1], us[|us| - 1];
      RepeatsLatest(init) && (u.Again? ==> LatestTap(init) == Some(u.p))
  }

  lemma SaidMore(us: seq<Utterance>, u: Utterance)
    ensures TapsOf(us + [u]) == TapsOf(us) + (if u.Fresh? then [u.t] else [])
    ensures LatestTap(us + [u]) == if u.Fresh? then Some(Pack(u.t.player, u.t.ev)) else LatestTap(us)
    ensures RepeatsLatest(us + [u]) <==> RepeatsLatest(us) && (u.Again? ==> LatestTap(us) == Some(u.p))
    ensures AllMessages(us + [u]) == AllMessages(us) + MessagesOf(u)
  {
    hide Pack, MessagesOf;
    assert (us + [u])[..|us|] == us;
  }

  /** What a run has said: these taps, with repeats of the latest between them. */
  predicate HasSaid(l: Talk, taps: seq<Tap>) {
    TapsOf(l.said) == taps && RepeatsLatest(l.said) && l.last == LatestTap(l.said)
  }

  lemma CallSays(l: Talk, call: Call, taps: seq<Tap>)
    requires |l.queue| <= CAPACITY && HasSaid(l, taps)
    ensures HasSaid(Called(l, call), taps + (if call.TapAt? && !(0xC0 <= call.t.ev.devAddr < 0xD0) then [call.t] else []))
  {
    hide Wire, Pack, MessagesOf, Queued, Lost, RefreshDue, TapsOf, LatestTap, RepeatsLatest;
    assert taps + [] == taps;
    match call {
      case TapAt(now, t) => SaidMore(l.said, Fresh(t));
      case TaskAt(now, writable) => if l.last.Some? { SaidMore(l.said, Again(l.last.value)); }
    }
  }

  /** In every run, what is said is every tap, once and in order, with repeats of the latest between them. */
  lemma {:induction false} EveryTapIsSaid(calls: seq<Call>)
    ensures var l := Talked(calls); TapsOf(l.said) == TapsIn(calls) && RepeatsLatest(l.said) && l.last == LatestTap(l.said)
  {
    if calls != [] {
      EveryTapIsSaid(calls[..|calls| - 1]);
      hide Called, TapsOf, LatestTap, RepeatsLatest, FromPeer;
      CallSays(Talked(calls[..|calls| - 1]), calls[|calls| - 1], TapsIn(calls[..|calls| - 1]));
    }
  }

  // ---------------------------------------------------------------------------
  // What is heard
  // ---------------------------------------------------------------------------

  lemma {:induction false} FramesConcat(x: seq<Message>, y: seq<Message>)
    ensures FramesOf(x + y) == FramesOf(x) + FramesOf(y)
  {
    if y == [] {
      assert x + y == x;
    } else {
      var init, m := y[..|y| - 1], y[|y| - 1];
      assert x + y == (x + init) + [m];
      hide FrameOf;
      FramesConcat(x, init);
      FramesMore(x + init, m);
    }
  }

  lemma WireConcat(x: seq<Message>, y: seq<Message>)
    ensures Wire(x + y) == Wire(x) + Wire(y)
  {
    FramesConcat(x, y);
    EncodeConcat(FramesOf(x), FramesOf(y));
  }

  /** While nothing has been dropped, wire and queue together are all that was said. */
  predicate Whole(l: Talk) {
    0 <= l.dropped && (l.dropped == 0 ==> l.wire + l.queue == Wire(AllMessages(l.said)))
  }

  lemma SayWhole(l: Talk, now: int, u: Utterance)
    requires |l.queue| <= CAPACITY && Whole(l)
    ensures Whole(Say(l, now, u))
  {
    SaidMore(l.said, u);
    WireConcat(AllMessages(l.said), MessagesOf(u));
    var s := Wire(MessagesOf(u));
    hide Wire, Spoken, MessagesOf, AllMessages;
    if l.dropped == 0 && Lost(l.queue, s) == 0 {
      Appending(l.wire, l.queue, s, Wire(AllMessages(l.said)));
    }
  }

  lemma CalledWhole(l: Talk, call: Call)
    requires |l.queue| <= CAPACITY && Whole(l)
    ensures Whole(Called(l, call))
  {
    hide Wire, AllMessages, Say, RefreshDue, FromPeer;
    match call {
      case TapAt(now, t) => SayWhole(l, now, Fresh(t));
      case TaskAt(now, writable) =>
        var m := Transmit(l, Min(writable, |l.queue|));
        Regroup(l.wire, l.queue, Min(writable, |l.queue|));
        if m.last.Some? {
          SayWhole(m, now, Again(m.last.value));
        }
    }
  }

  lemma {:induction false} RunWhole(calls: seq<Call>)
    ensures Whole(Talked(calls))
  {
    if calls == [] {
      assert FramesOf(AllMessages([])) == [] && Wire(AllMessages([])) == [];
    } else {
      RunWhole(calls[..|calls| - 1]);
      hide Whole, Called;
      CalledWhole(Talked(calls[..|calls| - 1]), calls[|calls| - 1]);
    }
  }

  /** Frames that come before others are those of the messages that come before. */
  lemma FramesPrefix(ms: seq<Message>, fs: seq<seq<octet>>)
    requires fs <= FramesOf(ms)
    ensures |FramesOf(ms)| == |ms| && fs == FramesOf(ms[..|fs|])
  {
    FramesCount(ms);
    var k := |fs|;
    assert ms == ms[..k] + ms[k..];
    FramesCount(ms[..k]);
    FramesConcat(ms[..k], ms[k..]);
    hide FramesOf;
  }

  lemma {:induction false} FramesCount(ms: seq<Message>)
    ensures |FramesOf(ms)| == |ms|
  {
    hide FrameOf;
    if ms != [] {
      FramesCount(ms[..|ms| - 1]);
    }
  }

  lemma PrefixPasses(ms: seq<Message>, fs: seq<seq<octet>>)
    requires (forall m :: m in ms ==> |m.payload| <= PAYLOAD_MAX) && fs <= FramesOf(ms)
    ensures |fs| <= |ms| && Passed(fs) == ms[..|fs|] && (fs == FramesOf(ms) ==> Passed(fs) == ms)
  {
    hide FramesOf, Passed;
    FramesPrefix(ms, fs);
    var x := ms[..|fs|];
    assert forall m :: m in x ==> m in ms;
    FramesPass(x);
    assert ms[..|ms|] == ms;
  }

  lemma RoutedPrefix(ms: seq<Message>, n: nat)
    requires n <= |ms|
    ensures RoutedAll(EMPTY, ms[..n]) <= RoutedAll(EMPTY, ms)
  {
    hide *;
    var x, y := ms[..n], ms[n..];
    assert ms == x + y;
    RoutedConcat(EMPTY, x, y);
  }

  /** Bytes on the wire are heard as part of what they begin. */
  lemma HeardPrefix(wire: seq<octet>, queue: seq<octet>, us: seq<Utterance>)
    requires wire + queue == Wire(AllMessages(us))
    ensures Heard(CLEAN, EMPTY, wire) <= AllExpected(us) && (queue == [] ==> Heard(CLEAN, EMPTY, wire) == AllExpected(us))
  {
    var ms, fs := AllMessages(us), RxFrames(CLEAN, wire);
    hide RxFrames, FramesOf, AllMessages, AllExpected, RoutedAll, Passed, EncodeAll, EMPTY, CLEAN;
    AllPayloadsFit(us);
    AllArrive(us);
    FramesPass(ms);
    PartialPrefix(wire, queue, FramesOf(ms));
    PrefixPasses(ms, fs);
    RoutedPrefix(ms, |fs|);
  }

  /**
   However taps and tasks interleave, and whatever the clock reads: if no byte was dropped, the
   router has heard a prefix of all that was said, every tapped event with its type, buttons,
   axes, touch and motion and every repeat with neither touch nor motion, and all of it once the
   ring is empty.
   */
  lemma TalkIsHeard(calls: seq<Call>)
    requires Talked(calls).dropped == 0
    ensures var l := Talked(calls); var heard := Heard(CLEAN, EMPTY, l.wire);
            heard <= AllExpected(l.said) && (l.queue == [] ==> heard == AllExpected(l.said))
  {
    RunWhole(calls);
    var l := Talked(calls);
    HeardPrefix(l.wire, l.queue, l.said);
  }

  // ---------------------------------------------------------------------------
  // Room
  // ---------------------------------------------------------------------------

  lemma SpokenFits(u: Utterance)
    ensures |Wire(MessagesOf(u))| <= if u.Fresh? then 278 else 139
  {
    PayloadsFit(u);
    var ms := MessagesOf(u);
    assert |ms| <= if u.Fresh? then 2 else 1;
    hide MessagesOf;
    if |ms| == 1 {
      OneFits(ms[0]);
      assert ms == [ms[0]];
    } else if |ms| == 2 {
      OneFits(ms[0]);
      OneFits(ms[1]);
      assert ms == [ms[0]] + [ms[1]];
      WireConcat([ms[0]], [ms[1]]);
    } else {
      WireNone();
    }
  }

  lemma OneFits(m: Message)
    requires |m.payload| <= PAYLOAD_MAX
    ensures |Wire([m])| <= 139
  {
    WireNone();
    assert [] + [m] == [m];
    WireMore([], m);
    FrameFits(m.kind, m.payload);
  }

  /** Every tap finds room for two whole frames. */
  predicate Roomy(calls: seq<Call>) {
    calls != [] ==>
      var init := calls[..|calls| - 1];
      Roomy(init) && (calls[|calls| - 1].TapAt? ==> |Talked(init).queue| + 278 <= 2047)
  }

  /** A refresh is only ever queued on an empty ring, so room for the taps is enough for nothing to be dropped. */
  lemma {:induction false} RoomMeansHeard(calls: seq<Call>)
    requires Roomy(calls)
    ensures Talked(calls).dropped == 0
  {
    if calls != [] {
      var init, call := calls[..|calls| - 1], calls[|calls| - 1];
      RoomMeansHeard(init);
      var l := Talked(init);
      hide Wire, MessagesOf, Spoken, RefreshDue, FromPeer;
      match call {
        case TapAt(now, t) => SpokenFits(Fresh(t));
        case TaskAt(now, writable) => if l.last.Some? { SpokenFits(Again(l.last.value)); }
      }
    }
  }

  // ---------------------------------------------------------------------------
  // The code runs exactly so
  // ---------------------------------------------------------------------------

  /** The producer stands where the run says. */
  ghost predicate Follows(prod: Producer, l: Talk)
    reads prod, prod.ring, prod.ring.ring
  {
    && prod.Valid() && prod.ring.Queue() == l.queue && |l.queue| <= CAPACITY
    && prod.ring.drops == l.dropped % U32 && prod.last == l.last && prod.lastTx == l.lastTx
  }

  /** The receiver and the waiting extensions stand where the bytes on the wire put them. */
  ghost predicate Hears(d: Deframer, c: Consumer, wire: seq<octet>)
    reads d, d.frame, c, c.ext, c.extValid
  {
    && d.Valid() && c.Valid() && d.Abs() == RxRun(CLEAN, wire) && c.Waiting() == Left(CLEAN, EMPTY, wire)
  }

  lemma DropsAdd(x: int, y: int)
    ensures (x % U32 + y) % U32 == (x + y) % U32
  {
  }

  lemma QueuedNone(q: seq<octet>)
    requires |q| <= CAPACITY
    ensures Queued(q, Wire([])) == q && Lost(q, Wire([])) == 0
  {
    WireNone();
  }

  lemma TapCalled(l: Talk, now: int, t: Tap)
    requires |l.queue| <= CAPACITY
    ensures var r, s := Called(l, TapAt(now, t)), Wire(TapMessages(t.player, t.ev));
            && r.queue == Queued(l.queue, s) && r.wire == l.wire && r.dropped == l.dropped + Lost(l.queue, s)
            && r.last == (if FromPeer(t.ev) then l.last else Some(Pack(t.player, t.ev)))
            && r.lastTx == (if FromPeer(t.ev) then l.lastTx else now)
  {
    TapShape(t.player, t.ev);
    QueuedNone(l.queue);
    hide Wire, Queued, Lost, Pack, TapMessages, EventMessage, ExtMessage;
  }

  lemma TaskCalled(l: Talk, now: int, writable: nat)
    requires |l.queue| <= CAPACITY
    ensures var r, n := Called(l, TaskAt(now, writable)), Min(writable, |l.queue|);
            var due := l.last.Some? && |l.queue| <= writable && RefreshDue(l.lastTx, now);
            var s := if due then Wire([EventMessage(l.last.value)]) else Wire([]);
            && r.queue == Queued(l.queue[n..], s) && r.wire == l.wire + l.queue[..n]
            && r.dropped == l.dropped + Lost(l.queue[n..], s)
            && r.last == l.last && r.lastTx == (if due then now else l.lastTx)
  {
    QueuedNone(l.queue[Min(writable, |l.queue|)..]);
    hide Wire, Queued, Lost, RefreshDue, EventMessage;
  }

  lemma FollowsMeans(prod: Producer, l: Talk)
    requires Follows(prod, l)
    ensures prod.Valid() && prod.ring.Queue() == l.queue && |l.queue| <= CAPACITY
    ensures prod.ring.drops == l.dropped % U32 && prod.last == l.last && prod.lastTx == l.lastTx
  {
  }

  /** Bytes pushed as the run says leave the producer where the run says. */
  lemma PushedFollows(prod: Producer, q: seq<octet>, dropped: int, s: seq<octet>, r: Talk)
    requires prod.ring.Pushed(q, dropped % U32, s) && r.queue == Queued(q, s) && r.dropped == dropped + Lost(q, s)
    requires prod.last == r.last && prod.lastTx == r.lastTx
    ensures Follows(prod, r)
  {
    hide Queued, Lost, QueueOf;
    QueuedConcat(q, s, []);
    DropsAdd(dropped, Lost(q, s));
  }

  /** One tap. */
  method TapRuns(prod: Producer, now: int, t: Tap, ghost l: Talk)
    requires Follows(prod, l) && 0 <= now < U32
    modifies prod`last, prod`lastTx, prod.ring, prod.ring.ring
    ensures Follows(prod, Called(l, TapAt(now, t)))
  {
    FollowsMeans(prod, l);
    TapCalled(l, now, t);
    hide *;
    prod.Tap(now, t.player, t.ev);
    PushedFollows(prod, l.queue, l.dropped, Wire(TapMessages(t.player, t.ev)), Called(l, TapAt(now, t)));
  }

  /** One run of the task, and its bytes received. */
  method TaskRuns(prod: Producer, d: Deframer, c: Consumer, now: int, writable: nat, ghost l: Talk)
    returns (routed: seq<InputEvent>)
    requires Follows(prod, l) && Hears(d, c, l.wire) && 0 <= now < U32 && prod.ring.ring != d.frame
    modifies prod`lastTx, prod.ring, prod.ring.ring, d, d.frame, c`crcDrops, c.ext, c.extValid
    ensures var r := Called(l, TaskAt(now, writable));
            && Follows(prod, r) && Hears(d, c, r.wire)
            && Heard(CLEAN, EMPTY, r.wire) == Heard(CLEAN, EMPTY, l.wire) + routed
  {
    hide Called, RxRun, Left, Heard, RxFrames, QueueOf;
    var sent := SendTask(prod, now, writable, l);
    routed := Receive(d, c, sent);
    HeardConcat(CLEAN, EMPTY, l.wire, sent);
    RxConcat(CLEAN, l.wire, sent);
  }

  method SendTask(prod: Producer, now: int, writable: nat, ghost l: Talk) returns (sent: seq<octet>)
    requires Follows(prod, l) && 0 <= now < U32
    modifies prod`lastTx, prod.ring, prod.ring.ring
    ensures var r := Called(l, TaskAt(now, writable)); Follows(prod, r) && r.wire == l.wire + sent
  {
    FollowsMeans(prod, l);
    TaskCalled(l, now, writable);
    ghost var due := l.last.Some? && |l.queue| <= writable && RefreshDue(l.lastTx, now);
    ghost var s := if due then Wire([EventMessage(l.last.value)]) else Wire([]);
    ghost var r, n := Called(l, TaskAt(now, writable)), Min(writable, |l.queue|);
    assert 0 <= n <= |l.queue|;
    hide *;
    sent := prod.Task(now, writable);
    assert sent == l.queue[..n];
    PushedFollows(prod, l.queue[n..], l.dropped, s, r);
  }
}
