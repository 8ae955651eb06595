/**
 The byte ring in front of the UART, the deframer behind it, and what any interleaving of
 sends and drains delivers.
 */
module LinkRing {
  import opened Common
  import opened Crc
  import opened Slip

  const TX_RING_SIZE := 2048
  const CAPACITY := 2047

  /** How many of n bytes a ring holding `queued` takes. */
  function Room(queued: int, n: int): int { Min(2047 - queued, n) }

  /** The queue after a burst of pushes: bytes are taken until the ring is full, the rest are dropped. */
  function Queued(q: seq<octet>, s: seq<octet>): seq<octet>
    requires |q| <= CAPACITY
  {
    q + s[..Room(|q|, |s|)]
  }

  lemma QueuedConcat(q: seq<octet>, s: seq<octet>, t: seq<octet>)
    requires |q| <= CAPACITY
    ensures |Queued(q, s)| <= CAPACITY && Queued(Queued(q, s), t) == Queued(q, s + t)
  {
    if Room(|q|, |s|) < |s| {
      assert t[..0] == [];
      assert (s + t)[..Room(|q|, |s + t|)] == s[..Room(|q|, |s|)];
    } else {
      assert s[..|s|] == s;
      assert (s + t)[..Room(|q|, |s + t|)] == s + t[..Room(|q + s|, |t|)];
    }
  }

  function Lost(q: seq<octet>, s: seq<octet>): int
    requires |q| <= CAPACITY
  {
    |s| - Room(|q|, |s|)
  }

  lemma LostConcat(q: seq<octet>, s: seq<octet>, t: seq<octet>)
    requires |q| <= CAPACITY
    ensures |Queued(q, s)| <= CAPACITY && Lost(q, s) + Lost(Queued(q, s), t) == Lost(q, s + t)
  {
  }

  /** The bytes between the read and the write index. */
  function QueueOf(r: seq<octet>, tail: int, head: int): (q: seq<octet>)
    requires |r| == TX_RING_SIZE && 0 <= tail < TX_RING_SIZE && 0 <= head < TX_RING_SIZE
    ensures |q| <= CAPACITY
  {
    if tail <= head then r[tail..head] else r[tail..] + r[..head]
  }

  lemma PushedRing(r: seq<octet>, tail: int, head: int, b: octet)
    requires |r| == TX_RING_SIZE && 0 <= tail < TX_RING_SIZE && 0 <= head < TX_RING_SIZE
    ensures var next := Next(head);
            if next == tail then |QueueOf(r, tail, head)| == CAPACITY
            else |QueueOf(r, tail, head)| < CAPACITY && QueueOf(r[head := b], tail, next) == QueueOf(r, tail, head) + [b]
  {
  }

  function Next(i: int): int { if i + 1 == TX_RING_SIZE then 0 else i + 1 }

  lemma PoppedRing(r: seq<octet>, tail: int, head: int)
    requires |r| == TX_RING_SIZE && 0 <= tail < TX_RING_SIZE && 0 <= head < TX_RING_SIZE
    ensures QueueOf(r, tail, head) == [] <==> tail == head
    ensures tail != head ==> QueueOf(r, tail, head) == [r[tail]] + QueueOf(r, Next(tail), head)
  {
    if tail < head {
      FirstOf(r, tail, head);
    } else if tail > head {
      FirstOf(r, tail, TX_RING_SIZE);
      WrappedFirst(r[tail], r[tail + 1..], r[..head]);
    }
  }

  lemma FirstOf(r: seq<octet>, k: int, n: int)
    requires 0 <= k < n <= |r|
    ensures r[k..n] == [r[k]] + r[k + 1..n]
    ensures n == |r| ==> r[k..] == [r[k]] + r[k + 1..]
  {
  }

  lemma WrappedFirst(b: octet, x: seq<octet>, y: seq<octet>)
    ensures ([b] + x) + y == [b] + (x + y) && (x == [] ==> x + y == y)
  {
  }

  lemma QueuedOne(q: seq<octet>, b: octet)
    requires |q| <= CAPACITY
    ensures Queued(q, [b]) == if |q| < CAPACITY then q + [b] else q
    ensures Lost(q, [b]) == if |q| < CAPACITY then 0 else 1
  {
    assert [b][..1] == [b] && [b][..0] == [] && q + [] == q;
  }

  class TxRing {
    const ring: array<octet>
    var head: int
    var tail: int
    var drops: int

    ghost predicate Valid()
      reads this
    {
      ring.Length == TX_RING_SIZE && 0 <= head < TX_RING_SIZE && 0 <= tail < TX_RING_SIZE && 0 <= drops < U32
    }

    /** The queued bytes, oldest first. */
    ghost function Queue(): (q: seq<octet>)
      requires Valid()
      reads this, ring
      ensures |q| <= CAPACITY
    {
      QueueOf(ring[..], tail, head)
    }

    constructor ()
      ensures Valid() && Queue() == [] && drops == 0 && fresh(ring)
    {
      ring := new octet[TX_RING_SIZE];
      head, tail, drops := 0, 0, 0;
    }

    method Push(b: octet) returns (ok: bool)
      requires Valid()
      modifies this, ring
      ensures Valid() && Queue() == Queued(old(Queue()), [b])
      ensures drops == (old(drops) + Lost(old(Queue()), [b])) % U32
      ensures ok == (|old(Queue())| < CAPACITY)
    {
      hide Queued, QueueOf, Lost, Room;
      QueuedOne(Queue(), b);
      ghost var r := ring[..];
      PushedRing(r, tail, head, b);
      assert (head + 1) % TX_RING_SIZE == Next(head);
      var next := (head + 1) % TX_RING_SIZE;
      if next == tail {
        drops := (drops + 1) % U32;
        return false;
      }
      ring[head] := b;
      assert ring[..] == r[head := b];
      head := next;
      return true;
    }

    method Pop() returns (b: octet)
      requires Valid() && Queue() != []
      modifies this`tail
      ensures Valid() && [b] + Queue() == old(Queue())
    {
      PoppedRing(ring[..], tail, head);
      assert (tail + 1) % TX_RING_SIZE == Next(tail);
      b := ring[tail];
      tail := (tail + 1) % TX_RING_SIZE;
      hide QueueOf;
    }

    /** A burst has been pushed since the ring held q0 with d0 drops counted. */
    ghost predicate Pushed(q0: seq<octet>, d0: int, s: seq<octet>)
      reads this, ring
    {
      Valid() && |q0| <= CAPACITY && Queue() == Queued(q0, s) && drops == (d0 + Lost(q0, s)) % U32
    }

    method PushMore(b: octet, ghost q0: seq<octet>, ghost d0: int, ghost s: seq<octet>)
      requires Pushed(q0, d0, s)
      modifies this, ring
      ensures Pushed(q0, d0, s + [b])
    {
      var ok := Push(b);
      QueuedConcat(q0, s, [b]);
      LostConcat(q0, s, [b]);
    }

    method SlipPush(b: octet, ghost q0: seq<octet>, ghost d0: int, ghost s: seq<octet>)
      requires Pushed(q0, d0, s)
      modifies this, ring
      ensures Pushed(q0, d0, s + Stuff(b))
    {
      hide Queued, Lost, Queue;
      if b == END {
        PushMore(ESC, q0, d0, s);
        PushMore(ESC_END, q0, d0, s + [ESC]);
        assert s + [ESC] + [ESC_END] == s + Stuff(b);
      } else if b == ESC {
        PushMore(ESC, q0, d0, s);
        PushMore(ESC_ESC, q0, d0, s + [ESC]);
        assert s + [ESC] + [ESC_ESC] == s + Stuff(b);
      } else {
        PushMore(b, q0, d0, s);
      }
    }

    /**
     Queue one frame. A payload over 64 bytes is silently ignored; otherwise the encoded frame
     goes in as far as it fits, and every byte that does not is counted as dropped.
     */
    method FrameSend(kind: octet, payload: seq<octet>)
      requires Valid()
      modifies this, ring
      ensures |payload| > 64 ==> Valid() && Queue() == old(Queue()) && drops == old(drops)
      ensures |payload| <= 64 ==> Pushed(old(Queue()), old(drops), Encode(Frame(kind, payload)))
    {
      if |payload| > PAYLOAD_MAX { return; }
      var hdr := [kind] + payload;
      var crc := ComputeCrc32(hdr);
      assert hdr + LeBytes(crc) == Frame(kind, payload);
      PushEncoded(hdr + LeBytes(crc));
    }

    /** Every byte of the frame through the stuffer, then END. */
    method PushEncoded(f: seq<octet>)
      requires Valid()
      modifies this, ring
      ensures Pushed(old(Queue()), old(drops), Encode(f))
    {
      hide *;
      ghost var q0, d0 := Queue(), drops;
      PushedNothing(q0, d0);
      EncodeIs(f);
      assert f[..0] == [];
      for i := 0 to |f|
        invariant Pushed(q0, d0, StuffAll(f[..i]))
      {
        SlipPush(f[i], q0, d0, StuffAll(f[..i]));
        StuffMore(f[..i], f[i]);
        assert f[..i + 1] == f[..i] + [f[i]];
      }
      assert f[..|f|] == f;
      PushMore(END, q0, d0, StuffAll(f));
    }

    lemma EncodeIs(f: seq<octet>)
      ensures Encode(f) == StuffAll(f) + [END]
    {
    }

    lemma PushedNothing(q0: seq<octet>, d0: int)
      requires Valid() && Queue() == q0 && drops == d0
      ensures Pushed(q0, d0, StuffAll([]))
    {
      assert q0 + [] == q0;
    }

    lemma EmptyIff()
      requires Valid()
      ensures Queue() == [] <==> head == tail
    {
    }

    /** Hand queued bytes to the UART while it is writable (at most `writable` of them). */
    method Drain(writable: int) returns (sent: seq<octet>)
      requires Valid() && 0 <= writable
      modifies this`tail
      ensures Valid() && sent + Queue() == old(Queue()) && |sent| == Min(writable, |old(Queue())|)
    {
      hide Queue;
      ghost var q := Queue();
      sent := [];
      var left := writable;
      assert sent + Queue() == q;
      while tail != head && left > 0
        invariant Valid() && 0 <= left && |sent| + left == writable && sent + Queue() == q
        decreases left
      {
        EmptyIff();
        ghost var before := sent;
        var b := Pop();
        assert before + ([b] + Queue()) == before + [b] + Queue();
        sent, left := sent + [b], left - 1;
      }
      EmptyIff();
    }
  }

  /** The receive side's buffer and flags. */
  class Deframer {
    const frame: array<octet>
    var len: int
    var inEsc: bool

    ghost predicate Valid()
      reads this
    {
      frame.Length == RX_FRAME_MAX && 0 <= len <= RX_FRAME_MAX
    }

    ghost function Abs(): Rx
      requires Valid()
      reads this, frame
    {
      Rx(frame[..len], inEsc)
    }

    constructor ()
      ensures Valid() && Abs() == CLEAN && fresh(frame)
    {
      frame := new octet[RX_FRAME_MAX];
      len, inEsc := 0, false;
    }

    /** One received byte; the result is the frame dispatched at it, if any. */
    method RxByte(byte: octet) returns (out: seq<seq<octet>>)
      requires Valid()
      modifies this, frame
      ensures Valid() && Abs() == RxStep(old(Abs()), byte) && out == RxOut(old(Abs()), byte)
    {
      out := [];
      var b := byte;
      if b == END {
        if len > 0 { out := [frame[..len]]; }
        len, inEsc := 0, false;
        return;
      }
      if inEsc {
        b := Unescaped(b);
        inEsc := false;
      } else if b == ESC {
        inEsc := true;
        return;
      }
      if len < RX_FRAME_MAX {
        frame[len] := b;
        len := len + 1;
      } else {
        len, inEsc := 0, false;
      }
    }
  }

  // ---------------------------------------------------------------------------
  // Every interleaving of sends and drains
  // ---------------------------------------------------------------------------

  datatype Op = Send(kind: octet, payload: seq<octet>) | DrainSome(writable: nat)

  /** The ring, what has gone out on the wire, how many bytes were dropped, and the frames asked for. */
  datatype Link = Link(queue: seq<octet>, wire: seq<octet>, dropped: int, frames: seq<seq<octet>>)

  const IDLE := Link([], [], 0, [])

  function Do(l: Link, op: Op): (r: Link)
    requires |l.queue| <= CAPACITY
    ensures |r.queue| <= CAPACITY
  {
    match op
    case Send(kind, payload) =>
      if |payload| > PAYLOAD_MAX then l
      else
        var s := Encode(Frame(kind, payload));
        l.(queue := Queued(l.queue, s), dropped := l.dropped + Lost(l.queue, s), frames := l.frames + [Frame(kind, payload)])
    case DrainSome(writable) =>
      var n := Min(writable, |l.queue|);
      l.(wire := l.wire + l.queue[..n], queue := l.queue[n..])
  }

  function RunOps(ops: seq<Op>): (r: Link)
    ensures |r.queue| <= CAPACITY
  {
    if ops == [] then IDLE else Do(RunOps(ops[..|ops| - 1]), ops[|ops| - 1])
  }

  ghost predicate Conserved(l: Link) {
    |EncodeAll(l.frames)| == |l.wire| + |l.queue| + l.dropped && 0 <= l.dropped
  }

  lemma DoConserves(l: Link, op: Op)
    requires |l.queue| <= CAPACITY && Conserved(l)
    ensures Conserved(Do(l, op))
  {
    hide Encode, EncodeAll, Frame;
    if op.Send? && |op.payload| <= PAYLOAD_MAX {
      EncodeMore(l.frames, Frame(op.kind, op.payload));
    }
  }

  /** Bytes are conserved: every byte of every frame is sent, queued or counted as dropped. */
  lemma {:induction false} BytesConserved(ops: seq<Op>)
    ensures var l := RunOps(ops); |EncodeAll(l.frames)| == |l.wire| + |l.queue| + l.dropped && 0 <= l.dropped
  {
    assert |EncodeAll([])| == 0;
    hide Encode, EncodeAll, Do;
    if ops != [] {
      BytesConserved(ops[..|ops| - 1]);
      DoConserves(RunOps(ops[..|ops| - 1]), ops[|ops| - 1]);
    }
  }

  lemma {:induction false} FramesSendable(ops: seq<Op>)
    ensures forall f :: f in RunOps(ops).frames ==> Sendable(f) && Accepted(f)
  {
    if ops != [] {
      FramesSendable(ops[..|ops| - 1]);
      var op := ops[|ops| - 1];
      if op.Send? {
        FrameAccepted(op.kind, op.payload);
      }
    }
  }

  /** While nothing has been dropped, wire and queue together are the encoded frames. */
  lemma {:induction false} NothingLost(ops: seq<Op>)
    requires RunOps(ops).dropped == 0
    ensures var l := RunOps(ops); l.wire + l.queue == EncodeAll(l.frames)
  {
    if ops != [] {
      var init, op := ops[..|ops| - 1], ops[|ops| - 1];
      var l := RunOps(init);
      BytesConserved(init);
      NothingLost(init);
      hide Encode, Frame;
      if op.Send? && |op.payload| <= PAYLOAD_MAX {
        EncodeMore(l.frames, Frame(op.kind, op.payload));
        Appending(l.wire, l.queue, Encode(Frame(op.kind, op.payload)), EncodeAll(l.frames));
      } else if op.DrainSome? {
        Regroup(l.wire, l.queue, Min(op.writable, |l.queue|));
      }
    }
  }

  lemma Appending(wire: seq<octet>, queue: seq<octet>, s: seq<octet>, all: seq<octet>)
    requires |queue| <= CAPACITY && Lost(queue, s) == 0 && wire + queue == all
    ensures wire + Queued(queue, s) == all + s
  {
    assert s[..|s|] == s && wire + (queue + s) == (wire + queue) + s;
  }

  lemma Regroup(wire: seq<octet>, queue: seq<octet>, n: int)
    requires 0 <= n <= |queue|
    ensures wire + queue[..n] + queue[n..] == wire + queue
  {
  }

  /**
   However sends and drains interleave, if no byte was dropped the receiver has dispatched a
   prefix of the frames sent, and all of them once the ring is empty.
   */
  lemma Delivered(ops: seq<Op>)
    requires RunOps(ops).dropped == 0
    ensures var l := RunOps(ops);
            RxFrames(CLEAN, l.wire) <= l.frames && (l.queue == [] ==> RxFrames(CLEAN, l.wire) == l.frames)
  {
    var l := RunOps(ops);
    NothingLost(ops);
    FramesSendable(ops);
    PartialPrefix(l.wire, l.queue, l.frames);
  }

  /** Nothing is dropped as long as every send finds 139 free bytes. */
  lemma {:induction false} RoomMeansNoDrop(ops: seq<Op>)
    requires forall i :: 0 <= i < |ops| && ops[i].Send? ==> |RunOps(ops[..i]).queue| + 139 <= 2047
    ensures RunOps(ops).dropped == 0
  {
    if ops != [] {
      var init, op := ops[..|ops| - 1], ops[|ops| - 1];
      forall i | 0 <= i < |init| && init[i].Send? ensures |RunOps(init[..i]).queue| + 139 <= CAPACITY {
        assert init[..i] == ops[..i] && ops[i].Send?;
      }
      RoomMeansNoDrop(init);
      if op.Send? && |op.payload| <= PAYLOAD_MAX {
        FrameFits(op.kind, op.payload);
        assert ops[|ops| - 1].Send?;
      }
    }
  }
}
