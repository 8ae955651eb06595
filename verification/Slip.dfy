/**
 Framing on the inter-chip link: SLIP encoding of checksummed frames, and the deframer that
 resynchronises on every END byte.
 */
module Slip {
  import opened Crc

  const END: octet := 0xC0
  const ESC: octet := 0xDB
  const ESC_END: octet := 0xDC
  const ESC_ESC: octet := 0xDD
  const RX_FRAME_MAX := 128
  const PAYLOAD_MAX := 64

  // ---------------------------------------------------------------------------
  // Sending
  // ---------------------------------------------------------------------------

  function Stuff(b: octet): (r: seq<octet>)
    ensures END !in r && 1 <= |r| <= 2
  {
    if b == END then [ESC, ESC_END] else if b == ESC then [ESC, ESC_ESC] else [b]
  }

  function StuffAll(s: seq<octet>): seq<octet> {
    if s == [] then [] else StuffAll(s[..|s| - 1]) + Stuff(s[|s| - 1])
  }

  function Encode(frame: seq<octet>): seq<octet> { StuffAll(frame) + [END] }

  function EncodeAll(frames: seq<seq<octet>>): seq<octet> {
    if frames == [] then [] else EncodeAll(frames[..|frames| - 1]) + Encode(frames[|frames| - 1])
  }

  function LeBytes(crc: bv32): (r: seq<octet>)
    ensures |r| == 4
  {
    [(crc & 0xFF) as octet, ((crc >> 8) & 0xFF) as octet, ((crc >> 16) & 0xFF) as octet, ((crc >> 24) & 0xFF) as octet]
  }

  /** Type, payload, and the checksum of both, low byte first. */
  function Frame(kind: octet, payload: seq<octet>): seq<octet> {
    [kind] + payload + LeBytes(Crc32([kind] + payload))
  }

  /** A frame the link's own sender can produce. */
  predicate Sendable(f: seq<octet>) { 0 < |f| <= 128 }

  /** The bytes on the wire: C0 ends a frame, and inside it C0 and DB are sent as DB DC and DB DD. */
  lemma WireBytes(f: seq<octet>, b: octet)
    ensures StuffAll([]) == [] && Encode(f) == StuffAll(f) + [0xC0]
    ensures StuffAll(f + [b]) == StuffAll(f) + (if b == 0xC0 then [0xDB, 0xDC] else if b == 0xDB then [0xDB, 0xDD] else [b])
  {
    StuffMore(f, b);
  }

  /** A frame is its kind, its payload, and the checksum of both, low byte first. */
  lemma FrameBytes(kind: octet, payload: seq<octet>)
    ensures var crc := Crc32([kind] + payload);
            Frame(kind, payload) == [kind] + payload
              + [(crc & 0xFF) as octet, ((crc >> 8) & 0xFF) as octet, ((crc >> 16) & 0xFF) as octet, ((crc >> 24) & 0xFF) as octet]
  {
    hide Crc32;
  }

  lemma StuffMore(s: seq<octet>, b: octet)
    ensures StuffAll(s + [b]) == StuffAll(s) + Stuff(b)
  {
    assert (s + [b])[..|s|] == s;
  }

  lemma EncodeMore(fs: seq<seq<octet>>, f: seq<octet>)
    ensures EncodeAll(fs + [f]) == EncodeAll(fs) + Encode(f)
  {
    assert (fs + [f])[..|fs|] == fs;
  }

  lemma {:induction false} EncodeConcat(fs: seq<seq<octet>>, gs: seq<seq<octet>>)
    ensures EncodeAll(fs + gs) == EncodeAll(fs) + EncodeAll(gs)
  {
    hide Encode;
    if gs == [] {
      assert fs + gs == fs;
    } else {
      var init, last := gs[..|gs| - 1], gs[|gs| - 1];
      assert fs + gs == (fs + init) + [last] && gs == init + [last];
      EncodeConcat(fs, init);
      EncodeMore(fs + init, last);
      EncodeMore(init, last);
    }
  }

  /** At most two bytes on the wire for each byte of the frame, and the END. */
  lemma {:induction false} StuffedLength(s: seq<octet>)
    ensures |s| <= |StuffAll(s)| <= 2 * |s|
  {
    if s != [] {
      StuffedLength(s[..|s| - 1]);
    }
  }

  /** 139 free bytes in the ring are always enough for a whole frame. */
  lemma FrameFits(kind: octet, payload: seq<octet>)
    requires |payload| <= PAYLOAD_MAX
    ensures |Encode(Frame(kind, payload))| <= 139
  {
    StuffedLength(Frame(kind, payload));
  }

  // ---------------------------------------------------------------------------
  // The checksum
  // ---------------------------------------------------------------------------

  lemma LeBytesWord(crc: bv32)
    ensures var b := LeBytes(crc); LeWord(b[0], b[1], b[2], b[3]) == crc
  {
    RawBytesWord(crc);
  }

  lemma RawBytesWord(crc: bv32)
    ensures (((crc & 0xFF) as bv8) as bv32) | (((((crc >> 8) & 0xFF) as bv8) as bv32) << 8)
          | (((((crc >> 16) & 0xFF) as bv8) as bv32) << 16) | (((((crc >> 24) & 0xFF) as bv8) as bv32) << 24) == crc
  {
  }

  /** What the dispatcher makes of an accepted frame. */
  datatype Message = Message(kind: octet, payload: seq<octet>)

  function Decoded(f: seq<octet>): Message
    requires Accepted(f)
  {
    Message(f[0], f[1..|f| - 4])
  }

  /** The sender's frames are accepted and decode to what was sent. */
  lemma FrameAccepted(kind: octet, payload: seq<octet>)
    ensures Accepted(Frame(kind, payload)) && Decoded(Frame(kind, payload)) == Message(kind, payload)
  {
    var body := [kind] + payload;
    var crc := Crc32(body);
    var f := Frame(kind, payload);
    LeBytesWord(crc);
    hide Crc32, LeWord;
    var b := LeBytes(crc);
    assert |b| == 4;
    hide LeBytes;
    assert f[..|f| - 4] == body && f[|f| - 4..] == b;
    assert f[|f| - 4] == b[0] && f[|f| - 3] == b[1] && f[|f| - 2] == b[2] && f[|f| - 1] == b[3];
  }

  // ---------------------------------------------------------------------------
  // Receiving
  // ---------------------------------------------------------------------------

  datatype Rx = Rx(buf: seq<octet>, inEsc: bool)

  const CLEAN := Rx([], false)

  function Appended(st: Rx, b: octet): Rx {
    if |st.buf| < RX_FRAME_MAX then Rx(st.buf + [b], false) else CLEAN
  }

  function Unescaped(b: octet): octet { if b == ESC_END then END else if b == ESC_ESC then ESC else b }

  function RxStep(st: Rx, b: octet): Rx {
    if b == END then CLEAN
    else if st.inEsc then Appended(st, Unescaped(b))
    else if b == ESC then st.(inEsc := true)
    else Appended(st, b)
  }

  /** The frame handed to the dispatcher at this byte, if any. */
  function RxOut(st: Rx, b: octet): seq<seq<octet>> {
    if b == END && st.buf != [] then [st.buf] else []
  }

  function RxRun(st: Rx, s: seq<octet>): Rx {
    if s == [] then st else RxStep(RxRun(st, s[..|s| - 1]), s[|s| - 1])
  }

  function RxFrames(st: Rx, s: seq<octet>): seq<seq<octet>> {
    if s == [] then [] else RxFrames(st, s[..|s| - 1]) + RxOut(RxRun(st, s[..|s| - 1]), s[|s| - 1])
  }

  lemma RxMore(st: Rx, s: seq<octet>, b: octet)
    ensures RxRun(st, s + [b]) == RxStep(RxRun(st, s), b)
    ensures RxFrames(st, s + [b]) == RxFrames(st, s) + RxOut(RxRun(st, s), b)
  {
    assert (s + [b])[..|s|] == s;
  }

  lemma {:induction false} RxConcat(st: Rx, s: seq<octet>, t: seq<octet>)
    ensures RxRun(st, s + t) == RxRun(RxRun(st, s), t)
    ensures RxFrames(st, s + t) == RxFrames(st, s) + RxFrames(RxRun(st, s), t)
  {
    hide RxStep, RxOut;
    if t == [] {
      assert s + t == s;
    } else {
      var init, last := t[..|t| - 1], t[|t| - 1];
      assert s + t == (s + init) + [last] && t == init + [last];
      RxConcat(st, s, init);
      RxMore(st, s + init, last);
      RxMore(RxRun(st, s), init, last);
    }
  }

  /** Stuffed bytes put the frame's own bytes in the buffer, as long as there is room. */
  lemma {:induction false} RxStuffed(st: Rx, s: seq<octet>)
    requires !st.inEsc && |st.buf| + |s| <= RX_FRAME_MAX
    ensures RxRun(st, StuffAll(s)) == Rx(st.buf + s, false) && RxFrames(st, StuffAll(s)) == []
  {
    if s != [] {
      var init, last := s[..|s| - 1], s[|s| - 1];
      assert s == init + [last] && st.buf + s == (st.buf + init) + [last];
      RxStuffed(st, init);
      StuffMore(init, last);
      RxConcat(st, StuffAll(init), Stuff(last));
      RxOne(Rx(st.buf + init, false), last);
      hide *;
    } else {
      assert st.buf + s == st.buf;
    }
  }

  lemma RxOne(st: Rx, b: octet)
    requires !st.inEsc && |st.buf| < RX_FRAME_MAX
    ensures RxRun(st, Stuff(b)) == Rx(st.buf + [b], false) && RxFrames(st, Stuff(b)) == []
  {
    if b == END {
      RxPair(st, ESC, ESC_END);
    } else if b == ESC {
      RxPair(st, ESC, ESC_ESC);
    } else {
      RxSingle(st, b);
    }
  }

  lemma RxSingle(st: Rx, b: octet)
    ensures RxRun(st, [b]) == RxStep(st, b) && RxFrames(st, [b]) == RxOut(st, b)
  {
    assert [b] == [] + [b];
    RxMore(st, [], b);
  }

  lemma RxPair(st: Rx, a: octet, b: octet)
    ensures RxRun(st, [a, b]) == RxStep(RxStep(st, a), b)
    ensures RxFrames(st, [a, b]) == RxOut(st, a) + RxOut(RxStep(st, a), b)
  {
    hide RxStep, RxOut;
    assert [a, b] == [a] + [b];
    RxSingle(st, a);
    RxMore(st, [a], b);
  }

  /** From a clean receiver, one encoded frame dispatches exactly that frame. */
  lemma RxEncoded(f: seq<octet>)
    requires Sendable(f)
    ensures RxRun(CLEAN, Encode(f)) == CLEAN && RxFrames(CLEAN, Encode(f)) == [f]
  {
    RxStuffed(CLEAN, f);
    RxMore(CLEAN, StuffAll(f), END);
    assert [] + f == f;
  }

  lemma {:induction false} RxNoEnd(st: Rx, s: seq<octet>)
    requires END !in s
    ensures RxFrames(st, s) == []
  {
    if s != [] {
      RxNoEnd(st, s[..|s| - 1]);
    }
  }

  lemma {:induction false} StuffedNoEnd(s: seq<octet>)
    ensures END !in StuffAll(s)
  {
    if s != [] {
      StuffedNoEnd(s[..|s| - 1]);
    }
  }

  /** From any state, one encoded frame dispatches at most one frame and leaves the receiver clean. */
  lemma RxResync(st: Rx, f: seq<octet>)
    ensures RxRun(st, Encode(f)) == CLEAN && |RxFrames(st, Encode(f))| <= 1
  {
    StuffedNoEnd(f);
    RxNoEnd(st, StuffAll(f));
    RxMore(st, StuffAll(f), END);
  }

  /** A clean receiver dispatches exactly the frames that were sent, in order. */
  lemma {:induction false} RxExact(fs: seq<seq<octet>>)
    requires forall f :: f in fs ==> Sendable(f)
    ensures RxRun(CLEAN, EncodeAll(fs)) == CLEAN && RxFrames(CLEAN, EncodeAll(fs)) == fs
  {
    if fs != [] {
      var init, last := fs[..|fs| - 1], fs[|fs| - 1];
      assert fs == init + [last];
      RxExact(init);
      RxEncoded(last);
      RxConcat(CLEAN, EncodeAll(init), Encode(last));
    }
  }

  /** After any noise at most the first frame is lost: the rest follow exactly. */
  lemma AfterNoise(noise: seq<octet>, f: seq<octet>, fs: seq<seq<octet>>)
    requires forall g :: g in fs ==> Sendable(g)
    ensures exists junk :: |junk| <= 1 &&
              RxFrames(CLEAN, noise + Encode(f) + EncodeAll(fs)) == RxFrames(CLEAN, noise) + junk + fs
  {
    var st := RxRun(CLEAN, noise);
    var junk := RxFrames(st, Encode(f));
    RxResync(st, f);
    RxExact(fs);
    RxConcat(CLEAN, noise, Encode(f));
    RxConcat(CLEAN, noise + Encode(f), EncodeAll(fs));
  }

  /** Receiving part of the wire dispatches a prefix of the frames. */
  lemma PartialPrefix(wire: seq<octet>, rest: seq<octet>, fs: seq<seq<octet>>)
    requires wire + rest == EncodeAll(fs) && forall f :: f in fs ==> Sendable(f)
    ensures RxFrames(CLEAN, wire) <= fs && (rest == [] ==> RxFrames(CLEAN, wire) == fs)
  {
    RxExact(fs);
    RxConcat(CLEAN, wire, rest);
    if rest == [] {
      assert wire + rest == wire;
    }
  }

  // ---------------------------------------------------------------------------
  // A frame behind a partial one
  // ---------------------------------------------------------------------------

  /** The buffer after more bytes of a frame: the byte that does not fit empties it. */
  function Filled(buf: seq<octet>, s: seq<octet>): seq<octet> {
    if s == [] then buf
    else
      var b := Filled(buf, s[..|s| - 1]);
      if |b| < RX_FRAME_MAX then b + [s[|s| - 1]] else []
  }

  lemma {:induction false} FilledLength(buf: seq<octet>, s: seq<octet>)
    requires |buf| <= RX_FRAME_MAX
    ensures |Filled(buf, s)| == (|buf| + |s|) % (RX_FRAME_MAX + 1)
  {
    if s != [] {
      FilledLength(buf, s[..|s| - 1]);
      NextRemainder(|buf| + |s| - 1);
    }
  }

  lemma NextRemainder(n: nat)
    ensures var m := RX_FRAME_MAX + 1; (n + 1) % m == if n % m < RX_FRAME_MAX then n % m + 1 else 0
  {
  }

  lemma {:induction false} FilledFits(buf: seq<octet>, s: seq<octet>)
    requires |buf| + |s| <= RX_FRAME_MAX
    ensures Filled(buf, s) == buf + s
  {
    if s == [] {
      assert buf + s == buf;
    } else {
      FilledFits(buf, s[..|s| - 1]);
      assert s == s[..|s| - 1] + [s[|s| - 1]];
    }
  }

  /** Bytes that need no escape, with no end among them: the 129th empties the buffer, and so on. */
  lemma {:induction false} OverflowStartsOver(s: seq<octet>)
    requires forall i :: 0 <= i < |s| ==> s[i] != 0xC0 && s[i] != 0xDB
    ensures RxRun(CLEAN, s) == Rx(s[|s| - |s| % 129..], false) && RxFrames(CLEAN, s) == []
  {
    if s != [] {
      var n := |s| - 1;
      OverflowStartsOver(s[..n]);
      assert s[..n] + [s[n]] == s;
      RxMore(CLEAN, s[..n], s[n]);
      NextRemainder(n);
      LastPart(s, n, n - n % 129);
      hide RxRun, RxFrames;
    }
  }

  lemma LastPart(s: seq<octet>, n: nat, from: nat)
    requires |s| == n + 1 && from <= n
    ensures s[from..] == s[..n][from..] + [s[n]] && s[n + 1..] == []
  {
  }

  /** A byte that is itself on the wire, also behind a stray escape. */
  predicate Plain(b: octet) { b != END && b != ESC && b != ESC_END && b != ESC_ESC }

  /** What a stray escape makes of the byte behind it. */
  function Misread(b: octet): seq<octet> {
    if b == END then [ESC, ESC_END] else if b == ESC then [ESC, ESC_ESC] else [Unescaped(b)]
  }

  /** The bytes the receiver takes for those sent: only the first can be misread. */
  function Taken(st: Rx, s: seq<octet>): seq<octet>
    requires s != []
  {
    if st.inEsc then Misread(s[0]) + s[1..] else s
  }

  lemma FilledMore(buf: seq<octet>, s: seq<octet>, b: octet)
    ensures Filled(buf, []) == buf
    ensures Filled(buf, s + [b]) == if |Filled(buf, s)| < RX_FRAME_MAX then Filled(buf, s) + [b] else []
  {
    assert (s + [b])[..|s|] == s;
  }

  lemma FilledOne(buf: seq<octet>, b: octet)
    ensures Filled(buf, [b]) == if |buf| < RX_FRAME_MAX then buf + [b] else []
  {
    FilledMore(buf, [], b);
    assert [] + [b] == [b];
  }

  lemma {:induction false} FilledConcat(buf: seq<octet>, x: seq<octet>, y: seq<octet>)
    ensures Filled(buf, x + y) == Filled(Filled(buf, x), y)
  {
    if y == [] {
      assert x + y == x;
    } else {
      var init, last := y[..|y| - 1], y[|y| - 1];
      assert y == init + [last] && x + y == (x + init) + [last];
      hide Filled;
      FilledConcat(buf, x, init);
      FilledMore(buf, x + init, last);
      FilledMore(Filled(buf, x), init, last);
    }
  }

  lemma FilledTwo(buf: seq<octet>, a: octet, b: octet)
    ensures Filled(buf, [a, b]) == Filled(Filled(buf, [a]), [b])
  {
    assert [a, b] == [a] + [b];
    FilledConcat(buf, [a], [b]);
  }

  lemma AppendedIs(st: Rx, b: octet)
    ensures Appended(st, b) == Rx(Filled(st.buf, [b]), false)
  {
    FilledOne(st.buf, b);
  }

  lemma RxFirst(st: Rx, b: octet)
    ensures RxRun(st, Stuff(b)) == Rx(Filled(st.buf, Taken(st, [b])), false) && RxFrames(st, Stuff(b)) == []
  {
    assert [b][1..] == [] && Misread(b) + [] == Misread(b);
    hide Filled, RxRun, RxFrames, Appended;
    if b == END {
      RxEscaped(st, b, ESC_END);
    } else if b == ESC {
      RxEscaped(st, b, ESC_ESC);
    } else {
      RxSingle(st, b);
      AppendedIs(st, if st.inEsc then Unescaped(b) else b);
    }
  }

  lemma RxEscaped(st: Rx, b: octet, c: octet)
    requires (b == END && c == ESC_END) || (b == ESC && c == ESC_ESC)
    ensures RxRun(st, [ESC, c]) == Rx(Filled(st.buf, if st.inEsc then [ESC, c] else [b]), false)
    ensures RxFrames(st, [ESC, c]) == []
  {
    RxPair(st, ESC, c);
    hide Filled, RxRun, RxFrames, Appended;
    if st.inEsc {
      AppendedIs(st, ESC);
      AppendedIs(RxStep(st, ESC), c);
      FilledTwo(st.buf, ESC, c);
    } else {
      AppendedIs(st.(inEsc := true), b);
    }
  }

  lemma TakenMore(st: Rx, s: seq<octet>, b: octet)
    requires s != []
    ensures Taken(st, s + [b]) == Taken(st, s) + [b]
  {
    hide Misread;
    assert (s + [b])[1..] == s[1..] + [b];
  }

  lemma RxFillsOne(st: Rx, b: octet)
    ensures RxRun(st, StuffAll([b])) == Rx(Filled(st.buf, Taken(st, [b])), false) && RxFrames(st, StuffAll([b])) == []
  {
    assert StuffAll([]) == [] && [] + [b] == [b] && [] + Stuff(b) == Stuff(b);
    StuffMore([], b);
    hide *;
    RxFirst(st, b);
  }

  lemma NotStray(buf: seq<octet>, b: octet)
    ensures var st := Rx(buf, false); Taken(st, [b]) == [b] && st.buf == buf
  {
  }

  lemma {:induction false} RxFills(st: Rx, s: seq<octet>)
    requires s != []
    ensures RxRun(st, StuffAll(s)) == Rx(Filled(st.buf, Taken(st, s)), false) && RxFrames(st, StuffAll(s)) == []
  {
    hide *;
    var init, last := s[..|s| - 1], s[|s| - 1];
    assert s == init + [last];
    if init == [] {
      assert s == [last];
      RxFillsOne(st, last);
    } else {
      RxFills(st, init);
      StuffMore(init, last);
      RxConcat(st, StuffAll(init), Stuff(last));
      var filled := Filled(st.buf, Taken(st, init));
      NotStray(filled, last);
      RxFirst(Rx(filled, false), last);
      TakenMore(st, init, last);
      FilledConcat(st.buf, Taken(st, init), [last]);
    }
  }

  /** What a frame behind anything at all dispatches: the bytes taken for its own, behind those already there. */
  lemma RxBehind(st: Rx, f: seq<octet>)
    requires f != []
    ensures RxRun(st, Encode(f)) == CLEAN
    ensures var g := Filled(st.buf, Taken(st, f)); RxFrames(st, Encode(f)) == if g == [] then [] else [g]
  {
    RxFills(st, f);
    RxMore(st, StuffAll(f), END);
    hide Filled, StuffAll, Taken;
  }

  lemma SameRemainder(a: nat, b: nat)
    requires a <= RX_FRAME_MAX && b <= RX_FRAME_MAX
    ensures (a + b) % (RX_FRAME_MAX + 1) == b <==> a == 0
  {
  }

  /** No part of another frame, and no stray escape in front of a byte it would change. */
  predicate Ready(st: Rx, f: seq<octet>)
    requires f != []
  {
    st.buf == [] && (!st.inEsc || Plain(f[0]))
  }

  /** A frame gets through if and only if the receiver is ready for it. */
  lemma RxReceivesIff(st: Rx, f: seq<octet>)
    requires Sendable(f) && |st.buf| <= RX_FRAME_MAX
    ensures RxFrames(st, Encode(f)) == [f] <==> Ready(st, f)
  {
    RxBehind(st, f);
    hide Encode, RxFrames, Filled;
    if !st.inEsc || Plain(f[0]) {
      PlainTaken(st, f);
      BehindPart(st.buf, f);
    } else {
      hide RxRun;
      MisreadDiffers(st.buf, f);
    }
  }

  lemma PlainTaken(st: Rx, f: seq<octet>)
    requires f != [] && (!st.inEsc || Plain(f[0]))
    ensures Taken(st, f) == f
  {
  }

  /** A frame behind part of another changes its length, so it is not the frame sent. */
  lemma BehindPart(buf: seq<octet>, f: seq<octet>)
    requires Sendable(f) && |buf| <= RX_FRAME_MAX
    ensures if buf == [] then Filled(buf, f) == f else |Filled(buf, f)| != |f|
  {
    hide Filled;
    FilledLength(buf, f);
    SameRemainder(|buf|, |f|);
    if buf == [] {
      FilledFits([], f);
      assert [] + f == f;
    }
  }

  /** A frame whose first byte is misread does not come out as the frame sent, whatever is in front of it. */
  lemma MisreadDiffers(buf: seq<octet>, f: seq<octet>)
    requires Sendable(f) && |buf| <= RX_FRAME_MAX && !Plain(f[0])
    ensures Filled(buf, Misread(f[0]) + f[1..]) != f
  {
    hide Filled;
    var m, rest := Misread(f[0]), f[1..];
    if |m| == 1 {
      assert (m + rest)[0] == m[0] != f[0];
      BehindPart(buf, m + rest);
    } else {
      LongerDiffers(buf, m[0], m[1], f);
      assert m == [m[0], m[1]];
    }
  }

  lemma LongerDiffers(buf: seq<octet>, a: octet, b: octet, f: seq<octet>)
    requires Sendable(f) && |buf| <= RX_FRAME_MAX && b != f[0]
    ensures Filled(buf, [a, b] + f[1..]) != f
  {
    hide Filled;
    if |buf| == RX_FRAME_MAX {
      StartsOver(buf, a, b, f[1..]);
    } else {
      FilledLength(buf, [a, b] + f[1..]);
      SameRemainder(|buf| + 1, |f|);
    }
  }

  lemma StartsOver(buf: seq<octet>, a: octet, b: octet, rest: seq<octet>)
    requires |buf| == RX_FRAME_MAX && |rest| < RX_FRAME_MAX
    ensures Filled(buf, [a, b] + rest) == [b] + rest
  {
    hide Filled;
    FilledOne(buf, a);
    FilledOne([], b);
    FilledTwo(buf, a, b);
    FilledConcat(buf, [a, b], rest);
    FilledFits([b], rest);
    assert [] + [b] == [b];
  }

  /** It fails: one byte of a lost frame left in the buffer spoils the next frame. */
  lemma LeftByteSpoils(f: seq<octet>)
    requires 0 < |f| < RX_FRAME_MAX
    ensures RxFrames(Rx([0x01], false), Encode(f)) == [[0x01] + f] && [[0x01] + f] != [f]
  {
    RxBehind(Rx([0x01], false), f);
    FilledFits([0x01], f);
  }

  lemma {:induction false} RxBounded(st: Rx, s: seq<octet>)
    requires |st.buf| <= RX_FRAME_MAX
    ensures |RxRun(st, s).buf| <= RX_FRAME_MAX
  {
    if s != [] {
      RxBounded(st, s[..|s| - 1]);
    }
  }
}
