/**
 The bridge's command parser: bytes arrive in chunks of any size, are cut into commands, and
 drive the capture. Where the chunks are cut makes no difference.
 */
module GbaBridge {
  import opened Crc
  import opened Slip
  import opened GbaMultiboot
  import opened GcKey

  /** The complete commands in a byte string, and the bytes of an incomplete one. */
  datatype Cut = Cut(commands: seq<seq<octet>>, rest: seq<octet>)

  /** How long the command is that starts with this byte. */
  function LengthOf(first: octet): nat { if first == WRITE then 5 else 1 }

  function CutUp(s: seq<octet>): (c: Cut)
    ensures Commands(c.commands)
  {
    if s == [] || |s| < LengthOf(s[0]) then Cut([], s)
    else
      var n := LengthOf(s[0]);
      var c := CutUp(s[n..]);
      OneCommand(s[..n]);
      CommandsConcat([s[..n]], c.commands);
      Cut([s[..n]] + c.commands, c.rest)
  }

  lemma Joins(x: seq<octet>, y: seq<octet>, n: nat)
    requires n <= |x|
    ensures (x + y)[..n] == x[..n] && (x + y)[n..] == x[n..] + y
  {
  }

  /** Cutting a longer string: what is left over waits for the bytes behind it. */
  lemma {:induction false} CutConcat(x: seq<octet>, y: seq<octet>)
    ensures var cx := CutUp(x); var cy := CutUp(cx.rest + y);
            CutUp(x + y) == Cut(cx.commands + cy.commands, cy.rest)
    decreases |x|
  {
    hide Commands;
    if x == [] || |x| < LengthOf(x[0]) {
    } else {
      var n := LengthOf(x[0]);
      CutConcat(x[n..], y);
      Joins(x, y, n);
    }
  }

  function Joined(ss: seq<seq<octet>>): seq<octet> { if ss == [] then [] else ss[0] + Joined(ss[1..]) }

  /** Commands sent back to back are cut apart again. */
  lemma {:induction false} CutJoined(cs: seq<seq<octet>>)
    requires Commands(cs)
    ensures CutUp(Joined(cs)) == Cut(cs, [])
  {
    if cs != [] {
      CutJoined(cs[1..]);
      var s := Joined(cs);
      assert s[..|cs[0]|] == cs[0] && s[|cs[0]|..] == Joined(cs[1..]);
    }
  }

  /** The bridge and the bytes it has not used yet. */
  datatype Feed = Feed(bridge: Bridge, pending: seq<octet>)

  function Fed(f: Feed, chunk: seq<octet>): Feed {
    var c := CutUp(f.pending + chunk);
    Feed(HandledAll(f.bridge, c.commands), c.rest)
  }

  function FedAll(f: Feed, chunks: seq<seq<octet>>): Feed
    decreases |chunks|
  {
    if chunks == [] then f else FedAll(Fed(f, chunks[0]), chunks[1..])
  }

  class Drainer {
    var pending: seq<octet>
    var mode: Mode
    var key: bv32
    var plain: array<octet>
    var plainPos: int
    var captured: seq<octet>

    ghost predicate Valid()
      reads this, plain
    {
      && plain.Length == CEILING && 0 <= plainPos <= CEILING && plainPos % 4 == 0
      && forall i :: plainPos <= i < CEILING ==> plain[i] == 0
    }

    ghost function Abs(): Bridge
      requires Valid()
      reads this, plain
    {
      Bridge(mode, key, plain[..plainPos], captured)
    }

    /** A bridge that has seen the session key go by. */
    constructor (key: bv32)
      ensures Valid() && fresh(plain) && pending == [] && Abs() == Bridge(AwaitKey, key, [], [])
    {
      pending, mode, this.key, plainPos, captured := [], AwaitKey, key, 0, [];
      plain := new octet[CEILING](_ => 0);
    }

    method StoreWord(b: seq<octet>)
      requires Valid() && |b| == 4 && plainPos + 4 <= CEILING
      modifies this`plainPos, plain
      ensures Valid() && plain[..plainPos] == old(plain[..plainPos]) + b
    {
      plain[plainPos] := b[0];
      plain[plainPos + 1] := b[1];
      plain[plainPos + 2] := b[2];
      plain[plainPos + 3] := b[3];
      plainPos := plainPos + 4;
    }

    method CaptureWrite(tx: seq<octet>)
      requires Valid() && |tx| == 5
      modifies this`plainPos, this`key, plain
      ensures Valid() && Abs() == Captured(old(Abs()), tx)
    {
      hide LeBytes, LeWord, Cipher, NextKey;
      if plainPos < HEADER {
        StoreWord(tx[1..]);
      } else {
        var enc := LeWord(tx[1], tx[2], tx[3], tx[4]);
        var i := plainPos;
        key := NextKey(key);
        var p := Cipher(enc, key, i);
        if plainPos + 4 <= CEILING {
          StoreWord(LeBytes(p));
        }
      }
    }

    method Handle(tx: seq<octet>)
      requires Valid() && IsCommand(tx)
      modifies this`mode, this`plainPos, this`key, this`plain, this`captured, plain
      ensures Valid() && (plain == old(plain) || fresh(plain)) && Abs() == Handled(old(Abs()), tx)
    {
      hide Captured;
      match mode {
        case Passthrough =>
        case AwaitKey =>
          if tx[0] == WRITE {
            plain := new octet[CEILING](_ => 0);
            plainPos := 0;
            mode := Capture;
          }
        case Capture =>
          if tx[0] == WRITE {
            CaptureWrite(tx);
          } else if tx[0] == READ {
            var romLen := plainPos - 4;
            captured := if romLen < 0 then plain[..CEILING + romLen] else plain[..romLen];
            assert romLen >= 0 ==> plain[..plainPos][..romLen] == plain[..romLen];
            mode := Replaying;
          }
        case Replaying =>
      }
    }

    /** A chunk from the socket: as many complete commands as there are. */
    method Drain(chunk: seq<octet>)
      requires Valid()
      modifies this, plain
      ensures Valid() && (plain == old(plain) || fresh(plain))
      ensures Feed(Abs(), pending) == Fed(old(Feed(Abs(), pending)), chunk)
    {
      hide Handled, HandledAll, IsCommand, Commands, CutUp;
      pending := pending + chunk;
      ghost var all := pending;
      ghost var done: seq<seq<octet>> := [];
      ghost var start := Abs();
      NothingHandled(start);
      NoCommands();
      assert [] + CutUp(pending).commands == CutUp(pending).commands;
      while |pending| >= 1
        invariant Valid() && (plain == old(plain) || fresh(plain))
        invariant Commands(done) && Abs() == HandledAll(start, done)
        invariant CutUp(all) == Cut(done + CutUp(pending).commands, CutUp(pending).rest)
        decreases |pending|
      {
        var cmd := pending[0];
        var txLen := if cmd == WRITE then 5 else 1;
        FirstCommand(pending);
        if |pending| < txLen { break; }
        var tx := pending[..txLen];
        pending := pending[txLen..];
        Rotate(done, tx, CutUp(pending).commands);
        Handle(tx);
        OneMore(start, done, tx);
        done := done + [tx];
      }
      NothingCut(pending);
      assert done + [] == done;
    }
  }

  lemma NoCommands()
    ensures Commands([])
  {
  }

  lemma NothingCut(s: seq<octet>)
    requires s == [] || |s| < LengthOf(s[0])
    ensures CutUp(s) == Cut([], s)
  {
  }

  lemma FirstCommand(s: seq<octet>)
    requires s != []
    ensures var n := LengthOf(s[0]);
            |s| >= n ==> IsCommand(s[..n]) && CutUp(s) == Cut([s[..n]] + CutUp(s[n..]).commands, CutUp(s[n..]).rest)
  {
  }

  lemma Rotate<T>(x: seq<T>, c: T, y: seq<T>)
    ensures x + ([c] + y) == (x + [c]) + y
  {
  }

  /** Chunks may be cut anywhere: feeding them one by one is feeding them joined. */
  lemma {:induction false} ChunksDoNotMatter(f: Feed, chunks: seq<seq<octet>>)
    ensures FedAll(f, chunks) == if chunks == [] then f else Fed(f, Joined(chunks))
    decreases |chunks|
  {
    hide CutUp, HandledAll, Commands;
    if chunks != [] {
      var g := Fed(f, chunks[0]);
      ChunksDoNotMatter(g, chunks[1..]);
      if chunks[1..] == [] {
        assert Joined(chunks) == chunks[0];
      } else {
        var c := CutUp(f.pending + chunks[0]);
        var d := CutUp(c.rest + Joined(chunks[1..]));
        CutConcat(f.pending + chunks[0], Joined(chunks[1..]));
        assert (f.pending + chunks[0]) + Joined(chunks[1..]) == f.pending + Joined(chunks);
        HandledConcat(f.bridge, c.commands, d.commands);
      }
    }
  }

  lemma UploadHasBytes(rom: seq<octet>, key: bv32, channel: bv32)
    requires GbaMultiboot.Sendable(rom)
    ensures Joined(Upload(rom, key, channel)) != []
  {
    hide HeaderStream, BodyStream, LeBytes, CalculateKey, FinalCommand;
    var u := Upload(rom, key, channel);
    assert u[0] == Command(CalculateKey((|rom| % 0x1_0000_0000) as bv32)) && |u[0]| == 5;
  }

  lemma NothingJoined(chunks: seq<seq<octet>>)
    ensures Joined(chunks) != [] ==> chunks != []
  {
  }

  /**
   The sender's bytes, delivered in chunks cut anywhere, make the bridge capture the image with
   only the channel word replaced, exactly when it fits.
   */
  lemma StreamCapturedIffItFits(key: bv32, rom: seq<octet>, channel: bv32, chunks: seq<seq<octet>>)
    requires GbaMultiboot.Sendable(rom) && Joined(chunks) == Joined(Upload(rom, key, channel))
    ensures var f := FedAll(Feed(Bridge(AwaitKey, key, [], []), []), chunks);
            f.bridge.mode.Replaying? && f.pending == [] && (f.bridge.captured == Patched(rom, channel) <==> |rom| + 4 <= 0x4_0000)
  {
    var b := Bridge(AwaitKey, key, [], []);
    var u := Upload(rom, key, channel);
    hide Upload, HandledAll, Patched, CutUp, Joined, Commands, Handled, IsCommand;
    UploadHasBytes(rom, key, channel);
    NothingJoined(chunks);
    CaptureRecoversIffItFits(b, rom, channel);
    CutJoined(u);
    ChunksDoNotMatter(Feed(b, []), chunks);
    assert [] + Joined(chunks) == Joined(u);
  }
}
