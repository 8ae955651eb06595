/**
 Sending a GBA multiboot image as joybus commands, and capturing it from the other end: the
 capture undoes the stream cipher and recovers the image.
 */
module GbaMultiboot {
  import opened Common
  import opened Crc
  import opened Slip
  import opened GcKey

  const HEADER := 0xC0
  const PATCHED := 0xC4
  const CEILING := 0x40000
  const WRITE: octet := 0x15
  const READ: octet := 0x14
  const CRC_SEED: bv32 := 0x15a0
  const CRC_POLY: bv32 := 0xa1c1

  // ---------------------------------------------------------------------------
  // The cipher and the checksum
  // ---------------------------------------------------------------------------

  function NextKey(key: bv32): bv32 { key * 0x6177_614b + 1 }

  /** The mask that depends on the byte offset, negated in 32 bits, and the constant one. */
  function Mask(i: int): bv32 { MaskOf(Offset32(i)) }

  function Offset32(i: int): bv32 { (i % 0x1_0000_0000) as bv32 }

  function MaskOf(offset: bv32): bv32 { (0 - (offset + 0x200_0000)) ^ 0x2079_6220 }

  /** Encryption and decryption of one word are the same operation. */
  function Cipher(w: bv32, key: bv32, i: int): bv32 { Xor(Xor(w, key), Mask(i)) }

  lemma CipherTwice(w: bv32, key: bv32, i: int)
    ensures Cipher(Cipher(w, key, i), key, i) == w
  {
    var m := Mask(i);
    hide Mask;
    RawTwice(w, key, m);
  }

  lemma RawTwice(w: bv32, key: bv32, m: bv32)
    ensures Xor(Xor(Xor(Xor(w, key), m), key), m) == w
  {
    assert (((w ^ key) ^ m) ^ key) ^ m == w;
  }

  function CrcBit(crc: bv32, value: bv32): bv32 {
    if Odd(Xor(crc, value)) then Xor(Half(crc), CRC_POLY) else Half(crc)
  }

  /** The checksum after the low n bits of a word; `value` is what is left of the word. */
  function CrcBits(crc: bv32, value: bv32, n: nat): bv32
    decreases n
  {
    if n == 0 then crc else CrcBits(CrcBit(crc, value), Half(value), n - 1)
  }

  predicate Sixteen(crc: bv32) { crc <= 0xFFFF }

  lemma CrcBitSixteen(crc: bv32, value: bv32)
    requires Sixteen(crc)
    ensures Sixteen(CrcBit(crc, value))
  {
    assert crc >> 1 <= 0xFFFF && (crc >> 1) ^ 0xa1c1 <= 0xFFFF;
  }

  lemma {:induction false} CrcSixteen(crc: bv32, value: bv32, n: nat)
    requires Sixteen(crc)
    ensures Sixteen(CrcBits(crc, value, n))
    decreases n
  {
    if n > 0 {
      CrcBitSixteen(crc, value);
      hide CrcBit, Sixteen;
      CrcSixteen(CrcBit(crc, value), Half(value), n - 1);
    }
  }

  method CrcStep(crc: bv32, value: bv32) returns (r: bv32)
    ensures r == CrcBits(crc, value, 32)
    ensures Sixteen(crc) ==> Sixteen(r)
  {
    if Sixteen(crc) {
      CrcSixteen(crc, value, 32);
    }
    hide Odd, Xor, Half, Sixteen;
    r := crc;
    var v := value;
    for i := 0 to 32
      invariant CrcBits(r, v, 32 - i) == CrcBits(crc, value, 32)
    {
      if Odd(Xor(r, v)) { r := Xor(Half(r), CRC_POLY); } else { r := Half(r); }
      v := Half(v);
    }
  }

  // ---------------------------------------------------------------------------
  // The sender
  // ---------------------------------------------------------------------------

  /** A ROM the sender can read word by word. */
  predicate Sendable(rom: seq<octet>) { |rom| % 4 == 0 && |rom| >= HEADER }

  function WordAt(s: seq<octet>, i: nat): bv32
    requires i + 4 <= |s|
  {
    LeWord(s[i], s[i + 1], s[i + 2], s[i + 3])
  }

  /** The word sent for offset i of the body: the second one carries the channel instead. */
  function BodyWord(rom: seq<octet>, channel: bv32, i: nat): bv32
    requires i + 4 <= |rom|
  {
    if i == PATCHED then (channel & 0xFF) << 8 else WordAt(rom, i)
  }

  function Command(w: bv32): seq<octet> { [WRITE] + LeBytes(w) }

  /** The header words before offset i. */
  function HeaderStream(rom: seq<octet>, i: nat): seq<seq<octet>>
    requires Sendable(rom) && i % 4 == 0 && i <= HEADER
  {
    if i == 0 then [] else HeaderStream(rom, i - 4) + [Command(WordAt(rom, i - 4))]
  }

  /** The encrypted words before offset i of the body, and key and checksum there. */
  datatype Body = Body(commands: seq<seq<octet>>, key: bv32, crc: bv32)

  function BodyStream(rom: seq<octet>, key: bv32, channel: bv32, i: nat): Body
    requires Sendable(rom) && i % 4 == 0 && HEADER <= i <= |rom|
  {
    if i == HEADER then Body([], key, CRC_SEED)
    else
      var b := BodyStream(rom, key, channel, i - 4);
      var w := BodyWord(rom, channel, i - 4);
      var k := NextKey(b.key);
      Body(b.commands + [Command(Cipher(w, k, i - 4))], k, CrcBits(b.crc, w, 32))
  }

  /** The ROM length as a 32-bit word. */
  function Length32(n: nat): bv32 { (n % 0x1_0000_0000) as bv32 }

  /** The last word: checksum below, ROM length above. */
  function FinalWord(crc: bv32, n: nat): bv32 { (crc & 0xFFFF) | (Length32(n) << 16) }

  function FinalCommand(rom: seq<octet>, b: Body): seq<octet> {
    Command(Cipher(FinalWord(b.crc, |rom|), NextKey(b.key), |rom|))
  }

  /** Everything written after the session key has been read, up to the read of the reply. */
  function Upload(rom: seq<octet>, key: bv32, channel: bv32): seq<seq<octet>>
    requires Sendable(rom)
  {
    var b := BodyStream(rom, key, channel, |rom|);
    [Command(CalculateKey(Length32(|rom|)))] + HeaderStream(rom, HEADER) + b.commands + [FinalCommand(rom, b), [READ]]
  }

  lemma {:induction false} BodyCrcSixteen(rom: seq<octet>, key: bv32, channel: bv32, i: nat)
    requires Sendable(rom) && i % 4 == 0 && HEADER <= i <= |rom|
    ensures Sixteen(BodyStream(rom, key, channel, i).crc)
  {
    hide LeWord, Cipher, NextKey, Command, CrcBits;
    if i == HEADER {
      assert Sixteen(CRC_SEED);
    } else {
      BodyCrcSixteen(rom, key, channel, i - 4);
      CrcSixteen(BodyStream(rom, key, channel, i - 4).crc, BodyWord(rom, channel, i - 4), 32);
    }
  }

  method SendHeader(rom: seq<octet>) returns (commands: seq<seq<octet>>)
    requires Sendable(rom)
    ensures commands == HeaderStream(rom, HEADER)
  {
    hide LeWord, LeBytes;
    commands := [];
    var i := 0;
    while i < HEADER
      invariant i % 4 == 0 && 0 <= i <= HEADER && commands == HeaderStream(rom, i)
    {
      commands := commands + [Command(WordAt(rom, i))];
      i := i + 4;
    }
  }

  method SendBody(rom: seq<octet>, key: bv32, channel: bv32) returns (commands: seq<seq<octet>>, k: bv32, fcrc: bv32)
    requires Sendable(rom)
    ensures Body(commands, k, fcrc) == BodyStream(rom, key, channel, |rom|)
  {
    hide WordAt, Cipher, NextKey, CrcBits, Command;
    commands, k, fcrc := [], key, CRC_SEED;
    var i := HEADER;
    while i < |rom|
      invariant i % 4 == 0 && HEADER <= i <= |rom|
      invariant Body(commands, k, fcrc) == BodyStream(rom, key, channel, i)
    {
      var w := BodyWord(rom, channel, i);
      fcrc := CrcStep(fcrc, w);
      k := NextKey(k);
      commands := commands + [Command(Cipher(w, k, i))];
      i := i + 4;
    }
  }

  /** The sender; the running checksum never leaves 16 bits. */
  method Multiboot(rom: seq<octet>, key: bv32, channel: bv32) returns (commands: seq<seq<octet>>, fcrc: bv32)
    requires Sendable(rom)
    ensures commands == Upload(rom, key, channel)
    ensures fcrc == BodyStream(rom, key, channel, |rom|).crc && Sixteen(fcrc)
  {
    BodyCrcSixteen(rom, key, channel, |rom|);
    hide Cipher, NextKey, CalculateKey, FinalWord, Command, BodyStream, HeaderStream, Sixteen;
    commands := [Command(CalculateKey(Length32(|rom|)))];
    var head := SendHeader(rom);
    var body, k;
    body, k, fcrc := SendBody(rom, key, channel);
    k := NextKey(k);
    var last := Command(Cipher(FinalWord(fcrc, |rom|), k, |rom|));
    commands := commands + head + body + [last, [READ]];
  }

  // ---------------------------------------------------------------------------
  // The capture
  // ---------------------------------------------------------------------------

  datatype Mode = Passthrough | AwaitKey | Capture | Replaying

  /** The bridge: mode, key, the image so far, and the image handed to the native upload. */
  datatype Bridge = Bridge(mode: Mode, key: bv32, plain: seq<octet>, captured: seq<octet>)

  predicate IsCommand(c: seq<octet>) { |c| >= 1 && |c| == (if c[0] == WRITE then 5 else 1) }

  predicate Commands(cs: seq<seq<octet>>) { forall i :: 0 <= i < |cs| ==> IsCommand(cs[i]) }

  lemma CommandsConcat(x: seq<seq<octet>>, y: seq<seq<octet>>)
    ensures Commands(x + y) <==> Commands(x) && Commands(y)
  {
    hide IsCommand;
    if Commands(x + y) {
      forall i | 0 <= i < |x| ensures IsCommand(x[i]) { assert (x + y)[i] == x[i]; }
      forall i | 0 <= i < |y| ensures IsCommand(y[i]) { assert (x + y)[|x| + i] == y[i]; }
    }
  }

  lemma OneCommand(c: seq<octet>)
    ensures Commands([c]) <==> IsCommand(c)
  {
    hide IsCommand;
    if Commands([c]) {
      assert [c][0] == c;
    }
  }

  /** One write while capturing: header bytes as they are, then decrypted words until the buffer is full. */
  function Captured(b: Bridge, c: seq<octet>): Bridge
    requires |c| == 5
  {
    if |b.plain| < HEADER then b.(plain := b.plain + c[1..])
    else
      var k := NextKey(b.key);
      var p := Cipher(LeWord(c[1], c[2], c[3], c[4]), k, |b.plain|);
      b.(key := k, plain := if |b.plain| + 4 <= CEILING then b.plain + LeBytes(p) else b.plain)
  }

  /** What the read at the end of a capture takes: all but the last word; with nothing captured, a
   negative end counts from the back of the empty buffer. */
  function Trimmed(plain: seq<octet>): seq<octet> {
    if |plain| >= 4 then plain[..|plain| - 4] else seq<octet>(CEILING - 4, _ => 0)
  }

  function Handled(b: Bridge, c: seq<octet>): Bridge
    requires IsCommand(c)
  {
    match b.mode
    case Passthrough => b
    case AwaitKey => if c[0] == WRITE then b.(mode := Capture, plain := []) else b
    case Capture =>
      if c[0] == WRITE then Captured(b, c)
      else if c[0] == READ then b.(mode := Replaying, captured := Trimmed(b.plain))
      else b
    case Replaying => b
  }

  function HandledAll(b: Bridge, cs: seq<seq<octet>>): Bridge
    requires Commands(cs)
  {
    if cs == [] then b else Handled(HandledAll(b, cs[..|cs| - 1]), cs[|cs| - 1])
  }

  lemma {:induction false} HandledConcat(b: Bridge, x: seq<seq<octet>>, y: seq<seq<octet>>)
    requires Commands(x) && Commands(y)
    ensures Commands(x + y)
    ensures HandledAll(b, x + y) == HandledAll(HandledAll(b, x), y)
  {
    hide Handled, IsCommand;
    CommandsConcat(x, y);
    if y == [] {
      assert x + y == x;
    } else {
      var n := |y| - 1;
      HandledConcat(b, x, y[..n]);
      assert (x + y)[..|x + y| - 1] == x + y[..n];
    }
  }

  /** The image as the GBA gets it: the word behind the header's end carries the channel. */
  function Patched(rom: seq<octet>, channel: bv32): (r: seq<octet>)
    ensures |r| == |rom|
  {
    if |rom| >= PATCHED + 4 then rom[..PATCHED] + LeBytes((channel & 0xFF) << 8) + rom[PATCHED + 4..] else rom
  }

  lemma CommandBytes(w: bv32)
    ensures var c := Command(w); IsCommand(c) && |c| == 5 && c[0] == WRITE && c[1..] == LeBytes(w) && LeWord(c[1], c[2], c[3], c[4]) == w
  {
    LeBytesWord(w);
    hide LeBytes, LeWord;
    var c := Command(w);
    var l := LeBytes(w);
    assert c[1..] == l && c[1] == l[0] && c[2] == l[1] && c[3] == l[2] && c[4] == l[3];
  }

  lemma BytesOfWord(b0: octet, b1: octet, b2: octet, b3: octet)
    ensures LeBytes(LeWord(b0, b1, b2, b3)) == [b0, b1, b2, b3]
  {
    var w := (b0 as bv32) | ((b1 as bv32) << 8) | ((b2 as bv32) << 16) | ((b3 as bv32) << 24);
    RawBytes(b0, b1, b2, b3);
    assert LeWord(b0, b1, b2, b3) == w;
  }

  lemma RawBytes(b0: octet, b1: octet, b2: octet, b3: octet)
    ensures var w := (b0 as bv32) | ((b1 as bv32) << 8) | ((b2 as bv32) << 16) | ((b3 as bv32) << 24);
            (w & 0xFF) as octet == b0 && ((w >> 8) & 0xFF) as octet == b1 && ((w >> 16) & 0xFF) as octet == b2
            && ((w >> 24) & 0xFF) as octet == b3
  {
  }

  lemma WordBytes(s: seq<octet>, i: nat)
    requires i + 4 <= |s|
    ensures LeBytes(WordAt(s, i)) == s[i..i + 4]
  {
    BytesOfWord(s[i], s[i + 1], s[i + 2], s[i + 3]);
    hide LeBytes, LeWord;
    assert s[i..i + 4] == [s[i], s[i + 1], s[i + 2], s[i + 3]];
  }

  /** The bytes of the word sent for offset i are those of the patched image. */
  lemma PatchedWord(rom: seq<octet>, channel: bv32, i: nat)
    requires i + 4 <= |rom| && i % 4 == 0
    ensures LeBytes(BodyWord(rom, channel, i)) == Patched(rom, channel)[i..i + 4]
  {
    if i != PATCHED {
      WordBytes(rom, i);
    }
    hide LeBytes, WordAt;
    var w := LeBytes((channel & 0xFF) << 8);
    var p := Patched(rom, channel);
    if i == PATCHED {
      assert p[i..i + 4] == w;
    } else {
      assert p[i..i + 4] == rom[i..i + 4];
    }
  }

  // ---------------------------------------------------------------------------
  // The capture recovers the image
  // ---------------------------------------------------------------------------

  lemma {:induction false} HeaderCommands(rom: seq<octet>, i: nat)
    requires Sendable(rom) && i % 4 == 0 && i <= HEADER
    ensures Commands(HeaderStream(rom, i))
  {
    hide IsCommand, Command, WordAt;
    if i > 0 {
      HeaderCommands(rom, i - 4);
      CommandBytes(WordAt(rom, i - 4));
    }
  }

  lemma {:induction false} BodyCommands(rom: seq<octet>, key: bv32, channel: bv32, i: nat)
    requires Sendable(rom) && i % 4 == 0 && HEADER <= i <= |rom|
    ensures Commands(BodyStream(rom, key, channel, i).commands)
  {
    hide IsCommand, Command, WordAt, Cipher, NextKey, CrcBits, BodyWord;
    if i > HEADER {
      BodyCommands(rom, key, channel, i - 4);
      CommandBytes(Cipher(BodyWord(rom, channel, i - 4), NextKey(BodyStream(rom, key, channel, i - 4).key), i - 4));
    }
  }

  /** Header writes arrive as they are. */
  lemma {:induction false} HeaderCaptured(b: Bridge, rom: seq<octet>, i: nat)
    requires Sendable(rom) && i % 4 == 0 && i <= HEADER && b.mode.Capture? && b.plain == [] && Commands(HeaderStream(rom, i))
    ensures HandledAll(b, HeaderStream(rom, i)) == b.(plain := rom[..i])
  {
    hide LeWord, LeBytes, Command, WordAt, Cipher, NextKey, Commands, HandledAll, IsCommand;
    if i == 0 {
      NothingHandled(b);
    } else {
      HeaderCommands(rom, i - 4);
      HeaderCaptured(b, rom, i - 4);
      CommandBytes(WordAt(rom, i - 4));
      OneMore(b, HeaderStream(rom, i - 4), Command(WordAt(rom, i - 4)));
      WordBytes(rom, i - 4);
      Extended(rom, i);
    }
  }

  /** A body write is decrypted to the word that was sent, as long as the buffer has room. */
  lemma WordCaptured(b: Bridge, w: bv32, i: nat)
    requires b.mode.Capture? && HEADER <= |b.plain| && (|b.plain| + 4 <= CEILING ==> |b.plain| == i)
    ensures var k := NextKey(b.key); var c := Command(Cipher(w, k, i));
            |c| == 5 && Handled(b, c) == b.(key := k, plain := if |b.plain| + 4 <= CEILING then b.plain + LeBytes(w) else b.plain)
  {
    var k := NextKey(b.key);
    CipherTwice(w, k, i);
    hide LeBytes, LeWord, Cipher, NextKey, Command;
    CommandBytes(Cipher(w, k, i));
  }

  lemma {:induction false} BodyCaptured(b: Bridge, rom: seq<octet>, channel: bv32, i: nat)
    requires Sendable(rom) && i % 4 == 0 && HEADER <= i <= |rom|
    requires b.mode.Capture? && b.plain == rom[..HEADER] && Commands(BodyStream(rom, b.key, channel, i).commands)
    ensures var s := BodyStream(rom, b.key, channel, i);
            HandledAll(b, s.commands) == b.(key := s.key, plain := Patched(rom, channel)[..Min(i, CEILING)])
  {
    hide LeBytes, LeWord, Cipher, NextKey, Command, BodyWord, CrcBits, IsCommand, Handled, Patched, Commands, HandledAll;
    if i == HEADER {
      HeaderUnpatched(rom, channel);
      assert HandledAll(b, []) == b by { NothingHandled(b); }
    } else {
      var s := BodyStream(rom, b.key, channel, i - 4);
      var w := BodyWord(rom, channel, i - 4);
      BodyCommands(rom, b.key, channel, i - 4);
      BodyCaptured(b, rom, channel, i - 4);
      var b1 := HandledAll(b, s.commands);
      WordCaptured(b1, w, i - 4);
      CommandBytes(Cipher(w, NextKey(s.key), i - 4));
      OneMore(b, s.commands, Command(Cipher(w, NextKey(s.key), i - 4)));
      PatchedWord(rom, channel, i - 4);
      Extended(Patched(rom, channel), i);
    }
  }

  lemma NothingHandled(b: Bridge)
    ensures HandledAll(b, []) == b
  {
  }

  lemma OneMore(b: Bridge, cs: seq<seq<octet>>, c: seq<octet>)
    requires Commands(cs) && IsCommand(c)
    ensures Commands(cs + [c]) && HandledAll(b, cs + [c]) == Handled(HandledAll(b, cs), c)
  {
    hide Commands, Handled, IsCommand, HandledAll;
    HandledOne(HandledAll(b, cs), c);
    HandledConcat(b, cs, [c]);
  }

  lemma DropLast<T>(x: seq<T>, y: seq<T>)
    ensures (x + y)[..|x + y| - |y|] == x
  {
  }

  lemma Extended(p: seq<octet>, i: nat)
    requires 4 <= i <= |p|
    ensures p[..i - 4] + p[i - 4..i] == p[..i]
  {
  }

  lemma HeaderUnpatched(rom: seq<octet>, channel: bv32)
    requires Sendable(rom)
    ensures Patched(rom, channel)[..HEADER] == rom[..HEADER]
  {
    hide LeBytes;
  }

  lemma HandledOne(b: Bridge, c: seq<octet>)
    requires IsCommand(c)
    ensures Commands([c]) && HandledAll(b, [c]) == Handled(b, c)
  {
    hide Handled, IsCommand;
    assert [c][..0] == [] && HandledAll(b, []) == b;
  }

  /** The key, the header and the body. */
  function Image(rom: seq<octet>, key: bv32, channel: bv32): (r: seq<seq<octet>>)
    requires Sendable(rom)
  {
    [Command(CalculateKey(Length32(|rom|)))] + HeaderStream(rom, HEADER)
    + BodyStream(rom, key, channel, |rom|).commands
  }

  /** After them the capture holds the image, as far as its buffer goes. */
  lemma ImageCaptured(b: Bridge, rom: seq<octet>, channel: bv32)
    requires Sendable(rom) && b.mode.AwaitKey?
    ensures Commands(Image(rom, b.key, channel))
    ensures HandledAll(b, Image(rom, b.key, channel)) == b.(mode := Capture, key := BodyStream(rom, b.key, channel, |rom|).key,
              plain := Patched(rom, channel)[..Min(|rom|, CEILING)])
  {
    var k := CalculateKey(Length32(|rom|));
    KeyTaken(b, k);
    hide CalculateKey, BodyStream, HeaderStream, Handled, HandledAll, Patched, Commands, Command;
    var c, h, s := Command(k), HeaderStream(rom, HEADER), BodyStream(rom, b.key, channel, |rom|);
    HeaderCommands(rom, HEADER);
    BodyCommands(rom, b.key, channel, |rom|);
    var b1 := b.(mode := Capture, plain := []);
    HandledConcat(b, [c], h);
    HeaderCaptured(b1, rom, HEADER);
    HandledConcat(b, [c] + h, s.commands);
    BodyCaptured(b1.(plain := rom[..HEADER]), rom, channel, |rom|);
  }

  lemma KeyTaken(b: Bridge, k: bv32)
    requires b.mode.AwaitKey?
    ensures Commands([Command(k)]) && HandledAll(b, [Command(k)]) == b.(mode := Capture, plain := [])
  {
    hide LeBytes, LeWord, HandledAll, Command;
    CommandBytes(k);
    HandledOne(b, Command(k));
  }

  lemma ReadTrims(b: Bridge)
    requires b.mode.Capture?
    ensures Commands([[READ]]) && HandledAll(b, [[READ]]) == b.(mode := Replaying, captured := Trimmed(b.plain))
  {
    assert IsCommand([READ]);
    hide HandledAll;
    HandledOne(b, [READ]);
  }

  /** A capture ended right behind the key is 0x3FFFC zeros, one ended behind a single word is empty. */
  lemma ShortCaptures(b: Bridge, k: bv32, w: bv32)
    requires b.mode.AwaitKey?
    ensures Commands([Command(k), [READ]]) && HandledAll(b, [Command(k), [READ]]).captured == seq<octet>(0x3_FFFC, _ => 0)
    ensures Commands([Command(k), Command(w), [READ]]) && HandledAll(b, [Command(k), Command(w), [READ]]).captured == []
  {
    KeyTaken(b, k);
    var b1 := b.(mode := Capture, plain := []);
    ReadTrims(b1);
    CommandBytes(w);
    hide Command, Commands, HandledAll, IsCommand, CalculateKey;
    HandledConcat(b, [Command(k)], [[READ]]);
    assert [Command(k)] + [[READ]] == [Command(k), [READ]];
    HandledOne(b1, Command(w));
    var b2 := Handled(b1, Command(w));
    ReadTrims(b2);
    assert |b2.plain| == 4;
    HandledConcat(b1, [Command(w)], [[READ]]);
    HandledConcat(b, [Command(k)], [Command(w)] + [[READ]]);
    assert [Command(k)] + ([Command(w)] + [[READ]]) == [Command(k), Command(w), [READ]];
  }

  lemma TrimmedImage(p: seq<octet>, last: seq<octet>)
    requires |last| == 4 && |p| >= HEADER && |p| % 4 == 0
    ensures |p| + 4 <= CEILING ==> Trimmed(p[..Min(|p|, CEILING)] + last) == p
    ensures |p| + 4 > CEILING ==> Trimmed(p[..Min(|p|, CEILING)]) == p[..CEILING - 4]
  {
    if |p| + 4 <= CEILING {
      assert p[..|p|] == p;
      DropLast(p, last);
    } else {
      assert p[..CEILING][..CEILING - 4] == p[..CEILING - 4];
    }
  }

  /** The last word is decrypted like the rest, if there is room for it, and cut off again by the read. */
  lemma LastCaptured(b: Bridge, p: seq<octet>, w: bv32)
    requires b.mode.Capture? && |p| >= HEADER && |p| % 4 == 0 && b.plain == p[..Min(|p|, CEILING)]
    ensures var cs := [Command(Cipher(w, NextKey(b.key), |p|)), [READ]];
            && Commands(cs) && HandledAll(b, cs).mode.Replaying?
            && HandledAll(b, cs).captured == if |p| + 4 <= CEILING then p else p[..CEILING - 4]
  {
    var c := Command(Cipher(w, NextKey(b.key), |p|));
    hide Cipher, NextKey, LeBytes, LeWord, HandledAll, Command, Commands, Handled, Trimmed, IsCommand;
    CommandBytes(Cipher(w, NextKey(b.key), |p|));
    WordCaptured(b, w, |p|);
    HandledOne(b, c);
    ReadTrims(Handled(b, c));
    HandledConcat(b, [c], [[READ]]);
    assert [c] + [[READ]] == [c, [READ]];
    TrimmedImage(p, LeBytes(w));
  }

  /**
   Feeding everything the sender writes to a capture with the same session key recovers the
   image, with only the channel word replaced, exactly when image and last word fit the buffer.
   */
  lemma CaptureRecoversIffItFits(b: Bridge, rom: seq<octet>, channel: bv32)
    requires Sendable(rom) && b.mode.AwaitKey?
    ensures Commands(Upload(rom, b.key, channel))
    ensures HandledAll(b, Upload(rom, b.key, channel)).mode.Replaying?
    ensures HandledAll(b, Upload(rom, b.key, channel)).captured == Patched(rom, channel) <==> |rom| + 4 <= 0x4_0000
  {
    var s := BodyStream(rom, b.key, channel, |rom|);
    var image := Image(rom, b.key, channel);
    var last := [FinalCommand(rom, s), [READ]];
    assert Upload(rom, b.key, channel) == image + last;
    hide Command, BodyStream, HeaderStream, Cipher, NextKey, FinalWord, Patched, Upload, Image, Commands, HandledAll;
    ImageCaptured(b, rom, channel);
    LastCaptured(HandledAll(b, image), Patched(rom, channel), FinalWord(s.crc, |rom|));
    HandledConcat(b, image, last);
  }
}
