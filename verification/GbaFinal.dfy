/**
 The last word of a multiboot upload: the checksum the receiver judges the whole upload by, above
 it the length, and why a changed byte of the body changes it.
 */
module GbaFinal {
  import opened Common
  import opened Crc
  import Slip
  import GcKey
  import opened GbaMultiboot

  /** The little-endian words of a byte string. */
  function Words(s: seq<octet>): (r: seq<bv32>)
    requires |s| % 4 == 0
    ensures |r| == |s| / 4
  {
    seq<bv32>(|s| / 4, k requires 0 <= k < |s| / 4 => LeWord(s[4 * k], s[4 * k + 1], s[4 * k + 2], s[4 * k + 3]))
  }

  function Folded(crc: bv32, ws: seq<bv32>): bv32 {
    if ws == [] then crc else CrcBits(Folded(crc, ws[..|ws| - 1]), ws[|ws| - 1], 32)
  }

  /** The checksum of a list of words. */
  function Checksum(ws: seq<bv32>): bv32 { Folded(0x15a0, ws) }

  /** The key after n words. */
  function KeyAfter(key: bv32, n: nat): bv32 { if n == 0 then key else Advanced(KeyAfter(key, n - 1)) }

  function Advanced(key: bv32): bv32 { key * 0x6177_614b + 1 }

  lemma AdvancedIsNext(key: bv32)
    ensures Advanced(key) == NextKey(key)
  {
  }

  // ---------------------------------------------------------------------------
  // What the last write says
  // ---------------------------------------------------------------------------

  lemma WordsMore(s: seq<octet>, i: nat)
    requires |s| % 4 == 0 && i % 4 == 0 && 4 <= i <= |s|
    ensures Words(s[..i]) == Words(s[..i - 4]) + [LeWord(s[i - 4], s[i - 3], s[i - 2], s[i - 1])]
  {
    hide LeWord;
  }

  /** The word sent for offset i is the patched image's. */
  lemma BodyWordIs(rom: seq<octet>, channel: bv32, i: nat)
    requires i + 4 <= |rom| && i % 4 == 0
    ensures var p := Patched(rom, channel); BodyWord(rom, channel, i) == LeWord(p[i], p[i + 1], p[i + 2], p[i + 3])
  {
    PatchedWord(rom, channel, i);
    Slip.LeBytesWord(BodyWord(rom, channel, i));
    hide Slip.LeBytes, LeWord, BodyWord, Patched;
    var p := Patched(rom, channel);
    assert p[i..i + 4] == [p[i], p[i + 1], p[i + 2], p[i + 3]];
  }

  /** The words of the body up to offset i. */
  function BodyWords(rom: seq<octet>, channel: bv32, i: nat): seq<bv32>
    requires Sendable(rom) && i % 4 == 0 && 0xC0 <= i <= |rom|
  {
    Words(Patched(rom, channel)[0xC0..i])
  }

  lemma BodyWordsMore(rom: seq<octet>, channel: bv32, i: nat)
    requires Sendable(rom) && i % 4 == 0 && 0xC0 < i <= |rom|
    ensures BodyWords(rom, channel, i) == BodyWords(rom, channel, i - 4) + [BodyWord(rom, channel, i - 4)]
  {
    hide LeWord, BodyWord, Patched, Words;
    BodyWordIs(rom, channel, i - 4);
    var p := Patched(rom, channel);
    var s := p[0xC0..i];
    WordsMore(s, |s|);
    assert s[..|s|] == s && s[..|s| - 4] == p[0xC0..i - 4];
  }

  lemma FoldedMore(crc: bv32, ws: seq<bv32>, w: bv32)
    ensures Folded(crc, ws + [w]) == CrcBits(Folded(crc, ws), w, 32)
  {
    hide CrcBits;
    assert (ws + [w])[..|ws|] == ws;
  }

  /** The sender's running checksum and key after n words are those of the words. */
  predicate Follows(rom: seq<octet>, key: bv32, channel: bv32, n: nat)
    requires Sendable(rom) && 0xC0 + 4 * n <= |rom|
  {
    var b := BodyStream(rom, key, channel, 0xC0 + 4 * n);
    b.crc == Checksum(BodyWords(rom, channel, 0xC0 + 4 * n)) && b.key == KeyAfter(key, n) && |b.commands| == n
  }

  lemma {:induction false} BodyFolds(rom: seq<octet>, key: bv32, channel: bv32, n: nat)
    requires Sendable(rom) && 0xC0 + 4 * n <= |rom|
    ensures Follows(rom, key, channel, n)
  {
    if n == 0 {
      assert Patched(rom, channel)[0xC0..0xC0] == [];
    } else {
      BodyFolds(rom, key, channel, n - 1);
      BodyStep(rom, key, channel, n - 1);
    }
  }

  lemma BodyStep(rom: seq<octet>, key: bv32, channel: bv32, n: nat)
    requires Sendable(rom) && 0xC0 + 4 * n + 4 <= |rom| && Follows(rom, key, channel, n)
    ensures Follows(rom, key, channel, n + 1)
  {
    hide Cipher, Command, CrcBits, BodyWord, Folded, BodyWords;
    BodyWordsMore(rom, channel, 0xC0 + 4 * n + 4);
    FoldedMore(0x15a0, BodyWords(rom, channel, 0xC0 + 4 * n), BodyWord(rom, channel, 0xC0 + 4 * n));
    KeyMore(key, n);
    hide KeyAfter;
  }

  lemma KeyMore(key: bv32, n: nat)
    ensures KeyAfter(key, n + 1) == NextKey(KeyAfter(key, n))
  {
    hide Advanced, NextKey;
    AdvancedIsNext(KeyAfter(key, n));
  }

  lemma {:induction false} HeaderCount(rom: seq<octet>, i: nat)
    requires Sendable(rom) && i % 4 == 0 && i <= HEADER
    ensures |HeaderStream(rom, i)| == i / 4
  {
    hide Command;
    if i > 0 {
      HeaderCount(rom, i - 4);
    }
  }

  function LowHalf(w: bv32): bv32 { w & 0xFFFF }
  function HighHalf(w: bv32): bv32 { w >> 16 }

  lemma RawFinal(crc: bv32, n: bv32)
    requires crc <= 0xFFFF
    ensures var w := (crc & 0xFFFF) | (n << 16); w & 0xFFFF == crc && w >> 16 == n & 0xFFFF
  {
  }

  /** The words of the body, as the receiver gets them. */
  function AllBodyWords(rom: seq<octet>, channel: bv32): seq<bv32>
    requires Sendable(rom)
  {
    Words(Patched(rom, channel)[0xC0..])
  }

  /** The word a write command carries, decrypted with a key at an offset. */
  function Decrypted(c: seq<octet>, key: bv32, i: int): bv32
    requires |c| == 5
  {
    Cipher(LeWord(c[1], c[2], c[3], c[4]), key, i)
  }

  /**
   The last write before the reply is read, decrypted with the key and the offset at its place:
   the checksum of all the body's words in order below, the length's low half above. The first
   write carries the key made from the length.
   */
  lemma LastWriteSays(rom: seq<octet>, key: bv32, channel: bv32)
    requires Sendable(rom)
    ensures var u := Upload(rom, key, channel); var n := |rom| / 4;
            && |u| == n + 3 && |u[n + 1]| == 5 && u[n + 1][0] == 0x15 && u[n + 2] == [0x14]
            && u[0] == [0x15] + Slip.LeBytes(GcKey.CalculateKey(Length32(|rom|)))
    ensures var w := Decrypted(Upload(rom, key, channel)[|rom| / 4 + 1], KeyAfter(key, (|rom| - 0xC0) / 4 + 1), |rom|);
            && LowHalf(w) == Checksum(AllBodyWords(rom, channel))
            && HighHalf(w) == LowHalf(Length32(|rom|))
  {
    UploadParts(rom, key, channel);
    LastWord(rom, key, channel);
    hide Upload, BodyStream, Checksum, Cipher, Command, LeWord, Slip.LeBytes, Patched, GcKey.CalculateKey, FinalCommand, KeyAfter, AllBodyWords;
    CommandBytes(GcKey.CalculateKey(Length32(|rom|)));
    var u := Upload(rom, key, channel);
    assert u[0] == [u[0][0]] + u[0][1..];
  }

  lemma LastWord(rom: seq<octet>, key: bv32, channel: bv32)
    requires Sendable(rom)
    ensures var c := FinalCommand(rom, BodyStream(rom, key, channel, |rom|));
            && |c| == 5 && c[0] == 0x15
            && var w := Decrypted(c, KeyAfter(key, (|rom| - 0xC0) / 4 + 1), |rom|);
               LowHalf(w) == Checksum(AllBodyWords(rom, channel)) && HighHalf(w) == LowHalf(Length32(|rom|))
  {
    hide *;
    SendableMeans(rom);
    var b := BodyStream(rom, key, channel, |rom|);
    BodyFolded(rom, key, channel);
    BodyCrcSixteen(rom, key, channel, |rom|);
    KeyMore(key, (|rom| - 0xC0) / 4);
    FinalDecrypts(rom, b);
    FinalHalves(b.crc, |rom|);
  }

  /** At the end of the body. */
  lemma BodyFolded(rom: seq<octet>, key: bv32, channel: bv32)
    requires Sendable(rom)
    ensures var b, n := BodyStream(rom, key, channel, |rom|), (|rom| - 0xC0) / 4;
            b.crc == Checksum(AllBodyWords(rom, channel)) && b.key == KeyAfter(key, n) && |b.commands| == n
  {
    hide BodyStream, Checksum, BodyWords, AllBodyWords, KeyAfter;
    var n := (|rom| - 0xC0) / 4;
    assert 0xC0 + 4 * n == |rom|;
    BodyFolds(rom, key, channel, n);
    AllWords(rom, channel);
  }

  lemma SendableMeans(rom: seq<octet>)
    requires Sendable(rom)
    ensures |rom| % 4 == 0 && 0xC0 <= |rom| && HEADER <= |rom|
  {
  }

  lemma FinalDecrypts(rom: seq<octet>, b: Body)
    ensures var c := FinalCommand(rom, b);
            |c| == 5 && c[0] == 0x15 && Decrypted(c, NextKey(b.key), |rom|) == FinalWord(b.crc, |rom|)
  {
    FinalCommandIs(rom, b);
    hide Cipher, Command, LeWord, NextKey, FinalWord, FinalCommand, Decrypted;
    var k, f := NextKey(b.key), FinalWord(b.crc, |rom|);
    CipherTwice(f, k, |rom|);
    CommandBytes(Cipher(f, k, |rom|));
    DecryptedIs(Command(Cipher(f, k, |rom|)), f, k, |rom|);
  }

  lemma FinalCommandIs(rom: seq<octet>, b: Body)
    ensures FinalCommand(rom, b) == Command(Cipher(FinalWord(b.crc, |rom|), NextKey(b.key), |rom|))
  {
    hide Command, Cipher, FinalWord, NextKey;
  }

  lemma DecryptedIs(c: seq<octet>, f: bv32, k: bv32, i: int)
    requires |c| == 5 && c[0] == WRITE && LeWord(c[1], c[2], c[3], c[4]) == Cipher(f, k, i) && Cipher(Cipher(f, k, i), k, i) == f
    ensures Decrypted(c, k, i) == f && c[0] == 0x15
  {
    hide LeWord, Cipher;
  }

  lemma Sixteens(crc: bv32)
    requires Sixteen(crc)
    ensures crc <= 0xFFFF
  {
  }

  lemma FinalHalves(crc: bv32, n: nat)
    requires Sixteen(crc)
    ensures LowHalf(FinalWord(crc, n)) == crc && HighHalf(FinalWord(crc, n)) == LowHalf(Length32(n))
  {
    hide Length32;
    Sixteens(crc);
    RawFinal(crc, Length32(n));
    hide Sixteen;
  }

  lemma AllWords(rom: seq<octet>, channel: bv32)
    requires Sendable(rom)
    ensures BodyWords(rom, channel, |rom|) == AllBodyWords(rom, channel)
  {
    hide Words;
    assert Patched(rom, channel)[0xC0..|rom|] == Patched(rom, channel)[0xC0..];
  }

  lemma UploadParts(rom: seq<octet>, key: bv32, channel: bv32)
    requires Sendable(rom)
    ensures var u, n, b := Upload(rom, key, channel), |rom| / 4, BodyStream(rom, key, channel, |rom|);
            && |u| == n + 3 && u[0] == Command(GcKey.CalculateKey(Length32(|rom|)))
            && u[n + 1] == FinalCommand(rom, b) && u[n + 2] == [0x14]
  {
    hide BodyStream, HeaderStream, Command, GcKey.CalculateKey, FinalCommand, KeyAfter, Checksum, BodyWords, Length32;
    HeaderCount(rom, HEADER);
    BodyFolded(rom, key, channel);
    assert |rom| / 4 == 0xC0 / 4 + (|rom| - 0xC0) / 4;
  }

  /** A key that can carry the length gives it back from the first write. */
  lemma FirstWriteGivesLength(rom: seq<octet>, key: bv32, channel: bv32)
    requires Sendable(rom)
    ensures var c := Upload(rom, key, channel)[0]; var n := Length32(|rom|);
            |c| == 5 && (GcKey.Reversed(LeWord(c[1], c[2], c[3], c[4])) == GcKey.Known(n) <==> GcKey.Carried(n))
  {
    var n := Length32(|rom|);
    UploadParts(rom, key, channel);
    hide Upload, Command, GcKey.CalculateKey, LeWord, GcKey.Reversed, GcKey.Carried;
    CommandBytes(GcKey.CalculateKey(n));
    GcKey.ReverseRecoversIffCarried(n);
  }

  // ---------------------------------------------------------------------------
  // A changed byte changes it
  // ---------------------------------------------------------------------------

  /** The low k bits are clear, and what is above them is not zero and fits 16 bits. */
  predicate Apart(d: bv32, k: nat) {
    if k == 0 then Near(d) else !Odd(d) && Apart(Half(d), k - 1)
  }

  /** Nothing is left after n bits. */
  predicate Gone(v: bv32, n: nat) { if n == 0 then v == 0 else Gone(Half(v), n - 1) }

  /** Where two runs of the checksum stand apart: registers and the rest of their words together. */
  function Gap(c: bv32, v: bv32, e: bv32, w: bv32): bv32 { Xor(Xor(c, v), Xor(e, w)) }

  lemma OddTogether(x: bv32, y: bv32)
    ensures Odd(Xor(x, y)) <==> Odd(x) != Odd(y)
  {
    assert (x ^ y) & 1 == (x & 1) ^ (y & 1);
    RawBits(x & 1, y & 1);
  }

  lemma RawBits(a: bv32, b: bv32)
    requires a <= 1 && b <= 1
    ensures a ^ b == 1 <==> (a == 1) != (b == 1)
  {
  }

  lemma PolyCancels(a: bv32, b: bv32, c: bv32, d: bv32, p: bv32)
    ensures Gap(Xor(a, p), b, Xor(c, p), d) == Gap(a, b, c, d)
  {
    hide Xor;
    XorSwap(a, p, b);
    XorSwap(c, p, d);
    Cancels(Xor(a, b), Xor(c, d), p);
  }

  lemma PolyComesOut(a: bv32, b: bv32, c: bv32, d: bv32, p: bv32)
    ensures Gap(Xor(a, p), b, c, d) == Xor(Gap(a, b, c, d), p) && Gap(a, b, Xor(c, p), d) == Xor(Gap(a, b, c, d), p)
  {
    hide Xor;
    XorSwap(a, p, b);
    XorSwap(Xor(a, b), p, Xor(c, d));
    XorSwap(c, p, d);
    XorAssoc(Xor(a, b), Xor(c, d), p);
  }

  lemma GapHalf(c: bv32, v: bv32, e: bv32, w: bv32)
    ensures Gap(Half(c), Half(v), Half(e), Half(w)) == Half(Gap(c, v, e, w))
  {
    hide Xor, Half;
    XorHalf(c, v);
    XorHalf(e, w);
    XorHalf(Xor(c, v), Xor(e, w));
  }

  lemma StepSame(c: bv32, v: bv32, e: bv32, w: bv32)
    requires !Odd(Gap(c, v, e, w))
    ensures Gap(CrcBit(c, v), Half(v), CrcBit(e, w), Half(w)) == Half(Gap(c, v, e, w))
  {
    hide Odd, Xor, Half;
    OddTogether(Xor(c, v), Xor(e, w));
    GapHalf(c, v, e, w);
    PolyCancels(Half(c), Half(v), Half(e), Half(w), CRC_POLY);
  }

  predicate Near(d: bv32) { 0 < d <= 0xFFFF }

  lemma TurnedNear(d: bv32)
    requires Odd(d) && Near(d)
    ensures Near(Xor(Half(d), CRC_POLY))
  {
    assert 0 < (d >> 1) ^ 0xa1c1 <= 0xFFFF;
  }

  lemma HalfNear(d: bv32)
    requires Near(d) && !Odd(d)
    ensures Near(Half(d))
  {
    assert d & 1 == 0 || d & 1 == 1;
    RawHalf(d);
  }

  lemma RawHalf(d: bv32)
    requires 0 < d <= 0xFFFF && d & 1 == 0
    ensures 0 < d >> 1 <= 0xFFFF
  {
  }

  /** One bit of the checksum never brings two runs that are 16 bits apart together: the polynomial's top bit is set. */
  lemma StepApart(c: bv32, v: bv32, e: bv32, w: bv32)
    requires Near(Gap(c, v, e, w))
    ensures Near(Gap(CrcBit(c, v), Half(v), CrcBit(e, w), Half(w)))
  {
    hide Xor, Half, Near, Odd;
    OddTogether(Xor(c, v), Xor(e, w));
    if Odd(Gap(c, v, e, w)) {
      GapHalf(c, v, e, w);
      PolyComesOut(Half(c), Half(v), Half(e), Half(w), CRC_POLY);
      TurnedNear(Gap(c, v, e, w));
      hide Gap;
    } else {
      hide CrcBit;
      HalfNear(Gap(c, v, e, w));
      StepSame(c, v, e, w);
    }
  }

  lemma {:induction false} StaysApart(c: bv32, v: bv32, e: bv32, w: bv32, n: nat, k: nat)
    requires Apart(Gap(c, v, e, w), k) && k <= n && Gone(v, n) && Gone(w, n)
    ensures CrcBits(c, v, n) != CrcBits(e, w, n)
    decreases n
  {
    if n == 0 {
      RawGap(c, e);
    } else {
      if k == 0 {
        StepApart(c, v, e, w);
      } else {
        StepSame(c, v, e, w);
      }
      hide CrcBit, Gap, Half, Odd;
      StaysApart(CrcBit(c, v), Half(v), CrcBit(e, w), Half(w), n - 1, if k == 0 then 0 else k - 1);
    }
  }

  lemma RawGap(c: bv32, e: bv32)
    requires Gap(c, 0, e, 0) != 0
    ensures c != e
  {
    assert (c ^ 0) ^ (c ^ 0) == 0;
  }

  /** A word shifted down a byte, one bit at a time. */
  lemma ByteDown(d: bv32)
    ensures Half(Half(Half(Half(Half(Half(Half(Half(d)))))))) == Down8(d)
  {
    Shifts(d);
    hide Half;
  }

  lemma EvenByte(d: bv32)
    requires LowClear(d)
    ensures !Odd(d) && !Odd(Half(d)) && !Odd(Half(Half(d))) && !Odd(Half(Half(Half(d))))
    ensures var x := Half(Half(Half(Half(d)))); !Odd(x) && !Odd(Half(x)) && !Odd(Half(Half(x))) && !Odd(Half(Half(Half(x))))
  {
    RawEvens(d);
  }

  lemma RawEvens(d: bv32)
    requires d & 0xFF == 0
    ensures d & 1 != 1 && (d >> 1) & 1 != 1 && ((d >> 1) >> 1) & 1 != 1 && (((d >> 1) >> 1) >> 1) & 1 != 1
    ensures ((((d >> 1) >> 1) >> 1) >> 1) & 1 != 1 && (((((d >> 1) >> 1) >> 1) >> 1) >> 1) & 1 != 1
    ensures ((((((d >> 1) >> 1) >> 1) >> 1) >> 1) >> 1) & 1 != 1 && (((((((d >> 1) >> 1) >> 1) >> 1) >> 1) >> 1) >> 1) & 1 != 1
  {
  }

  lemma GoneByte(v: bv32, n: nat)
    requires Gone(Down8(v), n)
    ensures Gone(v, n + 8)
  {
    ByteDown(v);
    hide Half, Down8;
    var a := Half(Half(Half(Half(v))));
    assert Gone(Half(Half(Half(a))), n + 1);
    assert Gone(Half(Half(a)), n + 2);
    assert Gone(Half(a), n + 3);
    assert Gone(a, n + 4);
    assert Gone(Half(Half(Half(v))), n + 5);
    assert Gone(Half(Half(v)), n + 6);
    assert Gone(Half(v), n + 7);
  }

  lemma AllGone(v: bv32)
    ensures Gone(v, 32)
  {
    assert Down8(Down8(Down8(Down8(v)))) == 0 by {
      assert (((v >> 8) >> 8) >> 8) >> 8 == 0;
    }
    assert Gone(0, 0);
    hide Down8, Gone;
    GoneByte(Down8(Down8(Down8(v))), 0);
    GoneByte(Down8(Down8(v)), 8);
    GoneByte(Down8(v), 16);
    GoneByte(v, 24);
  }

  lemma ApartByte(d: bv32, k: nat)
    requires LowClear(d) && Apart(Down8(d), k)
    ensures Apart(d, k + 8)
  {
    ByteDown(d);
    EvenByte(d);
    hide Half, Down8, Odd, Near, LowClear;
    var a := Half(Half(Half(Half(d))));
    assert Apart(Half(Half(Half(a))), k + 1);
    assert Apart(Half(Half(a)), k + 2);
    assert Apart(Half(a), k + 3);
    assert Apart(a, k + 4);
    assert Apart(Half(Half(Half(d))), k + 5);
    assert Apart(Half(Half(d)), k + 6);
    assert Apart(Half(d), k + 7);
  }

  /** How far two words that differ in one byte stand apart. */
  lemma OneByteApart(b0: octet, b1: octet, b2: octet, b3: octet, c0: octet, c1: octet, c2: octet, c3: octet) returns (k: nat)
    requires (if b0 != c0 then 1 else 0) + (if b1 != c1 then 1 else 0) + (if b2 != c2 then 1 else 0) + (if b3 != c3 then 1 else 0) == 1
    ensures k <= 24 && Apart(Xor(LeWord(b0, b1, b2, b3), LeWord(c0, c1, c2, c3)), k)
  {
    var d := Xor(LeWord(b0, b1, b2, b3), LeWord(c0, c1, c2, c3));
    hide LeWord, Xor, Down8, LowClear, Near;
    if b0 != c0 {
      Lane0(b0, c0, b1, b2, b3);
      k := 0;
    } else if b1 != c1 {
      Lane1(b1, c1, b0, b2, b3);
      ApartByte(d, 0);
      k := 8;
    } else if b2 != c2 {
      Lane2(b2, c2, b0, b1, b3);
      ApartByte(Down8(d), 0);
      ApartByte(d, 8);
      k := 16;
    } else {
      Lane3(b3, c3, b0, b1, b2);
      ApartByte(Down8(Down8(d)), 0);
      ApartByte(Down8(d), 8);
      ApartByte(d, 16);
      k := 24;
    }
  }

  lemma Cancels(a: bv32, b: bv32, r: bv32)
    ensures Xor(Xor(a, r), Xor(b, r)) == Xor(a, b) && Xor(Xor(r, a), Xor(r, b)) == Xor(a, b)
  {
    assert (a ^ r) ^ (b ^ r) == a ^ b && (r ^ a) ^ (r ^ b) == a ^ b;
  }

  lemma DownBoth(a: bv32, b: bv32)
    requires LowClear(a) && LowClear(b)
    ensures LowClear(Xor(a, b)) && Down8(Xor(a, b)) == Xor(Down8(a), Down8(b))
  {
    assert (a ^ b) & 0xFF == (a & 0xFF) ^ (b & 0xFF);
    assert (a ^ b) >> 8 == (a >> 8) ^ (b >> 8);
  }

  lemma LowNear(b: octet, c: octet)
    requires b != c
    ensures Near(Xor(Low(b), Low(c)))
  {
    assert 0 < (b as bv32) ^ (c as bv32) <= 0xFFFF;
  }

  /** Where one changed byte shows in the difference of two words. */
  lemma Lane0(b: octet, c: octet, x: octet, y: octet, z: octet)
    requires b != c
    ensures Near(Xor(LeWord(b, x, y, z), LeWord(c, x, y, z)))
  {
    hide *;
    WordSplit(b, x, y, z);
    WordSplit(c, x, y, z);
    Cancels(Low(b), Low(c), Up3(x, y, z));
    LowNear(b, c);
  }

  lemma Lane1(b: octet, c: octet, x: octet, y: octet, z: octet)
    requires b != c
    ensures var d := Xor(LeWord(x, b, y, z), LeWord(x, c, y, z)); LowClear(d) && Near(Down8(d))
  {
    hide *;
    WordSplit(x, b, y, z);
    WordSplit(x, c, y, z);
    Cancels(Up3(b, y, z), Up3(c, y, z), Low(x));
    UpClear(b, y, z);
    UpClear(c, y, z);
    DownBoth(Up3(b, y, z), Up3(c, y, z));
    UpDown(b, y, z);
    UpDown(c, y, z);
    Cancels(Low(b), Low(c), Up2(y, z));
    LowNear(b, c);
  }

  lemma Lane2(b: octet, c: octet, x: octet, y: octet, z: octet)
    requires b != c
    ensures var d := Xor(LeWord(x, y, b, z), LeWord(x, y, c, z)); LowClear(d) && LowClear(Down8(d)) && Near(Down8(Down8(d)))
  {
    hide *;
    WordSplit(x, y, b, z);
    WordSplit(x, y, c, z);
    Cancels(Up3(y, b, z), Up3(y, c, z), Low(x));
    UpClear(y, b, z);
    UpClear(y, c, z);
    DownBoth(Up3(y, b, z), Up3(y, c, z));
    UpDown(y, b, z);
    UpDown(y, c, z);
    Cancels(Up2(b, z), Up2(c, z), Low(y));
    DownBoth(Up2(b, z), Up2(c, z));
    Cancels(Low(b), Low(c), Up1(z));
    LowNear(b, c);
  }

  lemma Lane3(b: octet, c: octet, x: octet, y: octet, z: octet)
    requires b != c
    ensures var d := Xor(LeWord(x, y, z, b), LeWord(x, y, z, c));
            LowClear(d) && LowClear(Down8(d)) && LowClear(Down8(Down8(d))) && Near(Down8(Down8(Down8(d))))
  {
    hide *;
    WordSplit(x, y, z, b);
    WordSplit(x, y, z, c);
    Cancels(Up3(y, z, b), Up3(y, z, c), Low(x));
    UpClear(y, z, b);
    UpClear(y, z, c);
    DownBoth(Up3(y, z, b), Up3(y, z, c));
    UpDown(y, z, b);
    UpDown(y, z, c);
    Cancels(Up2(z, b), Up2(z, c), Low(y));
    DownBoth(Up2(z, b), Up2(z, c));
    Cancels(Up1(b), Up1(c), Low(z));
    DownBoth(Up1(b), Up1(c));
    LowNear(b, c);
  }

  /** From equal checksums a word changed in one byte makes them different, and different ones stay so. */
  lemma WordMatters(c: bv32, e: bv32, v: bv32, w: bv32, k: nat)
    requires Sixteen(c) && Sixteen(e) && k <= 32
    requires if c == e then Apart(Xor(v, w), k) else v == w
    ensures CrcBits(c, v, 32) != CrcBits(e, w, 32)
  {
    AllGone(v);
    AllGone(w);
    RawGaps(c, e, v, w);
    hide Gone, Xor;
    StaysApart(c, v, e, w, 32, if c == e then k else 0);
  }

  lemma RawGaps(c: bv32, e: bv32, v: bv32, w: bv32)
    ensures c == e ==> Gap(c, v, e, w) == Xor(v, w)
    ensures v == w && c != e && c <= 0xFFFF && e <= 0xFFFF ==> 0 < Gap(c, v, e, w) <= 0xFFFF
  {
    assert (c ^ v) ^ (c ^ w) == v ^ w;
    assert (c ^ v) ^ (e ^ v) == c ^ e;
    assert c != e ==> c ^ e != 0;
  }

  lemma {:induction false} FoldedSixteen(crc: bv32, ws: seq<bv32>)
    requires Sixteen(crc)
    ensures Sixteen(Folded(crc, ws))
  {
    hide CrcBits, Sixteen;
    if ws != [] {
      FoldedSixteen(crc, ws[..|ws| - 1]);
      CrcSixteen(Folded(crc, ws[..|ws| - 1]), ws[|ws| - 1], 32);
    }
  }

  /** Two lists of words that differ in one word, and there in one byte, have different checksums. */
  lemma {:induction false} ChangedWordShows(crc: bv32, x: seq<bv32>, y: seq<bv32>, j: nat, k: nat)
    requires Sixteen(crc) && |x| == |y| && j < |x| && k <= 32 && Apart(Xor(x[j], y[j]), k)
    requires forall i :: 0 <= i < |x| && i != j ==> x[i] == y[i]
    ensures Folded(crc, x) != Folded(crc, y)
  {
    var n := |x| - 1;
    var u, v := x[..n], y[..n];
    FoldedSixteen(crc, u);
    FoldedSixteen(crc, v);
    if j == n {
      assert u == v;
    } else {
      ChangedWordShows(crc, u, v, j, k);
    }
    hide CrcBits, Sixteen, Apart, Xor;
    WordMatters(Folded(crc, u), Folded(crc, v), x[n], y[n], k);
  }

  /** Two ROMs of equal length whose bodies differ in one byte outside the channel word. */
  predicate InOneByte(rom: seq<octet>, other: seq<octet>, i: nat) {
    && Sendable(rom) && Sendable(other) && |rom| == |other|
    && 0xC0 <= i < |rom| && !(0xC4 <= i < 0xC8)
    && rom[i] != other[i] && forall k :: 0 <= k < |rom| && k != i ==> rom[k] == other[k]
  }

  lemma PatchedApart(rom: seq<octet>, other: seq<octet>, channel: bv32, i: nat)
    requires InOneByte(rom, other, i)
    ensures var p, q := Patched(rom, channel), Patched(other, channel);
            p[i] != q[i] && forall k :: 0 <= k < |p| && k != i ==> p[k] == q[k]
  {
    hide Slip.LeBytes;
  }

  lemma WordsApart(p: seq<octet>, q: seq<octet>, i: nat) returns (k: nat)
    requires |p| == |q| && |p| % 4 == 0 && i < |p| && p[i] != q[i] && forall n :: 0 <= n < |p| && n != i ==> p[n] == q[n]
    ensures k <= 24 && Apart(Xor(Words(p)[i / 4], Words(q)[i / 4]), k)
    ensures forall j :: 0 <= j < |p| / 4 && j != i / 4 ==> Words(p)[j] == Words(q)[j]
  {
    hide LeWord, Apart, Xor;
    var b := 4 * (i / 4);
    k := OneByteApart(p[b], p[b + 1], p[b + 2], p[b + 3], q[b], q[b + 1], q[b + 2], q[b + 3]);
  }

  /**
   The last word tells any such two uploads apart: whatever the keys, what the receiver decrypts
   differs in the checksum.
   */
  lemma ChangedByteShows(rom: seq<octet>, other: seq<octet>, channel: bv32, i: nat)
    requires InOneByte(rom, other, i)
    ensures Checksum(AllBodyWords(rom, channel)) != Checksum(AllBodyWords(other, channel))
  {
    PatchedApart(rom, other, channel, i);
    var p, q := Patched(rom, channel)[0xC0..], Patched(other, channel)[0xC0..];
    hide Patched, LeWord, Apart, Xor, Folded;
    assert p[i - 0xC0] != q[i - 0xC0];
    var k := WordsApart(p, q, i - 0xC0);
    assert Sixteen(0x15a0);
    ChangedWordShows(0x15a0, Words(p), Words(q), (i - 0xC0) / 4, k);
  }

  // ---------------------------------------------------------------------------
  // Known values
  // ---------------------------------------------------------------------------

  lemma KnownByte(c: bv32, v: bv32, d: bv32, w: bv32, n: nat)
    requires ByteTaken(c, v, d) && w == v >> 8
    ensures CrcBits(c, v, n + 8) == CrcBits(d, w, n)
  {
    RawShifts(v);
    hide CrcBit, Half;
    var c1 := CrcBit(c, v);
    var c2 := CrcBit(c1, v >> 1);
    var c3 := CrcBit(c2, v >> 2);
    var c4 := CrcBit(c3, v >> 3);
    var c5 := CrcBit(c4, v >> 4);
    var c6 := CrcBit(c5, v >> 5);
    var c7 := CrcBit(c6, v >> 6);
    assert CrcBits(c, v, n + 8) == CrcBits(c1, v >> 1, n + 7);
    assert CrcBits(c1, v >> 1, n + 7) == CrcBits(c2, v >> 2, n + 6);
    assert CrcBits(c2, v >> 2, n + 6) == CrcBits(c3, v >> 3, n + 5);
    assert CrcBits(c3, v >> 3, n + 5) == CrcBits(c4, v >> 4, n + 4);
    assert CrcBits(c4, v >> 4, n + 4) == CrcBits(c5, v >> 5, n + 3);
    assert CrcBits(c5, v >> 5, n + 3) == CrcBits(c6, v >> 6, n + 2);
    assert CrcBits(c6, v >> 6, n + 2) == CrcBits(c7, v >> 7, n + 1);
    assert CrcBits(c7, v >> 7, n + 1) == CrcBits(d, w, n);
  }

  /** The low byte of v takes the register from c to d. */
  predicate ByteTaken(c: bv32, v: bv32, d: bv32) {
    d == CrcBit(CrcBit(CrcBit(CrcBit(CrcBit(CrcBit(CrcBit(CrcBit(c, v), v >> 1), v >> 2), v >> 3), v >> 4), v >> 5), v >> 6), v >> 7)
  }

  lemma KnownBytes()
    ensures ByteTaken(0x15a0, 0x1234_5678, 0x5ae9) && ByteTaken(0x5ae9, 0x12_3456, 0x102f)
    ensures ByteTaken(0x102f, 0x1234, 0xaa8e) && ByteTaken(0xaa8e, 0x12, 0x690c)
  {
  }

  lemma OneWord(w: bv32)
    ensures Checksum([w]) == CrcBits(0x15a0, w, 32)
  {
    hide CrcBits;
    assert [] + [w] == [w];
    FoldedMore(0x15a0, [], w);
  }

  lemma NoBits(c: bv32)
    ensures CrcBits(c, 0, 0) == c
  {
  }

  lemma RawShifts(v: bv32)
    ensures Half(v) == v >> 1 && Half(v >> 1) == v >> 2 && Half(v >> 2) == v >> 3 && Half(v >> 3) == v >> 4
         && Half(v >> 4) == v >> 5 && Half(v >> 5) == v >> 6 && Half(v >> 6) == v >> 7 && Half(v >> 7) == v >> 8
  {
  }

  /** The checksum of one word, worked out: it fixes polynomial, seed and bit order. */
  lemma KnownChecksum()
    ensures Checksum([0x1234_5678]) == 0x690c
  {
    KnownBytes();
    OneWord(0x1234_5678);
    hide ByteTaken, CrcBit, Checksum;
    KnownByte(0x15a0, 0x1234_5678, 0x5ae9, 0x12_3456, 24);
    assert CrcBits(0x15a0, 0x1234_5678, 32) == CrcBits(0x5ae9, 0x12_3456, 24);
    KnownByte(0x5ae9, 0x12_3456, 0x102f, 0x1234, 16);
    assert CrcBits(0x5ae9, 0x12_3456, 24) == CrcBits(0x102f, 0x1234, 16);
    KnownByte(0x102f, 0x1234, 0xaa8e, 0x12, 8);
    assert CrcBits(0x102f, 0x1234, 16) == CrcBits(0xaa8e, 0x12, 8);
    KnownByte(0xaa8e, 0x12, 0x690c, 0, 0);
    assert CrcBits(0xaa8e, 0x12, 8) == CrcBits(0x690c, 0, 0);
    NoBits(0x690c);
  }

  /** The mask worked out at the first body word and at 0x1000. */
  lemma KnownMasks()
    ensures MaskOf(0xC0) == 0xdd86_9d60 && MaskOf(0x1000) == 0xdd86_9220
  {
  }

  /** Encrypting adds the key and the mask to the word, bit by bit. */
  lemma CipherAdds(w: bv32, key: bv32, i: int)
    ensures Cipher(w, key, i) == w ^ key ^ MaskOf(Offset32(i))
  {
    hide MaskOf, Offset32;
  }

  /** The word behind the header's end is the channel in its second byte and nothing else. */
  lemma ChannelBytes(rom: seq<octet>, channel: bv32)
    requires |rom| >= 0xC8
    ensures var p := Patched(rom, channel);
            p[0xC4..0xC8] == [0, (channel & 0xFF) as octet, 0, 0] && p[..0xC4] == rom[..0xC4] && p[0xC8..] == rom[0xC8..]
  {
    RawChannel(channel);
    hide Slip.LeBytes;
    var p, w := Patched(rom, channel), Slip.LeBytes((channel & 0xFF) << 8);
    assert p == rom[..0xC4] + w + rom[0xC8..];
    assert p[0xC4..0xC8] == w;
  }

  lemma RawChannel(channel: bv32)
    ensures Slip.LeBytes((channel & 0xFF) << 8) == [0, (channel & 0xFF) as octet, 0, 0]
  {
    assert ((channel & 0xFF) << 8) & 0xFF == 0 && (((channel & 0xFF) << 8) >> 8) & 0xFF == channel & 0xFF;
    assert (((channel & 0xFF) << 8) >> 16) & 0xFF == 0 && (((channel & 0xFF) << 8) >> 24) & 0xFF == 0;
  }
}
