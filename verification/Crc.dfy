/**
 CRC-32 as both ends of the link compute it, and why a damaged frame is noticed: the CRC
 register is a bijective function of any four consecutive bytes.

 The word operations are named so that a proof can use their laws without looking at bits.
 */
module Crc {
  type octet = bv8

  const POLY: bv32 := 0xEDB88320
  const ONES: bv32 := 0xFFFFFFFF

  // ---------------------------------------------------------------------------
  // Words
  // ---------------------------------------------------------------------------

  function Xor(a: bv32, b: bv32): bv32 { a ^ b }
  function Half(a: bv32): bv32 { a >> 1 }
  function Down8(a: bv32): bv32 { a >> 8 }
  predicate Odd(a: bv32) { a & 1 == 1 }
  predicate LowClear(a: bv32) { a & 0xFF == 0 }
  function Low(b: octet): bv32 { b as bv32 }

  /** Byte words: b1 b2 b3 one byte up, b2 b3 one byte up, b3 one byte up. */
  function Up3(b1: octet, b2: octet, b3: octet): bv32 {
    ((b1 as bv32) << 8) | ((b2 as bv32) << 16) | ((b3 as bv32) << 24)
  }
  function Up2(b2: octet, b3: octet): bv32 { ((b2 as bv32) << 8) | ((b3 as bv32) << 16) }
  function Up1(b3: octet): bv32 { (b3 as bv32) << 8 }

  /** The little-endian word made of four bytes. */
  function LeWord(b0: octet, b1: octet, b2: octet, b3: octet): bv32 {
    (b0 as bv32) | ((b1 as bv32) << 8) | ((b2 as bv32) << 16) | ((b3 as bv32) << 24)
  }

  lemma XorAssoc(a: bv32, b: bv32, c: bv32)
    ensures Xor(a, Xor(b, c)) == Xor(Xor(a, b), c)
  {
    assert a ^ (b ^ c) == (a ^ b) ^ c;
  }

  lemma XorComm(a: bv32, b: bv32)
    ensures Xor(a, b) == Xor(b, a)
  {
    assert a ^ b == b ^ a;
  }

  lemma XorSwap(a: bv32, b: bv32, c: bv32)
    ensures Xor(Xor(a, b), c) == Xor(Xor(a, c), b)
  {
    hide Xor;
    XorAssoc(a, b, c);
    XorComm(b, c);
    XorAssoc(a, c, b);
  }

  lemma XorTwice(a: bv32, b: bv32)
    ensures Xor(a, Xor(a, b)) == b
  {
    assert a ^ (a ^ b) == b;
  }

  lemma XorCancel(a: bv32, b: bv32, c: bv32)
    requires Xor(a, c) == Xor(b, c)
    ensures a == b
  {
    assert a == (a ^ c) ^ c && b == (b ^ c) ^ c;
  }

  lemma XorHalf(a: bv32, b: bv32)
    ensures Half(Xor(a, b)) == Xor(Half(a), Half(b))
  {
    assert (a ^ b) >> 1 == (a >> 1) ^ (b >> 1);
  }

  lemma XorOdd(a: bv32, b: bv32)
    requires !Odd(b)
    ensures Odd(Xor(a, b)) == Odd(a)
  {
    XorLowBit(a, b);
  }

  lemma XorLowBit(a: bv32, b: bv32)
    requires b & 1 != 1
    ensures (a ^ b) & 1 == a & 1
  {
  }

  // ---------------------------------------------------------------------------
  // The register
  // ---------------------------------------------------------------------------

  /** One bit shifted out of the register. */
  function Bit(c: bv32): bv32 { if Odd(c) then Xor(Half(c), POLY) else Half(c) }

  function Bits(c: bv32, n: nat): bv32 { if n == 0 then c else Bit(Bits(c, n - 1)) }

  function Take(c: bv32, b: octet): bv32 { Bits(Xor(c, Low(b)), 8) }

  /** The register after a byte string. */
  function Run(c: bv32, s: seq<octet>): bv32 {
    if s == [] then c else Take(Run(c, s[..|s| - 1]), s[|s| - 1])
  }

  function Crc32(s: seq<octet>): bv32 { Xor(Run(ONES, s), ONES) }

  lemma RunNone(c: bv32)
    ensures Run(c, []) == c
  {
  }

  lemma RunMore(c: bv32, s: seq<octet>, b: octet)
    ensures Run(c, s + [b]) == Take(Run(c, s), b)
  {
    hide Take;
    assert (s + [b])[..|s|] == s;
  }

  lemma {:induction false} RunConcat(c: bv32, s: seq<octet>, t: seq<octet>)
    ensures Run(c, s + t) == Run(Run(c, s), t)
  {
    hide Take;
    if t == [] {
      assert s + t == s;
    } else {
      var init, last := t[..|t| - 1], t[|t| - 1];
      assert s + t == (s + init) + [last] && t == init + [last];
      RunConcat(c, s, init);
      RunMore(c, s + init, last);
    }
  }

  // ---------------------------------------------------------------------------
  // Injectivity
  // ---------------------------------------------------------------------------

  /** The polynomial's top bit records which branch was taken. */
  predicate Top(a: bv32) { a & 0x8000_0000 != 0 }

  lemma TopOfBit(c: bv32)
    ensures Top(Bit(c)) == Odd(c)
  {
    RawTop(c);
  }

  lemma RawTop(c: bv32)
    ensures (c >> 1) & 0x8000_0000 == 0 && ((c >> 1) ^ 0xEDB88320) & 0x8000_0000 != 0
  {
  }

  lemma HalfAndOdd(c: bv32, d: bv32)
    requires Half(c) == Half(d) && Odd(c) == Odd(d)
    ensures c == d
  {
    RawHalf(c, d);
  }

  lemma RawHalf(c: bv32, d: bv32)
    requires c >> 1 == d >> 1 && (c & 1 == 1 <==> d & 1 == 1)
    ensures c == d
  {
  }

  lemma BitInjective(c: bv32, d: bv32)
    requires Bit(c) == Bit(d)
    ensures c == d
  {
    hide Xor, Half, Odd, Top;
    TopOfBit(c);
    TopOfBit(d);
    if Odd(c) {
      XorCancel(Half(c), Half(d), POLY);
    }
    HalfAndOdd(c, d);
  }

  lemma {:induction false} BitsInjective(c: bv32, d: bv32, n: nat)
    requires Bits(c, n) == Bits(d, n)
    ensures c == d
  {
    hide Bit;
    if n > 0 {
      BitInjective(Bits(c, n - 1), Bits(d, n - 1));
      BitsInjective(c, d, n - 1);
    }
  }

  lemma TakeInjective(c: bv32, d: bv32, b: octet)
    requires Take(c, b) == Take(d, b)
    ensures c == d
  {
    hide Bits, Xor, Low;
    BitsInjective(Xor(c, Low(b)), Xor(d, Low(b)), 8);
    XorCancel(c, d, Low(b));
  }

  /** The same bytes never bring two different registers together. */
  lemma {:induction false} RunInjective(c: bv32, d: bv32, s: seq<octet>)
    requires Run(c, s) == Run(d, s)
    ensures c == d
  {
    hide Take;
    if s != [] {
      var init, last := s[..|s| - 1], s[|s| - 1];
      TakeInjective(Run(c, init), Run(d, init), last);
      RunInjective(c, d, init);
    }
  }

  // ---------------------------------------------------------------------------
  // Four bytes at once
  // ---------------------------------------------------------------------------

  /** Bits that are still above the shifted-out one pass through unchanged. */
  lemma BitLinear(c: bv32, r: bv32)
    requires !Odd(r)
    ensures Bit(Xor(c, r)) == Xor(Bit(c), Half(r))
  {
    XorOdd(c, r);
    XorHalf(c, r);
    XorSwap(Half(c), Half(r), POLY);
    hide Xor, Odd, Half;
  }

  function Halves(r: bv32, n: nat): bv32 { if n == 0 then r else Half(Halves(r, n - 1)) }

  lemma {:induction false} BitsLinear(c: bv32, r: bv32, n: nat)
    requires forall k: nat :: k < n ==> !Odd(Halves(r, k))
    ensures Bits(Xor(c, r), n) == Xor(Bits(c, n), Halves(r, n))
  {
    hide Bit, Xor, Odd, Half;
    if n > 0 {
      BitsLinear(c, r, n - 1);
      BitLinear(Bits(c, n - 1), Halves(r, n - 1));
    }
  }

  /** A word whose lowest byte is clear comes through one byte's steps moved down by eight bits. */
  lemma ByteLinear(c: bv32, r: bv32)
    requires LowClear(r)
    ensures Bits(Xor(c, r), 8) == Xor(Bits(c, 8), Down8(r))
  {
    HalvesOf(r);
    hide *;
    BitsLinear(c, r, 8);
  }

  /** A word moved down by n bits. */
  function Down(r: bv32, n: nat): bv32
    requires n <= 8
  {
    if n == 0 then r else if n == 1 then r >> 1 else if n == 2 then r >> 2 else if n == 3 then r >> 3 else if n == 4 then r >> 4
    else if n == 5 then r >> 5 else if n == 6 then r >> 6 else if n == 7 then r >> 7 else r >> 8
  }

  lemma DownHalf(r: bv32, n: nat)
    requires n < 8
    ensures Half(Down(r, n)) == Down(r, n + 1)
  {
    hide Half;
    Shifts(r);
  }

  lemma DownEven(r: bv32, n: nat)
    requires LowClear(r) && n < 8
    ensures !Odd(Down(r, n))
  {
    LowBits(r);
  }

  lemma {:induction false} HalvesDown(r: bv32, n: nat)
    requires n <= 8
    ensures Halves(r, n) == Down(r, n)
  {
    if n > 0 {
      HalvesDown(r, n - 1);
      DownHalf(r, n - 1);
      hide Half;
    }
  }

  lemma HalvesOf(r: bv32)
    requires LowClear(r)
    ensures Halves(r, 8) == Down8(r) && forall k: nat :: k < 8 ==> !Odd(Halves(r, k))
  {
    assert Down(r, 8) == Down8(r);
    hide *;
    HalvesDown(r, 8);
    forall k: nat | k < 8 ensures !Odd(Halves(r, k)) {
      HalvesDown(r, k);
      DownEven(r, k);
    }
  }

  lemma LowBits(r: bv32)
    requires r & 0xFF == 0
    ensures r & 1 == 0 && (r >> 1) & 1 == 0 && (r >> 2) & 1 == 0 && (r >> 3) & 1 == 0
    ensures (r >> 4) & 1 == 0 && (r >> 5) & 1 == 0 && (r >> 6) & 1 == 0 && (r >> 7) & 1 == 0
  {
  }

  lemma Shifts(r: bv32)
    ensures Half(r) == r >> 1 && Half(r >> 1) == r >> 2 && Half(r >> 2) == r >> 3 && Half(r >> 3) == r >> 4
    ensures Half(r >> 4) == r >> 5 && Half(r >> 5) == r >> 6 && Half(r >> 6) == r >> 7 && Half(r >> 7) == r >> 8
  {
  }

  lemma UpDown(b1: octet, b2: octet, b3: octet)
    ensures Down8(Up3(b1, b2, b3)) == Xor(Low(b1), Up2(b2, b3))
    ensures Down8(Up2(b2, b3)) == Xor(Low(b2), Up1(b3)) && Down8(Up1(b3)) == Low(b3)
  {
    assert (((b1 as bv32) << 8) | ((b2 as bv32) << 16) | ((b3 as bv32) << 24)) >> 8
        == (b1 as bv32) ^ (((b2 as bv32) << 8) | ((b3 as bv32) << 16));
    assert (((b2 as bv32) << 8) | ((b3 as bv32) << 16)) >> 8 == (b2 as bv32) ^ ((b3 as bv32) << 8);
    assert ((b3 as bv32) << 8) >> 8 == b3 as bv32;
  }

  lemma UpClear(b1: octet, b2: octet, b3: octet)
    ensures LowClear(Up3(b1, b2, b3)) && LowClear(Up2(b2, b3)) && LowClear(Up1(b3))
  {
    assert (((b1 as bv32) << 8) | ((b2 as bv32) << 16) | ((b3 as bv32) << 24)) & 0xFF == 0;
    assert (((b2 as bv32) << 8) | ((b3 as bv32) << 16)) & 0xFF == 0;
    assert ((b3 as bv32) << 8) & 0xFF == 0;
  }

  lemma WordSplit(b0: octet, b1: octet, b2: octet, b3: octet)
    ensures LeWord(b0, b1, b2, b3) == Xor(Low(b0), Up3(b1, b2, b3))
  {
    assert (b0 as bv32) | ((b1 as bv32) << 8) | ((b2 as bv32) << 16) | ((b3 as bv32) << 24)
        == (b0 as bv32) ^ (((b1 as bv32) << 8) | ((b2 as bv32) << 16) | ((b3 as bv32) << 24));
  }

  function Bits32(c: bv32): bv32 { Bits(Bits(Bits(Bits(c, 8), 8), 8), 8) }

  /** One byte taken, with the rest of its word still above it. */
  lemma TakeUnder(c: bv32, b: octet, r: bv32)
    requires LowClear(r)
    ensures Bits(Xor(c, Xor(Low(b), r)), 8) == Xor(Take(c, b), Down8(r))
  {
    XorAssoc(c, Low(b), r);
    ByteLinear(Xor(c, Low(b)), r);
    hide Bits, Xor, Low, LowClear, Down8;
  }

  /** Feeding four bytes is xoring their word in and shifting 32 bits out. */
  lemma RunWord(c: bv32, b0: octet, b1: octet, b2: octet, b3: octet)
    ensures Run(c, [b0, b1, b2, b3]) == Bits32(Xor(c, LeWord(b0, b1, b2, b3)))
  {
    hide Xor, Low, LowClear, Down8, Up1, Up2, Up3, LeWord, Bits, Run;
    var c1 := Take(c, b0);
    var c2 := Take(c1, b1);
    var c3 := Take(c2, b2);
    FourTakes(c, b0, b1, b2, b3);
    WordSplit(b0, b1, b2, b3);
    UpDown(b1, b2, b3);
    UpClear(b1, b2, b3);
    TakeUnder(c, b0, Up3(b1, b2, b3));
    TakeUnder(c1, b1, Up2(b2, b3));
    TakeUnder(c2, b2, Up1(b3));
  }

  lemma FourTakes(c: bv32, b0: octet, b1: octet, b2: octet, b3: octet)
    ensures Run(c, [b0, b1, b2, b3]) == Take(Take(Take(Take(c, b0), b1), b2), b3)
  {
    hide Take, Run;
    RunNone(c);
    RunMore(c, [], b0);
    RunMore(c, [b0], b1);
    RunMore(c, [b0, b1], b2);
    RunMore(c, [b0, b1, b2], b3);
    assert [] + [b0] == [b0] && [b0] + [b1] == [b0, b1] && [b0, b1] + [b2] == [b0, b1, b2];
    assert [b0, b1, b2] + [b3] == [b0, b1, b2, b3];
  }

  lemma Bits32Injective(c: bv32, d: bv32)
    requires Bits32(c) == Bits32(d)
    ensures c == d
  {
    hide Bits;
    BitsInjective(Bits(Bits(Bits(c, 8), 8), 8), Bits(Bits(Bits(d, 8), 8), 8), 8);
    BitsInjective(Bits(Bits(c, 8), 8), Bits(Bits(d, 8), 8), 8);
    BitsInjective(Bits(c, 8), Bits(d, 8), 8);
    BitsInjective(c, d, 8);
  }

  lemma LeWordInjective(a0: octet, a1: octet, a2: octet, a3: octet, b0: octet, b1: octet, b2: octet, b3: octet)
    requires LeWord(a0, a1, a2, a3) == LeWord(b0, b1, b2, b3)
    ensures a0 == b0 && a1 == b1 && a2 == b2 && a3 == b3
  {
    RawWord(a0, a1, a2, a3, b0, b1, b2, b3);
  }

  lemma RawWord(a0: octet, a1: octet, a2: octet, a3: octet, b0: octet, b1: octet, b2: octet, b3: octet)
    requires (a0 as bv32) | ((a1 as bv32) << 8) | ((a2 as bv32) << 16) | ((a3 as bv32) << 24)
          == (b0 as bv32) | ((b1 as bv32) << 8) | ((b2 as bv32) << 16) | ((b3 as bv32) << 24)
    ensures a0 == b0 && a1 == b1 && a2 == b2 && a3 == b3
  {
  }

  // ---------------------------------------------------------------------------
  // Frames
  // ---------------------------------------------------------------------------

  function Tail(f: seq<octet>): bv32
    requires |f| >= 4
  {
    var n := |f|;
    LeWord(f[n - 4], f[n - 3], f[n - 2], f[n - 1])
  }

  /** The receiver's acceptance test on a received frame. */
  predicate Accepted(f: seq<octet>) { |f| >= 5 && Crc32(f[..|f| - 4]) == Tail(f) }

  /** A frame is accepted exactly when running the register over all of it ends on one fixed value. */
  lemma AcceptedIsResidue(f: seq<octet>)
    requires |f| >= 5
    ensures Accepted(f) <==> Run(ONES, f) == Bits32(ONES)
  {
    hide Run, Xor, LeWord, Bits32;
    var n := |f|;
    var body, last := f[..n - 4], [f[n - 4], f[n - 3], f[n - 2], f[n - 1]];
    var s := Run(ONES, body);
    assert f == body + last;
    RunConcat(ONES, body, last);
    RunWord(s, f[n - 4], f[n - 3], f[n - 2], f[n - 1]);
    XorTwice(s, ONES);
    XorTwice(s, Tail(f));
    if Run(ONES, f) == Bits32(ONES) {
      Bits32Injective(Xor(s, Tail(f)), ONES);
    }
  }

  /** Two frames of equal length that differ somewhere inside four consecutive bytes are not both accepted. */
  lemma BurstRejected(f: seq<octet>, g: seq<octet>, i: nat)
    requires Accepted(f) && |g| == |f| && i + 4 <= |f|
    requires f[..i] == g[..i] && f[i + 4..] == g[i + 4..] && f != g
    ensures !Accepted(g)
  {
    hide Run, Xor, LeWord, Bits32, Accepted;
    assert |f| >= 5 by { LongEnough(f); }
    AcceptedIsResidue(f);
    AcceptedIsResidue(g);
    var s := Run(ONES, f[..i]);
    SplitRun(f, i);
    SplitRun(g, i);
    assert f == f[..i] + f[i..i + 4] + f[i + 4..];
    assert g == g[..i] + g[i..i + 4] + g[i + 4..];
    if Accepted(g) {
      RunInjective(Run(s, f[i..i + 4]), Run(s, g[i..i + 4]), f[i + 4..]);
      FourInjective(s, f[i..i + 4], g[i..i + 4]);
      assert false;
    }
  }

  lemma LongEnough(f: seq<octet>)
    requires Accepted(f)
    ensures |f| >= 5
  {
  }

  lemma SplitRun(f: seq<octet>, i: nat)
    requires i + 4 <= |f|
    ensures Run(ONES, f) == Run(Run(Run(ONES, f[..i]), f[i..i + 4]), f[i + 4..])
  {
    hide Run;
    assert f == f[..i] + f[i..i + 4] + f[i + 4..];
    RunConcat(ONES, f[..i] + f[i..i + 4], f[i + 4..]);
    RunConcat(ONES, f[..i], f[i..i + 4]);
  }

  lemma FourInjective(s: bv32, x: seq<octet>, y: seq<octet>)
    requires |x| == 4 && |y| == 4 && Run(s, x) == Run(s, y)
    ensures x == y
  {
    hide Run, Xor, LeWord, Bits32;
    assert x == [x[0], x[1], x[2], x[3]] && y == [y[0], y[1], y[2], y[3]];
    var v, w := LeWord(x[0], x[1], x[2], x[3]), LeWord(y[0], y[1], y[2], y[3]);
    RunWord(s, x[0], x[1], x[2], x[3]);
    RunWord(s, y[0], y[1], y[2], y[3]);
    Bits32Injective(Xor(s, v), Xor(s, w));
    XorTwice(s, v);
    XorTwice(s, w);
    LeWordInjective(x[0], x[1], x[2], x[3], y[0], y[1], y[2], y[3]);
  }

  /** In particular, any single damaged byte is noticed. */
  lemma ByteErrorRejected(f: seq<octet>, k: nat, b: octet)
    requires Accepted(f) && k < |f| && f[k] != b
    ensures !Accepted(f[k := b])
  {
    hide Accepted;
    LongEnough(f);
    var i := if k + 4 <= |f| then k else |f| - 4;
    BurstRejected(f, f[k := b], i);
  }

  // ---------------------------------------------------------------------------
  // The two implementations
  // ---------------------------------------------------------------------------

  /** The link's own routine. */
  method ComputeCrc32(data: seq<octet>) returns (crc: bv32)
    ensures crc == Crc32(data)
  {
    hide Xor, Bit, Low;
    crc := ONES;
    for i := 0 to |data|
      invariant crc == Run(ONES, data[..i])
    {
      var start := Xor(crc, Low(data[i]));
      crc := start;
      for b := 0 to 8
        invariant crc == Bits(start, b)
      {
        crc := if Odd(crc) then Xor(Half(crc), POLY) else Half(crc);
        BitBranches(Bits(start, b));
      }
      RunMore(ONES, data[..i], data[i]);
      assert data[..i + 1] == data[..i] + [data[i]];
    }
    assert data[..|data|] == data;
    crc := Xor(crc, ONES);
  }

  lemma BitBranches(c: bv32)
    ensures Bit(c) == if Odd(c) then Xor(Half(c), POLY) else Half(c)
  {
  }

  /** The console relay's branch-free step: the polynomial masked by minus the low bit. */
  function Mask(c: bv32): bv32 { POLY & (0 - (c & 1)) }
  function MaskedBit(c: bv32): bv32 { Xor(Half(c), Mask(c)) }

  lemma MaskIs(c: bv32)
    ensures Mask(c) == if Odd(c) then POLY else 0
  {
    RawMask(c);
  }

  lemma RawMask(c: bv32)
    ensures 0xEDB88320 & (0 - (c & 1)) == if c & 1 == 1 then 0xEDB88320 else 0
  {
  }

  lemma MaskedBitIsBit(c: bv32)
    ensures MaskedBit(c) == Bit(c)
  {
    hide Xor, Half, Mask, Odd;
    MaskIs(c);
    XorZero(Half(c));
  }

  lemma XorZero(a: bv32)
    ensures Xor(a, 0) == a
  {
  }

  /** The relay's routine: a pass over the report id, then one over the data. */
  method ComputeReportCrc(reportId: octet, data: seq<octet>) returns (crc: bv32)
    ensures crc == Crc32([reportId] + data)
  {
    hide Xor, Bit, Low, MaskedBit;
    crc := ONES;
    ghost var done: seq<octet> := [];
    var pass := 0;
    while pass < 2
      invariant 0 <= pass <= 2 && crc == Run(ONES, done)
      invariant done == if pass == 0 then [] else if pass == 1 then [reportId] else [reportId] + data
    {
      var p := if pass == 0 then [reportId] else data;
      ghost var before := done;
      for i := 0 to |p|
        invariant done == before + p[..i] && crc == Run(ONES, done)
      {
        var start := Xor(crc, Low(p[i]));
        crc := start;
        for b := 0 to 8
          invariant crc == Bits(start, b)
        {
          MaskedBitIsBit(crc);
          crc := MaskedBit(crc);
        }
        RunMore(ONES, done, p[i]);
        done := done + [p[i]];
        assert before + p[..i + 1] == before + p[..i] + [p[i]];
      }
      assert p[..|p|] == p;
      pass := pass + 1;
    }
    crc := Xor(crc, ONES);
  }

  // ---------------------------------------------------------------------------
  // Known values
  // ---------------------------------------------------------------------------

  /** One byte takes the register from c to d, worked out bit by bit. */
  predicate Moves(c: bv32, b: octet, d: bv32) {
    d == Bit(Bit(Bit(Bit(Bit(Bit(Bit(Bit(Xor(c, Low(b))))))))))
  }

  lemma MovesIsTake(c: bv32, b: octet, d: bv32)
    requires Moves(c, b, d)
    ensures Take(c, b) == d
  {
    hide Bit, Xor, Low;
    var x := Xor(c, Low(b));
    assert Bits(x, 1) == Bit(x) && Bits(x, 2) == Bit(Bit(x)) && Bits(x, 3) == Bit(Bit(Bit(x)));
    assert Bits(x, 4) == Bit(Bit(Bit(Bit(x)))) && Bits(x, 5) == Bit(Bit(Bit(Bit(Bit(x)))));
    assert Bits(x, 6) == Bit(Bit(Bit(Bit(Bit(Bit(x)))))) && Bits(x, 7) == Bit(Bit(Bit(Bit(Bit(Bit(Bit(x)))))));
  }

  lemma Known0()
    ensures Moves(0xffffffff, 0x31, 0x7c231048)
    ensures Moves(0x7c231048, 0x32, 0xb0acbb32)
    ensures Moves(0xb0acbb32, 0x33, 0x77b79c2d)
  {
  }

  lemma Known1()
    ensures Moves(0x77b79c2d, 0x34, 0x641c1f5c)
    ensures Moves(0x641c1f5c, 0x35, 0x340ac5e3)
    ensures Moves(0x340ac5e3, 0x36, 0xf68d2c9e)
  {
  }

  lemma Known2()
    ensures Moves(0xf68d2c9e, 0x37, 0xaffc9660)
    ensures Moves(0xaffc9660, 0x38, 0x651f2550)
    ensures Moves(0x651f2550, 0x39, 0x340bc6d9)
  {
  }

  /** The digits "123456789". */
  const DIGITS: seq<octet> := [0x31, 0x32, 0x33, 0x34, 0x35, 0x36, 0x37, 0x38, 0x39]

  /** One digit further. */
  lemma Onward(n: nat, d: bv32, e: bv32)
    requires n < 9 && Run(0xFFFF_FFFF, DIGITS[..n]) == d && Moves(d, DIGITS[n], e)
    ensures Run(0xFFFF_FFFF, DIGITS[..n + 1]) == e
  {
    hide Moves, Take, Run;
    MovesIsTake(d, DIGITS[n], e);
    RunMore(0xFFFF_FFFF, DIGITS[..n], DIGITS[n]);
    assert DIGITS[..n + 1] == DIGITS[..n] + [DIGITS[n]];
  }

  lemma Digits3()
    ensures Run(0xFFFF_FFFF, DIGITS[..3]) == 0x77b79c2d
  {
    hide Moves, Take, Run;
    Known0();
    RunNone(0xFFFF_FFFF);
    assert DIGITS[..0] == [];
    Onward(0, 0xffffffff, 0x7c231048);
    Onward(1, 0x7c231048, 0xb0acbb32);
    Onward(2, 0xb0acbb32, 0x77b79c2d);
  }

  lemma Digits6()
    ensures Run(0xFFFF_FFFF, DIGITS[..6]) == 0xf68d2c9e
  {
    hide Moves, Take, Run;
    Known1();
    Digits3();
    Onward(3, 0x77b79c2d, 0x641c1f5c);
    Onward(4, 0x641c1f5c, 0x340ac5e3);
    Onward(5, 0x340ac5e3, 0xf68d2c9e);
  }

  lemma Digits9()
    ensures Run(0xFFFF_FFFF, DIGITS[..9]) == 0x340bc6d9
  {
    hide Moves, Take, Run;
    Known2();
    Digits6();
    Onward(6, 0xf68d2c9e, 0xaffc9660);
    Onward(7, 0xaffc9660, 0x651f2550);
    Onward(8, 0x651f2550, 0x340bc6d9);
  }

  /** The checksum's published check value: of the nine digits "123456789" it is CBF43926. */
  lemma CheckValue()
    ensures Crc32([0x31, 0x32, 0x33, 0x34, 0x35, 0x36, 0x37, 0x38, 0x39]) == 0xCBF4_3926
  {
    assert (0x340b_c6d9 as bv32) ^ 0xFFFF_FFFF == 0xCBF4_3926;
    hide Run;
    Digits9();
    assert DIGITS[..9] == DIGITS;
  }
}
