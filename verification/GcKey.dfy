/**
 The key a GBA multiboot sends first: derived from the ROM length, and the inverse that
 recovers the length from the key.
 */
module GcKey {
  const SEDO: bv32 := 0x6f64_6573
  const KAWA: bv32 := 0x6177_614b

  datatype Length = Unknown | Known(bytes: bv32)

  /** The size field: eight-byte units above the first 512 bytes, in unsigned arithmetic. */
  function SizeOf(romLen: bv32): bv32 { (romLen - 0x200) >> 3 }

  /** The size bits spread over three bytes of seven. */
  function Spread(size: bv32): bv32 {
    ((size & 0x3F80) << 1) | ((size & 0x4000) << 2) | (size & 0x7F) | 0x38_0000
  }

  /** The checksum of the spread bytes goes to the top; the top bit of every byte is set. */
  function Marked(spread: bv32): bv32 { Mark(SumOf(spread), spread) }

  function SumOf(spread: bv32): bv32 { Add3(Down8(spread), Down16(spread), spread) }

  function Add3(x: bv32, y: bv32, z: bv32): bv32 { Add(Add(x, y), z) }
  function Add(x: bv32, y: bv32): bv32 { x + y }
  function Down8(x: bv32): bv32 { x >> 8 }
  function Down16(x: bv32): bv32 { x >> 16 }

  function Mark(sum: bv32, spread: bv32): bv32 { (sum << 24) | spread | 0x8080_8080 }

  function CalculateKey(romLen: bv32): bv32 {
    var m := Marked(Spread(SizeOf(romLen)));
    if m & 0x200 == 0 then m ^ KAWA else m ^ SEDO
  }

  /** The length a key stands for if it was made with the given magic. */
  function LengthUnder(key: bv32, magic: bv32): bv32 {
    var u := key ^ magic;
    (((u & 0x7F) | (((u >> 8) & 0x7F) << 7) | (((u >> 16) & 1) << 14)) << 3) + 0x200
  }

  /** The length whose key this is, trying one magic and then the other. */
  function Reversed(key: bv32): Length {
    if CalculateKey(LengthUnder(key, KAWA)) == key then Known(LengthUnder(key, KAWA))
    else if CalculateKey(LengthUnder(key, SEDO)) == key then Known(LengthUnder(key, SEDO))
    else Unknown
  }

  method ReverseKey(key: bv32) returns (r: Length)
    ensures r == Reversed(key)
  {
    hide CalculateKey, LengthUnder;
    for i := 0 to 2
      invariant i > 0 ==> CalculateKey(LengthUnder(key, KAWA)) != key
      invariant i > 1 ==> CalculateKey(LengthUnder(key, SEDO)) != key
    {
      var magic := if i == 0 then KAWA else SEDO;
      var romLen := LengthUnder(key, magic);
      if CalculateKey(romLen) == key { return Known(romLen); }
    }
    r := Unknown;
  }

  /** Lengths the key can carry: whole units from 512 bytes up, at most 15 bits of them. */
  predicate Carried(romLen: bv32) { romLen >= 0x200 && romLen & 7 == 0 && SizeOf(romLen) <= 0x7FFF }

  lemma RecoversLow(size: bv32)
    requires size <= 0x7FFF
    ensures var u := Marked(Spread(size)); (u & 0x7F) | (((u >> 8) & 0x7F) << 7) | (((u >> 16) & 1) << 14) == size
  {
    var s := Spread(size);
    RawLow(size, ((s >> 8) + (s >> 16)) + s);
  }

  lemma RawLow(size: bv32, sum: bv32)
    requires size <= 0x7FFF
    ensures var s := ((size & 0x3F80) << 1) | ((size & 0x4000) << 2) | (size & 0x7F) | 0x38_0000;
            var u := (sum << 24) | s | 0x8080_8080;
            (u & 0x7F) | (((u >> 8) & 0x7F) << 7) | (((u >> 16) & 1) << 14) == size
  {
  }

  lemma RawBack(romLen: bv32)
    requires romLen >= 0x200 && romLen & 7 == 0
    ensures (((romLen - 0x200) >> 3) << 3) + 0x200 == romLen
  {
  }

  lemma RawXor(m: bv32, magic: bv32)
    ensures (m ^ magic) ^ magic == m
  {
  }

  /** Under the magic it was made with, a key gives its length back. */
  lemma RightMagic(romLen: bv32)
    requires Carried(romLen)
    ensures var m := Marked(Spread(SizeOf(romLen)));
            LengthUnder(CalculateKey(romLen), if m & 0x200 == 0 then KAWA else SEDO) == romLen
  {
    var size := SizeOf(romLen);
    var m := Marked(Spread(size));
    RecoversLow(size);
    RawBack(romLen);
    RawXor(m, KAWA);
    RawXor(m, SEDO);
    hide Marked, Spread;
  }

  lemma RawCarried(u: bv32)
    ensures var n := (((u & 0x7F) | (((u >> 8) & 0x7F) << 7) | (((u >> 16) & 1) << 14)) << 3) + 0x200;
            n >= 0x200 && n & 7 == 0 && (n - 0x200) >> 3 <= 0x7FFF
  {
  }

  /** Whatever the key, the inverse only ever tries lengths a key can carry. */
  lemma TriesCarried(key: bv32, magic: bv32)
    ensures Carried(LengthUnder(key, magic))
  {
    RawCarried(key ^ magic);
  }

  lemma RawBit9(m: bv32)
    ensures (m ^ 0x6177_614b) & 0x200 == m & 0x200 && (m ^ 0x6f64_6573) & 0x200 == m & 0x200
  {
  }

  /** Bit 9 of a key tells which magic made it. */
  lemma Bit9(romLen: bv32)
    ensures CalculateKey(romLen) & 0x200 == Marked(Spread(SizeOf(romLen))) & 0x200
  {
    RawBit9(Marked(Spread(SizeOf(romLen))));
    hide Marked, Spread;
  }

  /** No two lengths share a key, across both magics. */
  lemma KeysAreDistinct(a: bv32, b: bv32)
    requires Carried(a) && Carried(b) && CalculateKey(a) == CalculateKey(b)
    ensures a == b
  {
    Bit9(a);
    Bit9(b);
    RightMagic(a);
    RightMagic(b);
    hide CalculateKey, LengthUnder, Marked, Spread;
  }

  /** The inverse recovers a length from its key exactly when the key can carry it. */
  lemma ReverseRecoversIffCarried(romLen: bv32)
    ensures Reversed(CalculateKey(romLen)) == Known(romLen) <==> Carried(romLen)
  {
    var key := CalculateKey(romLen);
    TriesCarried(key, KAWA);
    TriesCarried(key, SEDO);
    if Carried(romLen) {
      RightMagic(romLen);
      hide CalculateKey, LengthUnder, Marked, Spread, Carried;
      if CalculateKey(LengthUnder(key, KAWA)) == key {
        KeysAreDistinct(LengthUnder(key, KAWA), romLen);
      }
    }
  }

  lemma RawSpread(size: bv32)
    requires size <= 0x7FFF
    ensures var s := ((size & 0x3F80) << 1) | ((size & 0x4000) << 2) | (size & 0x7F) | 0x38_0000;
            s == (size & 0x7F) | (((size >> 7) & 0x7F) << 8) | ((((size >> 14) & 1) | 0x38) << 16)
  {
  }

  lemma RawParts(size: bv32)
    ensures Seven(Part0(size)) && Seven(Part1(size)) && Seven(Part2(size))
  {
  }

  function Glue(b0: bv32, b1: bv32, b2: bv32): bv32 { b0 | (b1 << 8) | (b2 << 16) }

  /** The four bytes of a word, lowest first. */
  predicate BytesAre(u: bv32, b0: bv32, b1: bv32, b2: bv32, b3: bv32) {
    u & 0xFF == b0 && (u >> 8) & 0xFF == b1 && (u >> 16) & 0xFF == b2 && u >> 24 == b3
  }

  predicate Seven(b: bv32) { b <= 0x7F }

  function WithTop(b: bv32): bv32 { b | 0x80 }
  function LowByte(b: bv32): bv32 { b & 0xFF }

  lemma MarkedBytesOf(b0: bv32, b1: bv32, b2: bv32, sum: bv32)
    requires Seven(b0) && Seven(b1) && Seven(b2)
    ensures BytesAre(Mark(sum, Glue(b0, b1, b2)), WithTop(b0), WithTop(b1), WithTop(b2), WithTop(LowByte(sum)))
  {
    RawMarkedLow(b0, b1, b2, sum);
    RawMarkedTop(b0, b1, b2, sum);
    hide Mark, Glue, WithTop, LowByte, Seven;
  }

  lemma RawMarkedLow(b0: bv32, b1: bv32, b2: bv32, sum: bv32)
    requires Seven(b0) && Seven(b1) && Seven(b2)
    ensures var u := Mark(sum, Glue(b0, b1, b2));
            u & 0xFF == WithTop(b0) && (u >> 8) & 0xFF == WithTop(b1) && (u >> 16) & 0xFF == WithTop(b2)
  {
  }

  lemma RawMarkedTop(b0: bv32, b1: bv32, b2: bv32, sum: bv32)
    requires Seven(b0) && Seven(b1) && Seven(b2)
    ensures Mark(sum, Glue(b0, b1, b2)) >> 24 == WithTop(LowByte(sum))
  {
  }

  lemma RawGlue(b0: bv32, b1: bv32, b2: bv32)
    requires Seven(b0) && Seven(b1) && Seven(b2)
    ensures var s := Glue(b0, b1, b2); LowByte(s) == b0 && LowByte(Down8(s)) == b1 && LowByte(Down16(s)) == b2
  {
  }

  lemma RawSum(b0: bv32, b1: bv32, b2: bv32)
    requires Seven(b0) && Seven(b1) && Seven(b2)
    ensures LowByte(SumOf(Glue(b0, b1, b2))) == LowByte(Add3(b1, b2, b0))
  {
    var s := Glue(b0, b1, b2);
    hide Glue, Seven, LowByte, Add3, Down8, Down16;
    RawGlue(b0, b1, b2);
    LowSum(Down8(s), Down16(s), s);
  }

  lemma LowSum(x: bv32, y: bv32, z: bv32)
    ensures LowByte(Add3(x, y, z)) == LowByte(Add3(LowByte(x), LowByte(y), LowByte(z)))
  {
    RawLowAdd(x, y);
    RawLowAdd(Add(x, y), z);
    RawLowAdd(Add(LowByte(x), LowByte(y)), LowByte(z));
    RawTwice(z);
    hide Add, LowByte;
  }

  lemma RawLowAdd(x: bv32, y: bv32)
    ensures LowByte(Add(x, y)) == LowByte(Add(LowByte(x), LowByte(y)))
  {
  }

  lemma RawTwice(x: bv32)
    ensures LowByte(LowByte(x)) == LowByte(x)
  {
  }

  /** The size's low seven bits, the next seven, and its top bit under 0x38. */
  function Part0(size: bv32): bv32 { size & 0x7F }
  function Part1(size: bv32): bv32 { (size >> 7) & 0x7F }
  function Part2(size: bv32): bv32 { ((size >> 14) & 1) | 0x38 }

  /**
   The bytes of a key under its magic: the three parts of the size, each with bit 7 set, and on
   top, with bit 7 set, their sum.
   */
  lemma KeyBytes(romLen: bv32)
    requires Carried(romLen)
    ensures var size := (romLen - 0x200) >> 3; var b0, b1, b2 := Part0(size), Part1(size), Part2(size);
            BytesAre(Unmasked(romLen), WithTop(b0), WithTop(b1), WithTop(b2), WithTop(LowByte(Add3(b1, b2, b0))))
  {
    assert SizeOf(romLen) <= 0x7FFF;
    hide Marked, Spread, Unmasked, WithTop, LowByte, Add3, BytesAre, Part0, Part1, Part2;
    UnmaskedIs(romLen);
    MarkedBytes(SizeOf(romLen));
  }

  lemma MarkedBytes(size: bv32)
    requires size <= 0x7FFF
    ensures var b0, b1, b2 := Part0(size), Part1(size), Part2(size);
            BytesAre(Marked(Spread(size)), WithTop(b0), WithTop(b1), WithTop(b2), WithTop(LowByte(Add3(b1, b2, b0))))
  {
    hide Spread, Glue, WithTop, LowByte, Add3, BytesAre, SumOf, Mark, Seven, Part0, Part1, Part2;
    var b0, b1, b2 := Part0(size), Part1(size), Part2(size);
    SpreadIsGlue(size);
    RawParts(size);
    MarkedBytesOf(b0, b1, b2, SumOf(Spread(size)));
    RawSum(b0, b1, b2);
  }

  lemma SpreadIsGlue(size: bv32)
    requires size <= 0x7FFF
    ensures Spread(size) == Glue(Part0(size), Part1(size), Part2(size))
  {
    RawSpread(size);
  }

  /** A key without the magic its bit 9 names: 0x6177614b if it is clear, 0x6f646573 if it is set. */
  function Unmasked(romLen: bv32): bv32 {
    var key := CalculateKey(romLen);
    if key & 0x200 == 0 then key ^ 0x6177_614b else key ^ 0x6f64_6573
  }

  lemma UnmaskedIs(romLen: bv32)
    ensures Unmasked(romLen) == Marked(Spread(SizeOf(romLen)))
  {
    var m := Marked(Spread(SizeOf(romLen)));
    Bit9(romLen);
    RawXor(m, KAWA);
    RawXor(m, SEDO);
    hide Marked, Spread, SizeOf;
  }

  /** The length a key can carry that shares the key of any given length. */
  function Carryable(romLen: bv32): bv32 { ((SizeOf(romLen) & 0x7FFF) << 3) + 0x200 }

  lemma RawMask(size: bv32)
    ensures size & 0x7FFF <= 0x7FFF
  {
  }

  lemma UnitsCarried(size: bv32)
    requires size <= 0x7FFF
    ensures Carried((size << 3) + 0x200) && SizeOf((size << 3) + 0x200) == size
  {
  }

  lemma RawSpreadLow(size: bv32)
    ensures Spread(size & 0x7FFF) == Spread(size)
  {
  }

  lemma CarryableSharesKey(romLen: bv32)
    ensures Carried(Carryable(romLen)) && CalculateKey(Carryable(romLen)) == CalculateKey(romLen)
  {
    SizeOfCarryable(romLen);
    RawSpreadLow(SizeOf(romLen));
    hide *;
    KeyOfSpread(Carryable(romLen), romLen);
  }

  lemma SizeOfCarryable(romLen: bv32)
    ensures Carried(Carryable(romLen)) && SizeOf(Carryable(romLen)) == SizeOf(romLen) & 0x7FFF
  {
    RawMask(SizeOf(romLen));
    hide SizeOf, Carried;
    UnitsCarried(SizeOf(romLen) & 0x7FFF);
  }

  lemma KeyOfSpread(a: bv32, b: bv32)
    requires Spread(SizeOf(a)) == Spread(SizeOf(b))
    ensures CalculateKey(a) == CalculateKey(b)
  {
    hide Marked, Spread, SizeOf;
  }

  /** For every key: the inverse gives a length that has it, and gives none if and only if no length at all has it. */
  lemma UnknownIffNoKey(key: bv32)
    ensures Reversed(key).Known? ==> CalculateKey(Reversed(key).bytes) == key
    ensures Reversed(key) == Unknown <==> forall romLen :: CalculateKey(romLen) != key
  {
    hide CalculateKey, LengthUnder, Carryable, Carried;
    if romLen :| CalculateKey(romLen) == key {
      CarryableSharesKey(romLen);
      ReverseRecoversIffCarried(Carryable(romLen));
    }
  }

  /** Two keys worked out, one under each magic. */
  lemma KnownKeys()
    ensures CalculateKey(0x12348) == 0xc8cfa9e2 && CalculateKey(0x4000) == 0xe8dceab3
  {
  }
}
