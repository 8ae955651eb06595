/** Bytes, little-endian words and stores into an address space, shared by every component. */
module Bytes {
  type byte = b: int | 0 <= b < 0x100
  type word = w: int | 0 <= w < 0x1_0000_0000

  /** The all-ones address that marks an entry as unused: no flash or cacheable word is there. */
  const NO_ADDR := 0xFFFF_FFFF

  /** An address space: the bytes that have been written, by address. */
  type Memory = map<int, byte>

  function ByteAt(m: Memory, a: int): byte { if a in m then m[a] else 0 }

  function Zeros(n: nat): (r: seq<byte>)
    ensures |r| == n
  {
    seq<byte>(n, _ => 0)
  }

  /** The little-endian 32-bit word made of four bytes, lowest first. */
  function Word(b0: byte, b1: byte, b2: byte, b3: byte): word {
    b0 + 0x100 * b1 + 0x1_0000 * b2 + 0x100_0000 * b3
  }

  function LoadWord(m: Memory, a: int): word {
    Word(ByteAt(m, a), ByteAt(m, a + 1), ByteAt(m, a + 2), ByteAt(m, a + 3))
  }

  /** The four bytes of a word, lowest first. */
  function LanesOf(w: word): (r: seq<byte>)
    ensures |r| == 4
  {
    [w % 0x100, w / 0x100 % 0x100, w / 0x1_0000 % 0x100, w / 0x100_0000]
  }

  lemma LanesOfWord(b0: byte, b1: byte, b2: byte, b3: byte)
    ensures LanesOf(Word(b0, b1, b2, b3)) == [b0, b1, b2, b3]
  {
    var w := Word(b0, b1, b2, b3);
    assert w / 0x100 == b1 + 0x100 * b2 + 0x1_0000 * b3;
    assert w / 0x1_0000 == b2 + 0x100 * b3;
  }

  lemma WordOfLanes(w: word)
    ensures var l := LanesOf(w); Word(l[0], l[1], l[2], l[3]) == w
  {
    var h := w / 0x100;
    assert w == w % 0x100 + 0x100 * h;
    assert h == h % 0x100 + 0x100 * (h / 0x100) && h / 0x100 == w / 0x1_0000;
    assert w / 0x1_0000 == w / 0x1_0000 % 0x100 + 0x100 * (w / 0x100_0000);
  }

  /** The word at index i of a byte string. */
  function WordAt(s: seq<byte>, i: int): word
    requires 0 <= i && i + 4 <= |s|
  {
    Word(s[i], s[i + 1], s[i + 2], s[i + 3])
  }

  /** A word packed into a byte string reads back. */
  lemma PackedReadsBack(w: word, s: seq<byte>, i: int)
    requires 0 <= i && i + 4 <= |s| && s[i..i + 4] == LanesOf(w)
    ensures WordAt(s, i) == w
  {
    WordOfLanes(w);
    var l := s[i..i + 4];
    assert l[0] == s[i] && l[1] == s[i + 1] && l[2] == s[i + 2] && l[3] == s[i + 3];
  }

  predicate Between(lo: int, a: int, hi: int) { lo <= a < hi }

  /** The address space after `bytes` are copied to `addr`. */
  function Store(m: Memory, addr: int, bytes: seq<byte>): Memory {
    m + map a {:trigger Between(addr, a, addr + |bytes|)} | addr <= a < addr + |bytes| && Between(addr, a, addr + |bytes|) :: bytes[a - addr]
  }

  /** Whether two address spaces hold the same thing at a. */
  predicate SameAt(m: Memory, m': Memory, a: int) {
    (a in m <==> a in m') && (a in m ==> m[a] == m'[a])
  }

  /** Nothing outside [lo, hi) differs. */
  ghost predicate OnlyWithin(m: Memory, m': Memory, lo: int, hi: int) {
    forall a :: a < lo || hi <= a ==> SameAt(m, m', a)
  }

  lemma StoreThenStore(m: Memory, addr: int, x: seq<byte>, y: seq<byte>)
    ensures Store(Store(m, addr, x), addr + |x|, y) == Store(m, addr, x + y)
  {
  }

  /** Storing again what is already there changes nothing. */
  lemma StoreAgain(m: Memory, addr: int, x: seq<byte>, n: nat)
    requires n <= |x|
    ensures Store(Store(m, addr, x), addr, x[..n]) == Store(m, addr, x)
  {
  }

  lemma StoreStays(m: Memory, addr: int, bytes: seq<byte>)
    ensures OnlyWithin(m, Store(m, addr, bytes), addr, addr + |bytes|)
  {
  }

  lemma OnlyWithinSelf(m: Memory, lo: int, hi: int)
    ensures OnlyWithin(m, m, lo, hi)
  {
  }

  lemma OnlyWithinTrans(m0: Memory, m1: Memory, m2: Memory, lo1: int, hi1: int, lo2: int, hi2: int, lo: int, hi: int)
    requires OnlyWithin(m0, m1, lo1, hi1) && OnlyWithin(m1, m2, lo2, hi2)
    requires lo <= lo1 && lo <= lo2 && hi1 <= hi && hi2 <= hi
    ensures OnlyWithin(m0, m2, lo, hi)
  {
    forall a | a < lo || hi <= a ensures SameAt(m0, m2, a) {
      assert SameAt(m0, m1, a) && SameAt(m1, m2, a);
    }
  }

  /** Storing the next k bytes of a string right behind its first i extends the copy. */
  lemma StoreMore(m: Memory, addr: int, s: seq<byte>, i: nat, k: nat)
    requires i + k <= |s|
    ensures Store(Store(m, addr, s[..i]), addr + i, s[i..i + k]) == Store(m, addr, s[..i + k])
  {
    hide Store;
    StoreThenStore(m, addr, s[..i], s[i..i + k]);
    assert s[..i] + s[i..i + k] == s[..i + k];
  }
}
