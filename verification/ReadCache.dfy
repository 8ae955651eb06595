/**
 The four-word read cache on values, and what every run of reads, writes and invalidations gets
 from it although no write updates it.
 */
module ReadCache {
  import opened Bytes

  const CACHEABLE_END := 0x3000_0000
  const CACHE_SIZE := 4

  datatype CacheLine = CacheLine(addr: int, value: word)

  /** The lines, the one replaced next, and whether any of them may be used. */
  datatype Cache = Cache(lines: seq<CacheLine>, pos: int, valid: bool)

  predicate Shaped(c: Cache) { |c.lines| == CACHE_SIZE && 0 <= c.pos < CACHE_SIZE }

  /** The first line from i on that holds addr, or the number of lines. */
  function FirstLine(lines: seq<CacheLine>, addr: int, i: nat): (r: nat)
    requires i <= |lines|
    ensures i <= r <= |lines| && (r < |lines| ==> lines[r].addr == addr)
    ensures forall k :: i <= k < r ==> lines[k].addr != addr
    decreases |lines| - i
  {
    if i == |lines| || lines[i].addr == addr then i else FirstLine(lines, addr, i + 1)
  }

  /** addr is served from the cache. */
  predicate Hit(c: Cache, addr: int) {
    addr < CACHEABLE_END && c.valid && FirstLine(c.lines, addr, 0) < |c.lines|
  }

  /** The word it is served: the first matching line's. */
  function Held(c: Cache, addr: int): word
    requires Hit(c, addr)
  {
    c.lines[FirstLine(c.lines, addr, 0)].value
  }

  function Emptied(lines: seq<CacheLine>): seq<CacheLine> {
    seq(|lines|, i requires 0 <= i < |lines| => CacheLine(NO_ADDR, lines[i].value))
  }

  /** A word read replaces the oldest line; after an invalidation all the lines are emptied first. */
  function Added(c: Cache, addr: int, v: word): (r: Cache)
    requires Shaped(c)
    ensures Shaped(r)
  {
    if addr >= CACHEABLE_END then c
    else
      var lines, pos := if c.valid then c.lines else Emptied(c.lines), if c.valid then c.pos else 0;
      Cache(lines[pos := CacheLine(addr, v)], if pos + 1 == CACHE_SIZE then 0 else pos + 1, true)
  }

  // ---------------------------------------------------------------------------
  // Every run
  // ---------------------------------------------------------------------------

  /** Memory becomes anything at all, a word is read, or the cache is invalidated. */
  datatype Use = Puts(mem: Memory) | Gets(addr: int) | Forgets

  datatype View = View(cache: Cache, mem: Memory)

  /** What a read is answered. */
  function Answer(s: View, addr: int): word {
    if Hit(s.cache, addr) then Held(s.cache, addr) else LoadWord(s.mem, addr)
  }

  function Used(s: View, op: Use): (t: View)
    requires Shaped(s.cache)
    ensures Shaped(t.cache)
  {
    match op
    case Puts(mem) => s.(mem := mem)
    case Gets(addr) =>
      if Hit(s.cache, addr) then s else s.(cache := Added(s.cache, addr, LoadWord(s.mem, addr)))
    case Forgets => s.(cache := s.cache.(valid := false))
  }

  function UseAll(s: View, ops: seq<Use>): (t: View)
    requires Shaped(s.cache)
    ensures Shaped(t.cache)
  {
    if ops == [] then s else Used(UseAll(s, ops[..|ops| - 1]), ops[|ops| - 1])
  }

  /** The word in memory when addr was last read from it. */
  function LastFetched(s: View, ops: seq<Use>, addr: int): word
    requires Shaped(s.cache)
  {
    if ops == [] then LoadWord(s.mem, addr)
    else
      var before := UseAll(s, ops[..|ops| - 1]);
      if ops[|ops| - 1] == Gets(addr) && !Hit(before.cache, addr) then LoadWord(before.mem, addr)
      else LastFetched(s, ops[..|ops| - 1], addr)
  }

  predicate HoldsFetched(s: View, ops: seq<Use>, c: Cache)
    requires Shaped(s.cache)
  {
    c.valid ==> forall i :: 0 <= i < |c.lines| && c.lines[i].addr < CACHEABLE_END ==>
      c.lines[i].value == LastFetched(s, ops, c.lines[i].addr)
  }

  /** Every line holds the word that was in memory when its address was last read from there. */
  lemma {:induction false} LinesHoldFetched(s: View, ops: seq<Use>)
    requires Shaped(s.cache) && !s.cache.valid
    ensures HoldsFetched(s, ops, UseAll(s, ops).cache)
  {
    if ops != [] {
      var init, op := ops[..|ops| - 1], ops[|ops| - 1];
      LinesHoldFetched(s, init);
      hide LoadWord;
      UseKeeps(s, init, op);
      assert init + [op] == ops;
    }
  }

  lemma UseMore(s: View, init: seq<Use>, op: Use, addr: int)
    requires Shaped(s.cache)
    ensures var t := UseAll(s, init);
            && UseAll(s, init + [op]) == Used(t, op)
            && LastFetched(s, init + [op], addr)
               == if op == Gets(addr) && !Hit(t.cache, addr) then LoadWord(t.mem, addr) else LastFetched(s, init, addr)
  {
    hide LoadWord, Hit, Used;
    assert (init + [op])[..|init|] == init;
  }

  lemma UseKeeps(s: View, init: seq<Use>, op: Use)
    requires Shaped(s.cache) && HoldsFetched(s, init, UseAll(s, init).cache)
    ensures HoldsFetched(s, init + [op], UseAll(s, init + [op]).cache)
  {
    hide LastFetched, UseAll, Used, LoadWord, Hit;
    UseMore(s, init, op, 0);
    var c := Used(UseAll(s, init), op).cache;
    if c.valid {
      forall i | 0 <= i < |c.lines| && c.lines[i].addr < CACHEABLE_END
        ensures c.lines[i].value == LastFetched(s, init + [op], c.lines[i].addr)
      {
        LineKeeps(s, init, op, i);
      }
    }
  }

  lemma LineKeeps(s: View, init: seq<Use>, op: Use, i: nat)
    requires Shaped(s.cache) && HoldsFetched(s, init, UseAll(s, init).cache) && i < CACHE_SIZE
    requires var c := Used(UseAll(s, init), op).cache; c.valid && c.lines[i].addr < CACHEABLE_END
    ensures var line := Used(UseAll(s, init), op).cache.lines[i]; line.value == LastFetched(s, init + [op], line.addr)
  {
    hide LastFetched, UseAll, Used, LoadWord, Hit;
    var t := UseAll(s, init);
    KeptOrFetched(t, op, i);
    UseMore(s, init, op, Used(t, op).cache.lines[i].addr);
  }

  /** A line of the cache after a step was there before, of an address not read just now, or has just been read. */
  lemma KeptOrFetched(t: View, op: Use, i: nat)
    requires Shaped(t.cache) && i < CACHE_SIZE
    requires var c := Used(t, op).cache; c.valid && c.lines[i].addr < CACHEABLE_END
    ensures var line := Used(t, op).cache.lines[i];
            if op == Gets(line.addr) && !Hit(t.cache, line.addr) then line.value == LoadWord(t.mem, line.addr)
            else t.cache.valid && line == t.cache.lines[i]
  {
    hide LoadWord, FirstLine;
  }

  /**
   In every run from an invalid cache, a read is right if and only if the address is not in the
   cache or memory now holds the word it held when the address was last read from there, that is,
   nothing written since has changed it.
   */
  lemma ReadRightIffUnchanged(s: View, ops: seq<Use>, addr: int)
    requires Shaped(s.cache) && !s.cache.valid
    ensures var t := UseAll(s, ops);
            && (Hit(t.cache, addr) ==> Answer(t, addr) == LastFetched(s, ops, addr))
            && (Answer(t, addr) == LoadWord(t.mem, addr) <==>
                !Hit(t.cache, addr) || LastFetched(s, ops, addr) == LoadWord(t.mem, addr))
  {
    hide LoadWord;
    LinesHoldFetched(s, ops);
  }

  // ---------------------------------------------------------------------------
  // What the cache holds
  // ---------------------------------------------------------------------------

  function LastFour(s: seq<int>): seq<int> { if |s| <= 4 then s else s[|s| - 4..] }

  /**
   The addresses read from memory since the latest invalidation: those below 0x3000_0000 that
   were not among the four latest ones.
   */
  function Fetched(ops: seq<Use>): seq<int> {
    if ops == [] then []
    else
      var before := Fetched(ops[..|ops| - 1]);
      match ops[|ops| - 1]
      case Puts(_) => before
      case Gets(addr) => if addr < 0x3000_0000 && addr !in LastFour(before) then before + [addr] else before
      case Forgets => []
  }

  /** The lines are a ring that holds the latest four of these addresses. */
  predicate RingOf(c: Cache, m: seq<int>)
    requires Shaped(c)
  {
    && (forall k :: 0 <= k < |m| ==> m[k] < 0x3000_0000)
    && (c.valid <==> m != [])
    && (c.valid ==> c.pos == |m| % 4)
    && (c.valid ==> forall i :: 0 <= i < 4 ==>
          if i < |m| then c.lines[i].addr == m[Latest(|m|, i)] else c.lines[i].addr == NO_ADDR)
  }

  /** The latest of the numbers below n that leave i as their remainder by 4. */
  function Latest(n: nat, i: nat): (k: nat)
    requires i < n && i < 4
    ensures k < n && n - 4 <= k && k % 4 == i
  {
    i + 4 * ((n - 1 - i) / 4)
  }

  lemma NextLatest(n: nat, i: nat)
    requires i < n + 1 && i < 4
    ensures i == n % 4 ==> Latest(n + 1, i) == n
    ensures i != n % 4 ==> i < n && Latest(n + 1, i) == Latest(n, i)
  {
  }

  lemma RingHolds(c: Cache, m: seq<int>, addr: int)
    requires Shaped(c) && RingOf(c, m) && c.valid
    ensures addr < 0x3000_0000 ==> (FirstLine(c.lines, addr, 0) < |c.lines| <==> addr in LastFour(m))
  {
    hide FirstLine, Latest;
    if addr < 0x3000_0000 {
      var r, last := FirstLine(c.lines, addr, 0), LastFour(m);
      if r < |c.lines| {
        assert r < |m|;
        assert last[Latest(|m|, r) - (|m| - |last|)] == addr;
      }
      if addr in last {
        var k :| 0 <= k < |last| && last[k] == addr;
        var at := |m| - |last| + k;
        assert m[at] == addr && Latest(|m|, at % 4) == at by { LatestIs(|m|, at); }
        assert c.lines[at % 4].addr == addr;
      }
    }
  }

  lemma LatestIs(n: nat, k: nat)
    requires k < n && n - 4 <= k
    ensures k % 4 < n && Latest(n, k % 4) == k
  {
  }

  lemma RingMore(c: Cache, m: seq<int>, addr: int, v: word)
    requires Shaped(c) && RingOf(c, m) && addr < 0x3000_0000
    ensures RingOf(Added(c, addr, v), m + [addr])
  {
    hide Latest;
    var d, n := Added(c, addr, v), |m|;
    assert c.valid ==> c.pos == n % 4;
    forall i | 0 <= i < 4
      ensures if i < n + 1 then d.lines[i].addr == (m + [addr])[Latest(n + 1, i)] else d.lines[i].addr == NO_ADDR
    {
      if i < n + 1 {
        NextLatest(n, i);
      }
    }
  }

  lemma {:induction false} RingInRun(s: View, ops: seq<Use>)
    requires Shaped(s.cache) && !s.cache.valid
    ensures RingOf(UseAll(s, ops).cache, Fetched(ops))
  {
    if ops != [] {
      var init, op := ops[..|ops| - 1], ops[|ops| - 1];
      RingInRun(s, init);
      hide RingOf, LoadWord, Added, LastFour, FirstLine;
      var t := UseAll(s, init);
      if op.Forgets? {
        RingNothing(t.cache.(valid := false));
      } else if op.Gets? {
        RingValid(t.cache, Fetched(init));
        if t.cache.valid {
          RingHolds(t.cache, Fetched(init), op.addr);
        }
        if op.addr < 0x3000_0000 {
          RingMore(t.cache, Fetched(init), op.addr, LoadWord(t.mem, op.addr));
        } else {
          NotAdded(t.cache, op.addr, LoadWord(t.mem, op.addr));
        }
      }
    }
  }

  lemma RingNothing(c: Cache)
    requires Shaped(c) && !c.valid
    ensures RingOf(c, [])
  {
  }

  lemma RingValid(c: Cache, m: seq<int>)
    requires Shaped(c) && RingOf(c, m)
    ensures c.valid <==> m != []
    ensures m == [] ==> LastFour(m) == []
  {
  }

  lemma NotAdded(c: Cache, addr: int, v: word)
    requires Shaped(c) && addr >= 0x3000_0000
    ensures Added(c, addr, v) == c
  {
  }

  /**
   In every run from an invalid cache, an address is served from the cache if and only if it is
   below 0x3000_0000 and one of the four latest that were read from memory since the latest
   invalidation.
   */
  lemma HitIffAmongLastFour(s: View, ops: seq<Use>, addr: int)
    requires Shaped(s.cache) && !s.cache.valid
    ensures Hit(UseAll(s, ops).cache, addr) <==> addr < 0x3000_0000 && addr in LastFour(Fetched(ops))
  {
    RingInRun(s, ops);
    hide RingOf, LastFour, Fetched, FirstLine, UseAll;
    var c, m := UseAll(s, ops).cache, Fetched(ops);
    RingValid(c, m);
    if c.valid {
      RingHolds(c, m, addr);
    }
  }
}
