/**
 The Ogg parser of the audio encoder: packets laced into pages (RFC 3533, sections 5 and 6)
 come back exactly, wherever the page breaks fall.
 */
module Ogg {
  import opened Common
  import opened Bytes

  const HEADER := 27
  const FULL := 255

  type Packet = seq<byte>

  datatype Result = Parsed(packets: seq<Packet>) | Failed

  /** Packets finished so far and the bytes of the one still open. */
  datatype Assembly = Assembly(packets: seq<Packet>, pending: Packet)

  function Capture(): seq<byte> { [0x4F, 0x67, 0x67, 0x53] }

  // ---------------------------------------------------------------------------
  // The parser
  // ---------------------------------------------------------------------------

  /** A slice that stops at the end of the data. */
  function Clipped(s: seq<byte>, i: nat, j: nat): (r: seq<byte>)
    ensures |r| <= |s|
  {
    if i >= |s| || j <= i then [] else s[i..Min(j, |s|)]
  }

  function WithSegment(a: Assembly, segment: seq<byte>, lace: byte): Assembly {
    if lace < FULL then Assembly(a.packets + [a.pending + segment], []) else a.(pending := a.pending + segment)
  }

  /** The segments a lacing list announces, read from body on. */
  function ReadLaces(data: seq<byte>, lacing: seq<byte>, body: nat, a: Assembly): Assembly {
    if lacing == [] then a
    else ReadLaces(data, lacing[1..], body + lacing[0], WithSegment(a, Clipped(data, body, body + lacing[0]), lacing[0]))
  }

  function Sum(lacing: seq<byte>): nat { if lacing == [] then 0 else lacing[0] + Sum(lacing[1..]) }

  function ReadPages(data: seq<byte>, pos: nat, a: Assembly): Result
    decreases |data| - pos
  {
    if pos >= |data| then Parsed(a.packets)
    else if Clipped(data, pos, pos + 4) != Capture() then Failed
    else if pos + 26 >= |data| then Failed
    else
      var lacing := Clipped(data, pos + HEADER, pos + HEADER + data[pos + 26]);
      var body := pos + HEADER + data[pos + 26];
      ReadPages(data, body + Sum(lacing), ReadLaces(data, lacing, body, a))
  }

  /** Data that does not begin with "OggS", or that is too short for a page's header, is no parse at all. */
  lemma NoPageFails(data: seq<byte>)
    requires data != [] && (|data| < 27 || data[..4] != [0x4F, 0x67, 0x67, 0x53])
    ensures ReadPages(data, 0, Assembly([], [])) == Failed
  {
    if |data| >= 4 {
      assert Clipped(data, 0, 4) == data[..4];
    } else {
      assert |Clipped(data, 0, 4)| < 4;
    }
  }

  lemma SumMore(lacing: seq<byte>, i: nat)
    requires i < |lacing|
    ensures lacing[i..][0] == lacing[i] && lacing[i..][1..] == lacing[i + 1..]
    ensures Sum(lacing[i..]) == lacing[i] + Sum(lacing[i + 1..])
  {
  }

  method ParsePackets(data: seq<byte>) returns (r: Result)
    ensures r == ReadPages(data, 0, Assembly([], []))
  {
    hide Clipped, WithSegment;
    var packets: seq<Packet> := [];
    var pending: Packet := [];
    var pos := 0;
    while pos < |data|
      invariant 0 <= pos
      invariant ReadPages(data, 0, Assembly([], [])) == ReadPages(data, pos, Assembly(packets, pending))
      decreases |data| - pos
    {
      if Clipped(data, pos, pos + 4) != Capture() || pos + 26 >= |data| { return Failed; }
      var segCount := data[pos + 26];
      var lacing := Clipped(data, pos + HEADER, pos + HEADER + segCount);
      var body := pos + HEADER + segCount;
      packets, pending, body := TakeSegments(data, lacing, body, packets, pending);
      pos := body;
    }
    r := Parsed(packets);
  }

  method TakeSegments(data: seq<byte>, lacing: seq<byte>, start: nat, packets0: seq<Packet>, pending0: Packet)
    returns (packets: seq<Packet>, pending: Packet, body: nat)
    ensures Assembly(packets, pending) == ReadLaces(data, lacing, start, Assembly(packets0, pending0))
    ensures body == start + Sum(lacing)
  {
    hide Clipped;
    packets, pending, body := packets0, pending0, start;
    assert lacing[0..] == lacing;
    for i := 0 to |lacing|
      invariant ReadLaces(data, lacing[i..], body, Assembly(packets, pending))
             == ReadLaces(data, lacing, start, Assembly(packets0, pending0))
      invariant body + Sum(lacing[i..]) == start + Sum(lacing)
    {
      SumMore(lacing, i);
      var lace := lacing[i];
      pending := pending + Clipped(data, body, body + lace);
      body := body + lace;
      if lace < FULL {
        packets := packets + [pending];
        pending := [];
      }
    }
  }

  // ---------------------------------------------------------------------------
  // The format
  // ---------------------------------------------------------------------------

  /** A page: its fixed header up to the segment count, and at most 255 segments of at most 255 bytes. */
  datatype Page = Page(head: seq<byte>, segments: seq<seq<byte>>)

  predicate WellFormed(p: Page) {
    && |p.head| == 26 && p.head[..4] == [0x4F, 0x67, 0x67, 0x53] && |p.segments| <= 255
    && forall i :: 0 <= i < |p.segments| ==> |p.segments[i]| <= 255
  }

  predicate AllWellFormed(pages: seq<Page>) { forall i :: 0 <= i < |pages| ==> WellFormed(pages[i]) }

  predicate Segments(ss: seq<seq<byte>>) { forall i :: 0 <= i < |ss| ==> |ss[i]| <= FULL }

  function Joined(ss: seq<seq<byte>>): seq<byte> { if ss == [] then [] else ss[0] + Joined(ss[1..]) }

  function Laces(ss: seq<seq<byte>>): (r: seq<byte>)
    requires Segments(ss)
    ensures |r| == |ss|
  {
    if ss == [] then [] else [|ss[0]|] + Laces(ss[1..])
  }

  function PageBytes(p: Page): seq<byte>
    requires WellFormed(p)
  {
    assert Segments(p.segments);
    p.head + [|p.segments|] + Laces(p.segments) + Joined(p.segments)
  }

  function FileBytes(pages: seq<Page>): seq<byte>
    requires AllWellFormed(pages)
  {
    if pages == [] then [] else PageBytes(pages[0]) + FileBytes(pages[1..])
  }

  function AllSegments(pages: seq<Page>): seq<seq<byte>> {
    if pages == [] then [] else pages[0].segments + AllSegments(pages[1..])
  }

  /** A packet's segments: full ones, then a last one that is shorter, empty for a multiple of 255. */
  function Laced(p: Packet): (r: seq<seq<byte>>)
    ensures Segments(r)
    decreases |p|
  {
    if |p| < FULL then [p] else [p[..FULL]] + Laced(p[FULL..])
  }

  function LacedAll(packets: seq<Packet>): (r: seq<seq<byte>>)
    ensures Segments(r)
  {
    if packets == [] then [] else Laced(packets[0]) + LacedAll(packets[1..])
  }

  /** What a list of segments says, wherever the pages break: a short segment ends a packet. */
  function Assembled(a: Assembly, ss: seq<seq<byte>>): Assembly
    decreases |ss|
  {
    if ss == [] then a
    else Assembled(if |ss[0]| < FULL then Assembly(a.packets + [a.pending + ss[0]], []) else a.(pending := a.pending + ss[0]), ss[1..])
  }

  lemma {:induction false} AssembledConcat(a: Assembly, x: seq<seq<byte>>, y: seq<seq<byte>>)
    ensures Assembled(a, x + y) == Assembled(Assembled(a, x), y)
    decreases |x|
  {
    if x == [] {
      assert x + y == y;
    } else {
      assert (x + y)[1..] == x[1..] + y;
      AssembledConcat(if |x[0]| < FULL then Assembly(a.packets + [a.pending + x[0]], []) else a.(pending := a.pending + x[0]), x[1..], y);
    }
  }

  /** These bytes stand in the data from `at` on. */
  ghost predicate Stands(data: seq<byte>, at: nat, bytes: seq<byte>) {
    at + |bytes| <= |data| && data[at..at + |bytes|] == bytes
  }

  /** The parser reads a page's segments one after another. */
  lemma {:induction false} LacesGiveSegments(data: seq<byte>, ss: seq<seq<byte>>, body: nat, a: Assembly)
    requires Segments(ss) && Stands(data, body, Joined(ss))
    ensures ReadLaces(data, Laces(ss), body, a) == Assembled(a, ss) && Sum(Laces(ss)) == |Joined(ss)|
    decreases |ss|
  {
    hide Stands, Segments, Clipped;
    if ss != [] {
      FirstLace(ss);
      hide *;
      ReadFirst(data, Laces(ss), body, a);
      AssembledFirst(a, ss);
      SegmentThere(data, ss[0], Joined(ss[1..]), body);
      LacesGiveSegments(data, ss[1..], body + |ss[0]|, WithSegment(a, ss[0], |ss[0]|));
    }
  }

  lemma ReadFirst(data: seq<byte>, lacing: seq<byte>, body: nat, a: Assembly)
    requires lacing != []
    ensures ReadLaces(data, lacing, body, a)
         == ReadLaces(data, lacing[1..], body + lacing[0], WithSegment(a, Clipped(data, body, body + lacing[0]), lacing[0]))
    ensures Sum(lacing) == lacing[0] + Sum(lacing[1..])
  {
  }

  lemma AssembledFirst(a: Assembly, ss: seq<seq<byte>>)
    requires ss != [] && |ss[0]| <= FULL
    ensures Assembled(a, ss) == Assembled(WithSegment(a, ss[0], |ss[0]|), ss[1..])
  {
  }

  lemma FirstLace(ss: seq<seq<byte>>)
    requires Segments(ss) && ss != []
    ensures Segments(ss[1..]) && |ss[0]| <= FULL && Laces(ss) != []
    ensures Laces(ss)[0] == |ss[0]| && Laces(ss)[1..] == Laces(ss[1..])
    ensures Joined(ss) == ss[0] + Joined(ss[1..])
  {
    assert Segments(ss[1..]);
  }

  lemma SegmentThere(data: seq<byte>, segment: seq<byte>, rest: seq<byte>, body: nat)
    requires Stands(data, body, segment + rest)
    ensures Clipped(data, body, body + |segment|) == segment && Stands(data, body + |segment|, rest)
  {
    var bytes := segment + rest;
    assert bytes[..|segment|] == segment && bytes[|segment|..] == rest;
    SliceOfSlice(data, body, body + |segment|, body + |bytes|);
  }

  lemma SliceOfSlice(data: seq<byte>, from: nat, mid: nat, to: nat)
    requires from <= mid <= to <= |data|
    ensures data[from..to][..mid - from] == data[from..mid] && data[from..to][mid - from..] == data[mid..to]
  {
  }

  /** Where the parts of a page lie behind what came before. */
  lemma PageParts(before: seq<byte>, head: seq<byte>, count: byte, laces: seq<byte>, body: seq<byte>, after: seq<byte>)
    requires |head| == 26 && head[..4] == Capture() && |laces| == count
    ensures var data := before + (head + [count] + laces + body) + after; var pos := |before|;
            && pos + 26 < |data| && Clipped(data, pos, pos + 4) == Capture() && data[pos + 26] == count
            && Clipped(data, pos + HEADER, pos + HEADER + count) == laces
            && Stands(data, pos + HEADER + count, body)
  {
    var data := before + (head + [count] + laces + body) + after;
    var pos := |before|;
    assert data[pos..pos + 4] == head[..4];
    assert data[pos + HEADER..pos + HEADER + count] == laces;
  }

  lemma TakesPage(data: seq<byte>, pos: nat, count: byte, laces: seq<byte>, a: Assembly)
    requires pos + 26 < |data| && Clipped(data, pos, pos + 4) == Capture() && data[pos + 26] == count
    requires Clipped(data, pos + HEADER, pos + HEADER + count) == laces
    ensures ReadPages(data, pos, a)
         == ReadPages(data, pos + HEADER + count + Sum(laces), ReadLaces(data, laces, pos + HEADER + count, a))
  {
    hide Clipped, ReadLaces, Sum, Capture;
  }

  lemma TakesParts(before: seq<byte>, head: seq<byte>, ss: seq<seq<byte>>, after: seq<byte>, a: Assembly)
    requires |head| == 26 && head[..4] == Capture() && |ss| <= FULL && Segments(ss)
    ensures var page := head + [|ss|] + Laces(ss) + Joined(ss); var data := before + page + after;
            ReadPages(data, |before|, a) == ReadPages(data, |before| + |page|, Assembled(a, ss))
  {
    hide Clipped, ReadLaces, Laces, Joined, Sum, Assembled, ReadPages, Segments, Capture, Stands;
    var laces, body := Laces(ss), Joined(ss);
    var data := before + (head + [|ss|] + laces + body) + after;
    PageParts(before, head, |ss|, laces, body, after);
    LacesGiveSegments(data, ss, |before| + HEADER + |ss|, a);
    TakesPage(data, |before|, |ss|, laces, a);
  }

  /** The parser takes one page and goes on right behind it. */
  lemma OnePage(before: seq<byte>, p: Page, after: seq<byte>, a: Assembly)
    requires WellFormed(p)
    ensures var data := before + PageBytes(p) + after;
            ReadPages(data, |before|, a) == ReadPages(data, |before + PageBytes(p)|, Assembled(a, p.segments))
  {
    hide ReadPages, Assembled, Laces, Joined;
    assert Segments(p.segments);
    TakesParts(before, p.head, p.segments, after, a);
  }

  lemma FirstPage(before: seq<byte>, pages: seq<Page>)
    requires AllWellFormed(pages) && pages != []
    ensures AllWellFormed(pages[1..]) && WellFormed(pages[0])
    ensures before + FileBytes(pages) == before + PageBytes(pages[0]) + FileBytes(pages[1..])
  {
    assert AllWellFormed(pages[1..]);
    hide PageBytes;
  }

  /** Reading a file of pages assembles all their segments, and the page loop ends with the data. */
  lemma {:induction false} PagesGiveSegments(before: seq<byte>, pages: seq<Page>, a: Assembly)
    requires AllWellFormed(pages)
    ensures ReadPages(before + FileBytes(pages), |before|, a) == Parsed(Assembled(a, AllSegments(pages)).packets)
    decreases |pages|
  {
    if pages != [] {
      hide PageBytes, WellFormed, AllWellFormed, ReadPages, Assembled, FileBytes;
      var p := pages[0];
      FirstPage(before, pages);
      OnePage(before, p, FileBytes(pages[1..]), a);
      PagesGiveSegments(before + PageBytes(p), pages[1..], Assembled(a, p.segments));
      AssembledConcat(a, p.segments, AllSegments(pages[1..]));
    }
  }

  /** Laced segments assemble to the packet they came from. */
  lemma {:induction false} LacedAssembles(a: Assembly, p: Packet)
    ensures Assembled(a, Laced(p)) == Assembly(a.packets + [a.pending + p], [])
    decreases |p|
  {
    if |p| >= FULL {
      var s := p[..FULL];
      LacedAssembles(a.(pending := a.pending + s), p[FULL..]);
      assert ([s] + Laced(p[FULL..]))[1..] == Laced(p[FULL..]);
      assert a.pending + s + p[FULL..] == a.pending + p;
    } else {
      assert [p][1..] == [];
    }
  }

  lemma {:induction false} AllAssemble(done: seq<Packet>, packets: seq<Packet>)
    ensures Assembled(Assembly(done, []), LacedAll(packets)) == Assembly(done + packets, [])
    decreases |packets|
  {
    if packets == [] {
      assert done + packets == done;
    } else {
      AssembledConcat(Assembly(done, []), Laced(packets[0]), LacedAll(packets[1..]));
      LacedAssembles(Assembly(done, []), packets[0]);
      assert [] + packets[0] == packets[0];
      AllAssemble(done + [packets[0]], packets[1..]);
      assert (done + [packets[0]]) + packets[1..] == done + packets;
    }
  }

  /**
   Packets laced into well-formed pages at any page breaks parse to exactly those packets,
   multiples of 255 bytes and packets that span pages included.
   */
  lemma ParsesLacedPackets(packets: seq<Packet>, pages: seq<Page>)
    requires AllWellFormed(pages)
    requires AllSegments(pages) == LacedAll(packets)
    ensures ReadPages(FileBytes(pages), 0, Assembly([], [])) == Parsed(packets)
  {
    PagesGiveSegments([], pages, Assembly([], []));
    assert [] + FileBytes(pages) == FileBytes(pages);
    AllAssemble([], packets);
    assert [] + packets == packets;
  }
}
