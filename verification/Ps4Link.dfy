/**
 Relaying a console's authentication: the device chip forwards the nonce and serves the
 signature page by page, the host chip streams the 19 pages once its controller has signed.
 */
module Ps4Link {
  import opened Crc
  import opened Slip

  const PAGE := 56
  const PAGES := 19
  const NONCE_PAGES := 5
  const REPORT_SIGNATURE: octet := 0xF1
  const REPORT_STATUS: octet := 0xF2

  // ---------------------------------------------------------------------------
  // The device side
  // ---------------------------------------------------------------------------

  /** The signature being collected and how far the console has read; P is what a page holds. */
  datatype Device<P> = Device(pages: seq<P>, ready: bool, returning: int)

  predicate Shaped<P>(d: Device<P>) { |d.pages| == PAGES && 0 <= d.returning < PAGES }

  function Restarted<P>(d: Device<P>): Device<P> { d.(ready := false, returning := 0) }

  function WithPage<P>(d: Device<P>, k: int, page: P): Device<P> {
    if 0 <= k < PAGES && |d.pages| == PAGES then d.(pages := d.pages[k := page]) else d
  }

  function NowReady<P>(d: Device<P>): Device<P> { d.(ready := true, returning := 0) }

  /** A read moves on only once the signature is there, and stays on the last page. */
  function AfterRead<P>(d: Device<P>): Device<P> {
    if d.ready && d.returning < PAGES - 1 then d.(returning := d.returning + 1) else d
  }

  function Zeros(n: nat): seq<octet> { seq<octet>(n, _ => 0) }

  class DeviceSide {
    const sig: array<octet>
    var nonceId: octet
    var ready: bool
    var returning: int

    ghost predicate Valid()
      reads this
    {
      sig.Length == PAGE * PAGES && 0 <= returning < PAGES
    }

    ghost function PageAt(k: int): seq<octet>
      requires Valid() && 0 <= k < PAGES
      reads this, sig
    {
      sig[PAGE * k..PAGE * (k + 1)]
    }

    ghost function Abs(): (d: Device<seq<octet>>)
      requires Valid()
      reads this, sig
      ensures Shaped(d)
    {
      Device(seq(PAGES, k requires 0 <= k < PAGES && Valid() reads this, sig => PageAt(k)), ready, returning)
    }

    constructor ()
      ensures Valid() && !ready && returning == 0 && fresh(sig)
    {
      sig := new octet[PAGE * PAGES];
      nonceId, ready, returning := 0, false, 0;
    }

    /** A nonce page from the console: page 0 starts a new round. The result is the relayed page. */
    method SendNonce(data: seq<octet>) returns (relayed: seq<seq<octet>>)
      requires Valid()
      modifies this`nonceId, this`ready, this`returning
      ensures Valid()
      ensures |data| < 59 ==> relayed == [] && Abs() == old(Abs()) && nonceId == old(nonceId)
      ensures |data| >= 59 ==> relayed == [[data[0], data[1]] + data[3..59]] && nonceId == data[0]
      ensures |data| >= 59 ==> Abs() == if data[1] == 0 then Restarted(old(Abs())) else old(Abs())
    {
      relayed := [];
      if |data| < 59 { return; }
      if data[1] == 0 {
        ready := false;
        returning := 0;
      }
      nonceId := data[0];
      relayed := [[data[0], data[1]] + data[3..59]];
    }

    method Reset()
      requires Valid()
      modifies this`ready, this`returning
      ensures Valid() && Abs() == Restarted(old(Abs()))
    {
      ready := false;
      returning := 0;
    }

    /** A signature page from the host: stored if it is complete and numbered 0 to 18. */
    method OnSigFrame(payload: seq<octet>)
      requires Valid()
      modifies sig
      ensures Valid()
      ensures |payload| >= 1 + PAGE && payload[0] as int < PAGES
        ==> Abs() == WithPage(old(Abs()), payload[0] as int, payload[1..1 + PAGE])
      ensures !(|payload| >= 1 + PAGE && payload[0] as int < PAGES) ==> Abs() == old(Abs())
    {
      if |payload| >= 1 + PAGE && payload[0] as int < PAGES {
        var k := payload[0] as int;
        StorePage(k, payload[1..1 + PAGE]);
      }
    }

    method StorePage(k: int, page: seq<octet>)
      requires Valid() && 0 <= k < PAGES && |page| == PAGE
      modifies sig
      ensures Abs() == WithPage(old(Abs()), k, page)
    {
      ghost var before := sig[..];
      for i := 0 to PAGE
        invariant forall j :: 0 <= j < sig.Length ==>
          sig[j] == if PAGE * k <= j < PAGE * k + i then page[j - PAGE * k] else before[j]
      {
        sig[PAGE * k + i] := page[i];
      }
      forall j | 0 <= j < PAGES ensures PageAt(j) == if j == k then page else before[PAGE * j..PAGE * (j + 1)] {
        PageSlice(before, sig[..], k, page, j);
      }
    }

    method OnReadyFrame(payload: seq<octet>)
      requires Valid()
      modifies this`nonceId, this`ready, this`returning
      ensures Valid()
      ensures Abs() == if |payload| >= 1 then NowReady(old(Abs())) else old(Abs())
      ensures nonceId == if |payload| >= 1 then payload[0] else old(nonceId)
    {
      if |payload| >= 1 {
        nonceId := payload[0];
        ready := true;
        returning := 0;
      }
    }

    /** The console reads a signature page: identifiers, the page or zeros, and a checksum over the report. */
    method GetSignature(maxLen: int) returns (buf: seq<octet>)
      requires Valid()
      modifies this`returning
      ensures Valid()
      ensures maxLen < 63 ==> buf == [] && Abs() == old(Abs())
      ensures maxLen >= 63 ==> Abs() == AfterRead(old(Abs()))
      ensures maxLen >= 63 ==> buf == SignatureReport(nonceId, old(Abs()))
      ensures maxLen >= 63 ==> |buf| == 63 && buf[0] == nonceId && buf[1] == old(returning) as octet && buf[2] == 0
      ensures maxLen >= 63 ==> buf[3..59] == if ready then old(sig[56 * returning..56 * returning + 56]) else seq(56, _ => 0)
      ensures maxLen >= 63 ==> Accepted([0xF1] + buf)
    {
      hide Abs, AfterRead, Accepted, SignatureReport;
      if maxLen < 63 { return []; }
      buf := PageReport();
      TurnPage();
    }

    method PageReport() returns (buf: seq<octet>)
      requires Valid()
      ensures buf == SignatureReport(nonceId, Abs())
      ensures |buf| == 63 && buf[0] == nonceId && buf[1] == returning as octet && buf[2] == 0
      ensures buf[3..59] == if ready then sig[56 * returning..56 * returning + 56] else seq(56, _ => 0)
      ensures Accepted([0xF1] + buf)
    {
      hide Sealed, SignatureBody, Accepted, Abs;
      CurrentBytes();
      var body := CurrentPage();
      buf := Report(REPORT_SIGNATURE, body);
    }

    method TurnPage()
      requires Valid()
      modifies this`returning
      ensures Valid() && Abs() == AfterRead(old(Abs()))
    {
      if ready && returning < PAGES - 1 {
        returning := returning + 1;
      }
    }

    lemma CurrentBytes()
      requires Valid()
      ensures var buf := SignatureReport(nonceId, Abs());
              && |buf| == 63 && buf[0] == nonceId && buf[1] == returning as octet && buf[2] == 0
              && buf[3..59] == (if ready then sig[56 * returning..56 * returning + 56] else seq(56, _ => 0))
              && Accepted([0xF1] + buf)
    {
      var d := Abs();
      assert d.pages[returning] == sig[56 * returning..56 * returning + 56];
      hide Sealed, SignatureBody, Zeros, SignatureReport, Accepted, Abs;
      SignatureBytes(nonceId, d);
    }

    /** The identifiers and the page the console is at, or zeros until the signature is complete. */
    method CurrentPage() returns (body: seq<octet>)
      requires Valid()
      ensures body == SignatureBody(nonceId, Abs())
    {
      hide Zeros;
      var page := returning;
      assert Abs().pages[page] == sig[PAGE * page..PAGE * (page + 1)];
      body := [nonceId, page as octet, 0] + (if ready then sig[PAGE * page..PAGE * (page + 1)] else Zeros(PAGE));
    }

    /** The console polls: 0 once the signature is complete, 16 until then. */
    method GetStatus(maxLen: int) returns (buf: seq<octet>)
      requires Valid()
      ensures buf == if maxLen < 15 then [] else Sealed(REPORT_STATUS, [nonceId, if ready then 0 else 16] + Zeros(9))
      ensures maxLen >= 15 ==> |buf| == 15 && buf[0] == nonceId && buf[1] == (if ready then 0 else 16) && buf[2..11] == seq(9, _ => 0)
      ensures maxLen >= 15 ==> Accepted([0xF2] + buf)
    {
      StatusBytes(nonceId, ready);
      hide Sealed, Accepted, Zeros;
      if maxLen < 15 { return []; }
      buf := Report(REPORT_STATUS, [nonceId, if ready then 0 else 16] + Zeros(9));
    }
  }

  /** Writing page k leaves every other page. */
  lemma PageSlice(before: seq<octet>, after: seq<octet>, k: int, page: seq<octet>, j: int)
    requires |before| == |after| == PAGE * PAGES && 0 <= k < PAGES && |page| == PAGE && 0 <= j < PAGES
    requires forall i :: 0 <= i < |after| ==> after[i] == if PAGE * k <= i < PAGE * k + PAGE then page[i - PAGE * k] else before[i]
    ensures after[PAGE * j..PAGE * (j + 1)] == if j == k then page else before[PAGE * j..PAGE * (j + 1)]
  {
    var s := after[PAGE * j..PAGE * (j + 1)];
    if j != k {
      assert s == before[PAGE * j..PAGE * (j + 1)];
    }
  }

  /** A report body followed by the checksum over its identifier and body, low byte first. */
  function Sealed(id: octet, body: seq<octet>): (r: seq<octet>) { body + LeBytes(Crc32([id] + body)) }

  function SignatureBody(nonceId: octet, d: Device<seq<octet>>): seq<octet>
    requires Shaped(d)
  {
    [nonceId, d.returning as octet, 0] + (if d.ready then d.pages[d.returning] else Zeros(PAGE))
  }

  function SignatureReport(nonceId: octet, d: Device<seq<octet>>): seq<octet>
    requires Shaped(d)
  {
    Sealed(REPORT_SIGNATURE, SignatureBody(nonceId, d))
  }

  /** The console's own check passes on what is sealed: the checksum over its identifier and the bytes behind. */
  lemma SealedPasses(id: octet, body: seq<octet>)
    ensures var r := Sealed(id, body); |r| == |body| + 4 && r[..|body|] == body && Accepted([id] + r)
  {
    var crc := Crc32([id] + body);
    LeBytesWord(crc);
    hide Crc32, LeBytes, LeWord;
    var f := [id] + Sealed(id, body);
    assert f[..|f| - 4] == [id] + body && f[|f| - 4..] == LeBytes(crc);
    assert f[|f| - 4] == LeBytes(crc)[0] && f[|f| - 3] == LeBytes(crc)[1] && f[|f| - 2] == LeBytes(crc)[2] && f[|f| - 1] == LeBytes(crc)[3];
  }

  /** The signature report, byte by byte. */
  lemma SignatureBytes(nonceId: octet, d: Device<seq<octet>>)
    requires Shaped(d) && |d.pages[d.returning]| == 56
    ensures var buf := SignatureReport(nonceId, d);
            && |buf| == 63 && buf[0] == nonceId && buf[1] == d.returning as octet && buf[2] == 0
            && buf[3..59] == (if d.ready then d.pages[d.returning] else seq(56, _ => 0))
            && Accepted([0xF1] + buf)
  {
    var body := SignatureBody(nonceId, d);
    SealedPasses(REPORT_SIGNATURE, body);
    var page: seq<octet> := if d.ready then d.pages[d.returning] else seq(56, _ => 0);
    assert body == [nonceId, d.returning as octet, 0] + page && |body| == 59;
    hide Sealed, Accepted, SignatureBody;
    var buf := SignatureReport(nonceId, d);
    assert buf[..59] == body;
    assert buf[3..59] == body[3..] == page;
    assert buf[0] == body[0] && buf[1] == body[1] && buf[2] == body[2];
  }

  lemma StatusBytes(nonceId: octet, ready: bool)
    ensures var buf := Sealed(REPORT_STATUS, [nonceId, if ready then 0 else 16] + Zeros(9));
            && |buf| == 15 && buf[0] == nonceId && buf[1] == (if ready then 0 else 16) && buf[2..11] == seq(9, _ => 0)
            && Accepted([0xF2] + buf)
  {
    var body := [nonceId, if ready then 0 else 16] + Zeros(9);
    SealedPasses(REPORT_STATUS, body);
    hide Sealed, Accepted;
    var buf := Sealed(REPORT_STATUS, body);
    assert buf[..11] == body;
    assert buf[2..11] == body[2..] == seq(9, _ => 0);
    assert buf[0] == body[0] && buf[1] == body[1];
  }

  method Report(id: octet, body: seq<octet>) returns (r: seq<octet>)
    ensures r == Sealed(id, body)
  {
    var crc := ComputeReportCrc(id, body);
    hide Crc32, LeBytes;
    r := body + LeBytes(crc);
  }

  // ---------------------------------------------------------------------------
  // The host side
  // ---------------------------------------------------------------------------

  const IDLE := -1
  const SENT := -2

  /** The page one call of the host task sends, if the stream is idle, at page 0 to 18, or done. */
  function PageSent(sendPage: int, ready: bool): (k: int)
    requires SENT <= sendPage < PAGES
    ensures k == -1 || (ready && 0 <= k < PAGES)
  {
    if !ready || sendPage == SENT then -1 else if sendPage == IDLE then 0 else sendPage
  }

  function AfterTask(sendPage: int, ready: bool): (next: int)
    requires SENT <= sendPage < PAGES
    ensures SENT <= next < PAGES
  {
    if !ready then IDLE
    else if sendPage == SENT || sendPage == PAGES - 1 then SENT
    else if sendPage == IDLE then 1 else sendPage + 1
  }

  /** The stream's position after n calls of the task, all with the signature ready. */
  function PositionAfter(n: nat): (p: int)
    ensures SENT <= p < PAGES
  {
    if n == 0 then IDLE else AfterTask(PositionAfter(n - 1), true)
  }

  /**
   From the signature getting ready, call n of the task sends page n, up to page 18, and no call
   after that sends anything; a call that finds it not ready sends nothing and starts over.
   */
  lemma {:induction false} CallSendsPage(n: nat)
    ensures PositionAfter(n) == if n == 0 then -1 else if n < 19 then n else -2
    ensures PageSent(PositionAfter(n), true) == if n < 19 then n else -1
    ensures forall p :: -2 <= p < 19 ==> PageSent(p, false) == -1 && AfterTask(p, false) == -1
  {
    if n > 0 {
      CallSendsPage(n - 1);
    }
  }

  datatype Sent = SigFrame(payload: seq<octet>) | ReadyFrame(payload: seq<octet>)

  class HostSide {
    var sendPage: int

    constructor ()
      ensures sendPage == IDLE
    {
      sendPage := IDLE;
    }

    /** One call of the host task against the controller's state; the frames it sends. */
    method Task(ready: bool, pages: seq<seq<octet>>, nonceId: octet) returns (frames: seq<Sent>)
      requires SENT <= sendPage < PAGES && |pages| == PAGES
      modifies this
      ensures sendPage == AfterTask(old(sendPage), ready)
      ensures var k := PageSent(old(sendPage), ready);
              frames == if k == -1 then []
                        else [SigFrame([k as octet] + pages[k])] + (if k == PAGES - 1 then [ReadyFrame([nonceId])] else [])
    {
      frames := [];
      if !ready {
        sendPage := IDLE;
        return;
      }
      if sendPage == IDLE {
        sendPage := 0;
      }
      if 0 <= sendPage < PAGES {
        frames := [SigFrame([sendPage as octet] + pages[sendPage])];
        sendPage := sendPage + 1;
        if sendPage == PAGES {
          frames := frames + [ReadyFrame([nonceId])];
          sendPage := SENT;
        }
      }
    }
  }
}
