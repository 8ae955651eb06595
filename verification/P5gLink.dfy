/**
 Report signing across the link: the device side keeps one request in flight and retries it,
 the host side hands reports to the signing dongle, and the link may lose any frame.
 */
module P5gLink {
  import opened Common

  const RETRY_MS := 20

  type Report = r: seq<bv8> | |r| == 64 witness seq(64, _ => 0)

  /** A signed report, identified by what was signed. */
  datatype Signed = Signed(of: Report)

  /** The device side's half of the shared structure, and the task's static variables. */
  datatype Device = Device(pending: bool, buffer: Report, ready: bool, finish: Signed, inFlight: bool, sentMs: int)

  /** The host side's half. */
  datatype Host = Host(pending: bool, buffer: Report, ready: bool, finish: Signed)

  // ---------------------------------------------------------------------------
  // The device side
  // ---------------------------------------------------------------------------

  predicate Expired(a: Device, now: int) { (now - a.sentMs) % U32 >= RETRY_MS }

  /** The task sends a request now. */
  predicate Sends(a: Device, now: int) { a.pending && (!a.inFlight || Expired(a, now)) }

  function AfterTask(a: Device, now: int): Device {
    var b := if Sends(a, now) then a.(inFlight := true, sentMs := now) else a;
    if !b.pending then b.(inFlight := false) else b
  }

  function AfterResponse(a: Device, r: Signed): Device { a.(finish := r, ready := true, pending := false) }

  class DeviceSide {
    var pending: bool
    var buffer: Report
    var ready: bool
    var finish: Signed
    var inFlight: bool
    var sentMs: int

    ghost function Abs(): Device
      reads this
    {
      Device(pending, buffer, ready, finish, inFlight, sentMs)
    }

    constructor (buffer: Report, finish: Signed)
      ensures Abs() == Device(false, buffer, false, finish, false, 0)
    {
      this.buffer, this.finish := buffer, finish;
      pending, ready, inFlight, sentMs := false, false, false, 0;
    }

    /** The periodic task; the request it sends, if any. */
    method Task(now: int) returns (requests: seq<Report>)
      modifies this`inFlight, this`sentMs
      ensures Abs() == AfterTask(old(Abs()), now)
      ensures requests == if Sends(old(Abs()), now) then [buffer] else []
    {
      requests := [];
      if pending && (!inFlight || (now - sentMs) % U32 >= RETRY_MS) {
        requests := [buffer];
        inFlight := true;
        sentMs := now;
      }
      if !pending {
        inFlight := false;
      }
    }

    method OnSignResponse(r: Signed)
      modifies this`finish, this`ready, this`pending
      ensures Abs() == AfterResponse(old(Abs()), r)
    {
      finish := r;
      ready := true;
      pending := false;
    }
  }

  class HostSide {
    var pending: bool
    var buffer: Report
    var ready: bool
    var finish: Signed

    ghost function Abs(): Host
      reads this
    {
      Host(pending, buffer, ready, finish)
    }

    constructor (buffer: Report, finish: Signed)
      ensures Abs() == Host(false, buffer, false, finish)
    {
      this.buffer, this.finish, pending, ready := buffer, finish, false, false;
    }

    method OnSignRequest(r: Report)
      modifies this`pending, this`buffer
      ensures Abs() == old(Abs()).(pending := true, buffer := r)
    {
      buffer := r;
      pending := true;
    }

    /** The link task; the response it sends, if any. */
    method Task() returns (responses: seq<Signed>)
      modifies this`ready
      ensures Abs() == old(Abs()).(ready := false)
      ensures responses == if old(ready) then [finish] else []
    {
      responses := [];
      if ready {
        responses := [finish];
        ready := false;
      }
    }
  }

  // ---------------------------------------------------------------------------
  // Both sides and a lossy link
  // ---------------------------------------------------------------------------

  /**
   The whole system. `clock` is real time in milliseconds; `lastReq` and `lastReqAt` remember
   the latest request sent, and `unsent` that the pending report was built after it.
   */
  datatype State = State(a: Device, b: Host, dongle: seq<Report>, requests: seq<Report>, responses: seq<Signed>,
                         clock: int, lastReq: Report, lastReqAt: int, unsent: bool)

  datatype Step =
    | Build(r: Report)        // the mode has a new report and nothing owed or pending
    | Pump                    // the signed report goes to the console
    | DeviceTask(now: int)
    | DeliverRequest
    | LoseRequest
    | PushToDongle
    | DongleSigns
    | HostTask
    | DeliverResponse
    | LoseResponse

  function Init(r: Report): State {
    State(Device(false, r, false, Signed(r), false, 0), Host(false, r, false, Signed(r)), [], [], [], 0, r, 0, false)
  }

  /** One step; a step that is not possible leaves the state alone. */
  function Do(s: State, step: Step): State {
    match step
    case Build(r) =>
      if s.a.ready || s.a.pending then s else s.(a := s.a.(pending := true, buffer := r), unsent := true)
    case Pump => s.(a := s.a.(ready := false))
    case DeviceTask(now) =>
      if !(s.clock <= now < s.clock + U32 - RETRY_MS) then s
      else if Sends(s.a, now % U32) then
        s.(a := AfterTask(s.a, now % U32), requests := s.requests + [s.a.buffer], clock := now,
           lastReq := s.a.buffer, lastReqAt := now, unsent := false)
      else s.(a := AfterTask(s.a, now % U32), clock := now)
    case DeliverRequest =>
      if s.requests == [] then s
      else s.(b := s.b.(pending := true, buffer := s.requests[0]), requests := s.requests[1..])
    case LoseRequest => if s.requests == [] then s else s.(requests := s.requests[1..])
    case PushToDongle =>
      if !s.b.pending then s else s.(b := s.b.(pending := false), dongle := s.dongle + [s.b.buffer])
    case DongleSigns =>
      if s.dongle == [] then s
      else if s.b.ready then s.(dongle := s.dongle[1..])
      else s.(b := s.b.(ready := true, finish := Signed(s.dongle[0])), dongle := s.dongle[1..])
    case HostTask =>
      if !s.b.ready then s else s.(b := s.b.(ready := false), responses := s.responses + [s.b.finish])
    case DeliverResponse =>
      if s.responses == [] then s else s.(a := AfterResponse(s.a, s.responses[0]), responses := s.responses[1..])
    case LoseResponse => if s.responses == [] then s else s.(responses := s.responses[1..])
  }

  function Run(s: State, steps: seq<Step>): State {
    if steps == [] then s else Do(Run(s, steps[..|steps| - 1]), steps[|steps| - 1])
  }

  // ---------------------------------------------------------------------------
  // No wedge
  // ---------------------------------------------------------------------------

  /** What every step keeps about requests and their age. */
  predicate Timed(s: State) {
    && 0 <= s.lastReqAt <= s.clock
    && (s.a.inFlight ==> s.a.sentMs == s.lastReqAt % U32 && s.clock < s.lastReqAt + RETRY_MS)
    && (s.a.pending && !s.unsent ==> s.a.inFlight && s.lastReq == s.a.buffer)
  }

  lemma StepTimed(s: State, step: Step)
    requires Timed(s)
    ensures Timed(Do(s, step))
  {
    if step.DeviceTask? && s.a.inFlight && s.clock <= step.now < s.clock + U32 - RETRY_MS {
      WrapDifference(s.lastReqAt, step.now);
    }
  }

  lemma {:induction false} RunTimed(r: Report, steps: seq<Step>)
    ensures Timed(Run(Init(r), steps))
  {
    if steps != [] {
      RunTimed(r, steps[..|steps| - 1]);
      StepTimed(Run(Init(r), steps[..|steps| - 1]), steps[|steps| - 1]);
    }
  }

  /**
   No reachable state is wedged: right after every device task a pending report has a request
   less than 20 ms old, whatever the link lost and wherever the 32-bit clock stands.
   */
  lemma NeverWedged(r: Report, steps: seq<Step>, now: int)
    requires var s := Run(Init(r), steps); s.clock <= now < s.clock + U32 - 20
    ensures var t := Do(Run(Init(r), steps), DeviceTask(now));
            && t.clock == now
            && (t.a.pending ==> t.a.inFlight && now < t.lastReqAt + 20 && (t.unsent || t.lastReq == t.a.buffer))
  {
    RunTimed(r, steps);
    StepTimed(Run(Init(r), steps), DeviceTask(now));
  }

  /**
   The exact condition for a pending report's own request: after a device task it is less than
   20 ms old if and only if the report was not built behind a request that is still in flight
   and young.
   */
  lemma OwnRequestIsYoungIff(r: Report, steps: seq<Step>, now: int)
    requires var s := Run(Init(r), steps); s.a.pending && s.clock <= now < s.clock + U32 - 20
    ensures var s := Run(Init(r), steps); var t := Do(s, DeviceTask(now));
            (!t.unsent && t.lastReq == s.a.buffer && now < t.lastReqAt + 20)
            <==> !(s.unsent && s.a.inFlight && now < s.lastReqAt + 20)
  {
    RunTimed(r, steps);
    var s := Run(Init(r), steps);
    if s.a.inFlight {
      WrapDifference(s.lastReqAt, now);
    }
  }

  /** A report still waiting for its own request gets it at the first task 20 ms after the last one. */
  lemma RequestComesDue(r: Report, steps: seq<Step>, now: int)
    requires var s := Run(Init(r), steps);
             s.a.pending && s.clock <= now < s.clock + U32 - 20 && s.lastReqAt + 20 <= now
    ensures var s := Run(Init(r), steps); var t := Do(s, DeviceTask(now));
            t.requests == s.requests + [s.a.buffer] && t.lastReq == s.a.buffer && t.lastReqAt == now && !t.unsent
  {
    RunTimed(r, steps);
    var s := Run(Init(r), steps);
    if s.a.inFlight {
      WrapDifference(s.lastReqAt, now);
    }
  }

  /** One more step of a run. */
  lemma Then(s0: State, steps: seq<Step>, s: State, step: Step) returns (steps': seq<Step>, s': State)
    requires s == Run(s0, steps)
    ensures steps' == steps + [step] && s' == Do(s, step) == Run(s0, steps')
  {
    steps', s' := steps + [step], Do(s, step);
    assert steps'[..|steps|] == steps;
  }

  /**
   A new report can be held back: if the response and the next report both arrive between two
   device tasks, the in-flight flag still belongs to the old request and nothing is sent.
   */
  lemma ReportHeldBack(r1: Report, r2: Report) returns (steps: seq<Step>)
    requires r1 != r2
    ensures var s := Run(Init(r1), steps); s.a.pending && s.a.buffer == r2 && s.requests == [] && s.lastReq == r1
  {
    var s := Init(r1);
    steps := [];
    steps, s := Then(Init(r1), steps, s, Build(r1));
    steps, s := Then(Init(r1), steps, s, DeviceTask(0));
    steps, s := Then(Init(r1), steps, s, DeliverRequest);
    steps, s := Then(Init(r1), steps, s, PushToDongle);
    steps, s := Then(Init(r1), steps, s, DongleSigns);
    steps, s := Then(Init(r1), steps, s, HostTask);
    steps, s := Then(Init(r1), steps, s, DeliverResponse);
    steps, s := Then(Init(r1), steps, s, Pump);
    steps, s := Then(Init(r1), steps, s, Build(r2));
    steps, s := Then(Init(r1), steps, s, DeviceTask(1));
  }

  // ---------------------------------------------------------------------------
  // Responses answer the pending report, until a retry fires
  // ---------------------------------------------------------------------------

  predicate Retries(s: State, step: Step) {
    step.DeviceTask? && s.clock <= step.now < s.clock + U32 - RETRY_MS && s.a.inFlight && Sends(s.a, step.now % U32)
  }

  predicate NoRetry(s: State, steps: seq<Step>) {
    steps != [] ==>
      NoRetry(s, steps[..|steps| - 1]) && !Retries(Run(s, steps[..|steps| - 1]), steps[|steps| - 1])
  }

  function Count(s: State): int {
    |s.requests| + (if s.b.pending then 1 else 0) + |s.dongle| + (if s.b.ready then 1 else 0) + |s.responses|
  }

  /** At most one report is on its way round, and it is the one that is pending. */
  predicate OneInFlight(s: State) {
    && Count(s) <= 1
    && (Count(s) == 1 ==> s.a.pending && s.a.inFlight && !s.unsent)
    && (s.requests != [] ==> s.requests[0] == s.a.buffer)
    && (s.b.pending ==> s.b.buffer == s.a.buffer)
    && (s.dongle != [] ==> s.dongle[0] == s.a.buffer)
    && (s.b.ready ==> s.b.finish.of == s.a.buffer)
    && (s.responses != [] ==> s.responses[0].of == s.a.buffer)
    && (s.a.pending && !s.a.inFlight ==> s.unsent)
  }

  lemma StepOneInFlight(s: State, step: Step)
    requires OneInFlight(s) && !Retries(s, step)
    ensures OneInFlight(Do(s, step))
  {
  }

  lemma {:induction false} RunOneInFlight(r: Report, steps: seq<Step>)
    requires NoRetry(Init(r), steps)
    ensures OneInFlight(Run(Init(r), steps))
  {
    if steps != [] {
      RunOneInFlight(r, steps[..|steps| - 1]);
      StepOneInFlight(Run(Init(r), steps[..|steps| - 1]), steps[|steps| - 1]);
    }
  }

  /** While no retry has fired, a response reaching the device signs the very report that is pending. */
  lemma ResponseAnswersPending(r: Report, steps: seq<Step>)
    requires NoRetry(Init(r), steps) && Run(Init(r), steps).responses != []
    ensures var s := Run(Init(r), steps); s.a.pending && s.responses[0] == Signed(s.a.buffer)
    ensures var t := Do(Run(Init(r), steps), DeliverResponse); !t.a.pending && t.a.ready && t.a.finish == Signed(t.a.buffer)
  {
    RunOneInFlight(r, steps);
  }

  /** A report sent twice and answered once: the second copy is still on the host side. */
  lemma AnsweredOnceSentTwice(r1: Report) returns (steps: seq<Step>)
    ensures var s := Run(Init(r1), steps);
            && CanBuild(s) && s.clock == 20 && s.a.sentMs == 20 && s.b == Host(true, r1, false, Signed(r1))
            && s.requests == [] && s.dongle == [] && s.responses == []
  {
    var s := Init(r1);
    steps := [];
    steps, s := Then(Init(r1), steps, s, Build(r1));
    steps, s := Then(Init(r1), steps, s, DeviceTask(0));
    steps, s := Then(Init(r1), steps, s, DeliverRequest);
    steps, s := Then(Init(r1), steps, s, PushToDongle);
    steps, s := Then(Init(r1), steps, s, DeviceTask(20));
    steps, s := Then(Init(r1), steps, s, DeliverRequest);
    steps, s := Then(Init(r1), steps, s, DongleSigns);
    steps, s := Then(Init(r1), steps, s, HostTask);
    steps, s := Then(Init(r1), steps, s, DeliverResponse);
    steps, s := Then(Init(r1), steps, s, Pump);
  }

  /** After a retry, the second answer to the first report can be taken for the answer to the next one. */
  lemma RetryCanMisanswer(r1: Report, r2: Report) returns (steps: seq<Step>)
    requires r1 != r2
    ensures var s := Run(Init(r1), steps); !s.a.pending && s.a.ready && s.a.buffer == r2 && s.a.finish == Signed(r1)
  {
    steps := AnsweredOnceSentTwice(r1);
    var s := Run(Init(r1), steps);
    steps, s := Then(Init(r1), steps, s, DeviceTask(21));
    steps, s := Then(Init(r1), steps, s, Build(r2));
    steps, s := Then(Init(r1), steps, s, DeviceTask(22));
    steps, s := Then(Init(r1), steps, s, PushToDongle);
    steps, s := Then(Init(r1), steps, s, DongleSigns);
    steps, s := Then(Init(r1), steps, s, HostTask);
    steps, s := Then(Init(r1), steps, s, DeliverResponse);
  }

  // ---------------------------------------------------------------------------
  // Exactly when a report can be misanswered
  // ---------------------------------------------------------------------------

  /** The mode may build a report: nothing is owed to the console and nothing is pending. */
  predicate CanBuild(s: State) { !s.a.ready && !s.a.pending }

  predicate NoBuild(steps: seq<Step>) { forall i :: 0 <= i < |steps| ==> !steps[i].Build? }

  /** What is ready for the console answers report r. */
  predicate Truthful(s: State, r: Report) { s.a.ready ==> s.a.finish == Signed(r) }

  /** Every copy on its way round, however many, is of report r. */
  predicate CopiesOf(s: State, r: Report) {
    && (forall i :: 0 <= i < |s.requests| ==> s.requests[i] == r)
    && (s.b.pending ==> s.b.buffer == r)
    && (forall i :: 0 <= i < |s.dongle| ==> s.dongle[i] == r)
    && (s.b.ready ==> s.b.finish == Signed(r))
    && (forall i :: 0 <= i < |s.responses| ==> s.responses[i] == Signed(r))
  }

  /** Besides, it is the report last built, and what is ready answers it. */
  predicate AllOf(s: State, r: Report) { s.a.buffer == r && Truthful(s, r) && CopiesOf(s, r) }

  lemma StepAllOf(s: State, step: Step, r: Report)
    requires AllOf(s, r) && !step.Build?
    ensures AllOf(Do(s, step), r)
  {
  }

  lemma {:induction false} RunAllOf(s: State, steps: seq<Step>, r: Report)
    requires AllOf(s, r) && NoBuild(steps)
    ensures AllOf(Run(s, steps), r)
  {
    hide Do, AllOf;
    if steps != [] {
      RunAllOf(s, steps[..|steps| - 1], r);
      StepAllOf(Run(s, steps[..|steps| - 1]), steps[|steps| - 1], r);
    }
  }

  /** The copy that is furthest on its way round. */
  function Foremost(s: State): Report
    requires Count(s) > 0
  {
    if s.responses != [] then s.responses[0].of
    else if s.b.ready then s.b.finish.of
    else if s.dongle != [] then s.dongle[0]
    else if s.b.pending then s.b.buffer
    else s.requests[0]
  }

  /** How many steps that copy is from the device side. */
  function Distance(s: State): nat {
    if s.responses != [] then 0 else if s.b.ready then 1 else if s.dongle != [] then 2 else if s.b.pending then 3 else 4
  }

  /** The step that takes it on. */
  function Onward(s: State): Step {
    if s.responses != [] then DeliverResponse
    else if s.b.ready then HostTask
    else if s.dongle != [] then DongleSigns
    else if s.b.pending then PushToDongle
    else DeliverRequest
  }

  lemma OnwardAdvances(s: State)
    requires Count(s) > 0 && Distance(s) > 0
    ensures var t := Do(s, Onward(s)); Count(t) > 0 && Distance(t) < Distance(s) && Foremost(t) == Foremost(s)
  {
  }

  lemma {:induction false} RunFirst(s: State, step: Step, rest: seq<Step>)
    ensures Run(s, [step] + rest) == Run(Do(s, step), rest)
  {
    hide Do;
    var all := [step] + rest;
    if rest == [] {
      assert all[..0] == [] && Run(s, all[..0]) == s;
    } else {
      RunFirst(s, step, rest[..|rest| - 1]);
      assert all[..|all| - 1] == [step] + rest[..|rest| - 1];
    }
  }

  /** A copy left over can come home as the answer to whatever is pending. */
  lemma {:induction false} LeftoverComesHome(s: State) returns (more: seq<Step>)
    requires Count(s) > 0
    ensures NoBuild(more) && Run(s, more).a.ready && Run(s, more).a.finish == Signed(Foremost(s))
    decreases Distance(s)
  {
    var t := Do(s, Onward(s));
    var rest := [];
    if Distance(s) > 0 {
      OnwardAdvances(s);
      hide Do, Foremost, Count;
      rest := LeftoverComesHome(t);
    } else {
      assert Run(t, []) == t;
    }
    RunFirst(s, Onward(s), rest);
    more := [Onward(s)] + rest;
  }

  /** Steps left until every copy has come home. */
  function Work(s: State): nat {
    5 * |s.requests| + (if s.b.pending then 4 else 0) + 3 * |s.dongle| + (if s.b.ready then 2 else 0) + |s.responses|
  }

  /** Taking a copy of r one step on leaves a copy of another report in the system. */
  lemma MisfitStays(s: State, r: Report)
    requires Count(s) > 0 && Foremost(s) == r && !CopiesOf(s, r)
    ensures var t := Do(s, Onward(s)); Work(t) < Work(s) && !CopiesOf(t, r)
  {
  }

  /** A copy of another report, wherever it is, can come home as the answer to r. */
  lemma {:induction false} MisfitComesHome(s: State, r: Report) returns (more: seq<Step>)
    requires !CopiesOf(s, r)
    ensures NoBuild(more) && Run(s, more).a.ready && Run(s, more).a.finish != Signed(r)
    decreases Work(s)
  {
    assert Count(s) > 0;
    if Foremost(s) != r {
      more := LeftoverComesHome(s);
    } else {
      MisfitStays(s, r);
      hide Do, CopiesOf, Foremost, Count, Work, Onward;
      var rest := MisfitComesHome(Do(s, Onward(s)), r);
      RunFirst(s, Onward(s), rest);
      more := [Onward(s)] + rest;
    }
  }

  /**
   The exact condition on building a given report: it is only ever answered with its own signature
   if and only if every copy left in the system, in either direction, is of that very report.
   */
  lemma AnsweredTrulyIffOwnCopies(s: State, r: Report)
    requires CanBuild(s)
    ensures CopiesOf(s, r) <==>
            forall more {:trigger Run(Do(s, Build(r)), more)} :: NoBuild(more) ==> Truthful(Run(Do(s, Build(r)), more), r)
  {
    var t := Do(s, Build(r));
    if CopiesOf(s, r) {
      forall more | NoBuild(more) ensures Truthful(Run(t, more), r) {
        RunAllOf(t, more, r);
      }
    } else {
      assert !CopiesOf(t, r);
      var more := MisfitComesHome(t, r);
      assert !Truthful(Run(t, more), r);
    }
  }

  /** A report that differs from another in its first byte. */
  function Other(r: Report): (o: Report)
    ensures o != r
  {
    var b: bv8 := if r[0] == 0 then 1 else 0;
    assert r[0 := b][0] != r[0];
    r[0 := b]
  }

  /** Any report at all can be built safely if and only if no copy of any is left. */
  lemma AnsweredTrulyIffDrained(s: State)
    requires CanBuild(s)
    ensures Count(s) == 0 <==>
            forall r, more {:trigger Run(Do(s, Build(r)), more)} :: NoBuild(more) ==> Truthful(Run(Do(s, Build(r)), more), r)
  {
    if Count(s) == 0 {
      forall r, more | NoBuild(more) ensures Truthful(Run(Do(s, Build(r)), more), r) {
        AnsweredTrulyIffOwnCopies(s, r);
      }
    } else {
      var r := Other(Foremost(s));
      assert !CopiesOf(s, r);
      AnsweredTrulyIffOwnCopies(s, r);
    }
  }
}
