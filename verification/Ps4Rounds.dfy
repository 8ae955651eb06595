/**
 Rounds of the signature relay: the device chip, the host chip with its controller, and a
 loss-free link in each direction. A round is safe exactly when it starts with nothing left
 of an earlier one that could still end in a READY.
 */
module Ps4Rounds {
  import opened Common
  import opened Ps4Link

  /** What a page of signature holds: whose round it signs and its number. */
  datatype Tag = Blank | PageOf(round: nat, page: int)

  datatype Up = Nonce(round: nat, page: int) | Reset
  datatype Down = Sig(page: int, tag: Tag) | Ready

  datatype Signing = Resting | Signs(round: nat)

  /** The controller as the host chip sees it, and the stream position. */
  datatype Host = Host(pages: seq<Tag>, ready: bool, signing: Signing, sendPage: int)

  /**
   The whole system. `next` is the nonce page the console sends next (5 when it has sent them
   all), `round` counts nonces, `served` lists the pages read since the last READY or restart.
   */
  datatype State = State(a: Device<Tag>, h: Host, up: seq<Up>, down: seq<Down>, round: nat, next: int, served: seq<Tag>)

  datatype Step =
    | StartRound | NextNoncePage | ConsoleReset | ConsoleRead
    | DeliverUp | DeliverDown
    | SignDone | SignFails
    | HostTask

  function SigPages(round: nat): seq<Tag> { seq(PAGES, k => PageOf(round, k)) }

  function Init(): State {
    State(Device(seq(PAGES, _ => Blank), false, 0), Host(seq(PAGES, _ => Blank), false, Resting, IDLE), [], [], 0, NONCE_PAGES, [])
  }

  function Received(h: Host, m: Up): Host {
    match m
    case Nonce(r, p) => if p == NONCE_PAGES - 1 then h.(ready := false, signing := Signs(r)) else h
    case Reset => h.(ready := false, signing := Resting)
  }

  predicate WellFormed(s: State) {
    Shaped(s.a) && |s.h.pages| == PAGES && SENT <= s.h.sendPage < PAGES
  }

  function HostTasked(s: State): State
    requires WellFormed(s)
  {
    var k := PageSent(s.h.sendPage, s.h.ready);
    s.(h := s.h.(sendPage := AfterTask(s.h.sendPage, s.h.ready)),
       down := s.down + (if k == -1 then [] else [Sig(k, s.h.pages[k])]) + (if k == PAGES - 1 then [Ready] else []))
  }

  /** One step; a step that is not possible leaves the state alone. */
  function Do(s: State, step: Step): (t: State)
    requires WellFormed(s)
    ensures WellFormed(t)
  {
    match step
    case StartRound =>
      s.(a := Restarted(s.a), round := s.round + 1, next := 1, up := s.up + [Nonce(s.round + 1, 0)], served := [])
    case NextNoncePage =>
      if s.next < NONCE_PAGES then s.(next := s.next + 1, up := s.up + [Nonce(s.round, s.next)]) else s
    case ConsoleReset => s.(a := Restarted(s.a), up := s.up + [Reset], served := [])
    case ConsoleRead =>
      if s.a.ready then s.(a := AfterRead(s.a), served := s.served + [s.a.pages[s.a.returning]]) else s.(a := AfterRead(s.a))
    case DeliverUp => if s.up == [] then s else s.(h := Received(s.h, s.up[0]), up := s.up[1..])
    case DeliverDown =>
      if s.down == [] then s
      else (match s.down[0]
            case Sig(k, tag) => s.(a := WithPage(s.a, k, tag), down := s.down[1..])
            case Ready => s.(a := NowReady(s.a), down := s.down[1..], served := []))
    case SignDone =>
      // signing takes many transfers, so the host task has run since the last nonce page
      if s.h.signing.Signs? && s.h.sendPage == IDLE
      then s.(h := s.h.(pages := SigPages(s.h.signing.round), ready := true, signing := Resting)) else s
    case SignFails => s.(h := s.h.(ready := false, signing := Resting))
    case HostTask => HostTasked(s)
  }

  function Run(s: State, steps: seq<Step>): (t: State)
    requires WellFormed(s)
    ensures WellFormed(t)
  {
    if steps == [] then s else Do(Run(s, steps[..|steps| - 1]), steps[|steps| - 1])
  }

  /** A round's nonce goes out as five pages, 0 to 4, however often the console asks for another. */
  lemma {:induction false} NonceHasFivePages(s: State, n: nat)
    requires WellFormed(s)
    ensures var t := Run(s, [StartRound] + seq(n, _ => NextNoncePage));
            && t.next == (if n < 4 then n + 1 else 5) && t.round == s.round + 1
            && t.up == s.up + seq(t.next, k => Nonce(s.round + 1, k))
  {
    var steps := [StartRound] + seq(n, _ => NextNoncePage);
    if n == 0 {
      assert steps == [StartRound] && Run(s, []) == s;
      assert seq(1, k => Nonce(s.round + 1, k)) == [Nonce(s.round + 1, 0)];
    } else {
      NonceHasFivePages(s, n - 1);
      assert steps[..n] == [StartRound] + seq(n - 1, _ => NextNoncePage) && steps[n] == NextNoncePage;
      var m := Run(s, steps[..n]);
      if m.next < 5 {
        assert seq(m.next + 1, k => Nonce(s.round + 1, k)) == seq(m.next, k => Nonce(s.round + 1, k)) + [Nonce(s.round + 1, m.next)];
      }
    }
  }

  /** The fifth page, and no other, makes the controller sign; every earlier signature is void with it. */
  lemma FifthPageSigns(h: Host, round: nat, page: nat)
    ensures Received(h, Nonce(round, page)) == if page == 4 then h.(ready := false, signing := Signs(round)) else h
  {
  }

  // ---------------------------------------------------------------------------
  // Restarts with nothing left over
  // ---------------------------------------------------------------------------

  /** Complete nonces on their way to the host. */
  function Starts(up: seq<Up>): nat {
    if up == [] then 0 else (if up[0].Nonce? && up[0].page == NONCE_PAGES - 1 then 1 else 0) + Starts(up[1..])
  }

  function Readies(down: seq<Down>): nat {
    if down == [] then 0 else (if down[0].Ready? then 1 else 0) + Readies(down[1..])
  }

  predicate Streaming(h: Host) { h.ready && h.sendPage != SENT }

  /** Nothing in the system can still end in a READY. */
  predicate Quiet(s: State) {
    Starts(s.up) == 0 && s.h.signing.Resting? && !Streaming(s.h) && Readies(s.down) == 0
  }

  /** The latest restart of the run, if any, came when nothing of an earlier round was left. */
  predicate LatestQuiet(steps: seq<Step>) {
    steps != [] ==>
      if steps[|steps| - 1].StartRound? then Quiet(Run(Init(), steps[..|steps| - 1]))
      else LatestQuiet(steps[..|steps| - 1])
  }

  function Bit(b: bool): nat { if b then 1 else 0 }

  /** How many READYs can still reach the device or have. */
  function Potential(s: State): nat {
    Starts(s.up) + Bit(s.h.signing.Signs?) + Bit(Streaming(s.h)) + Readies(s.down) + Bit(s.a.ready)
  }

  /** The pages once all of `down` has arrived. */
  function Arrived(a: Device<Tag>, down: seq<Down>): (d: Device<Tag>)
    requires Shaped(a)
    ensures Shaped(d)
    decreases |down|
  {
    if down == [] then a
    else Arrived(if down[0].Sig? then WithPage(a, down[0].page, down[0].tag) else NowReady(a), down[1..])
  }

  /** At a READY in `down` the pages are exactly the round's, and nothing follows it. */
  predicate ReadyRight(a: Device<Tag>, down: seq<Down>, round: nat)
    requires Shaped(a)
    decreases |down|
  {
    down == [] ||
    (if down[0].Sig? then ReadyRight(WithPage(a, down[0].page, down[0].tag), down[1..], round)
     else a.pages == SigPages(round) && down[1..] == [])
  }

  predicate NoncesOf(up: seq<Up>, round: nat) {
    forall i :: 0 <= i < |up| && up[i].Nonce? && up[i].page == NONCE_PAGES - 1 ==> up[i].round == round
  }

  predicate ServedRight(s: State) {
    if s.a.ready then
      s.a.pages == SigPages(s.round) && s.down == [] && s.a.returning == Min(|s.served|, PAGES - 1) &&
      (forall i :: 0 <= i < |s.served| ==> s.served[i] == PageOf(s.round, Min(i, PAGES - 1)))
    else s.a.returning == 0
  }

  /** What a quiet restart establishes from any state at all, and every other step keeps. */
  predicate Sound(s: State)
    requires WellFormed(s)
  {
    && Potential(s) <= 1
    && 1 <= s.next <= NONCE_PAGES
    && (s.next < NONCE_PAGES ==> Potential(s) == 0)
    && NoncesOf(s.up, s.round)
    && (s.h.signing.Signs? ==> s.h.signing.round == s.round)
    && (Streaming(s.h) ==> s.h.pages == SigPages(s.round))
    && (Streaming(s.h) ==> forall k :: 0 <= k < s.h.sendPage ==> Arrived(s.a, s.down).pages[k] == PageOf(s.round, k))
    && ReadyRight(s.a, s.down, s.round)
    && ServedRight(s)
  }

  lemma {:induction false} StartsConcat(x: seq<Up>, y: seq<Up>)
    ensures Starts(x + y) == Starts(x) + Starts(y)
  {
    if x == [] {
      assert x + y == y;
    } else {
      StartsConcat(x[1..], y);
      assert (x + y)[1..] == x[1..] + y;
    }
  }

  lemma {:induction false} ReadiesConcat(x: seq<Down>, y: seq<Down>)
    ensures Readies(x + y) == Readies(x) + Readies(y)
  {
    if x == [] {
      assert x + y == y;
    } else {
      ReadiesConcat(x[1..], y);
      assert (x + y)[1..] == x[1..] + y;
    }
  }

  lemma {:induction false} ArrivedConcat(a: Device<Tag>, x: seq<Down>, y: seq<Down>)
    requires Shaped(a)
    ensures Arrived(a, x + y) == Arrived(Arrived(a, x), y)
    decreases |x|
  {
    if x == [] {
      assert x + y == y;
    } else {
      ArrivedConcat(if x[0].Sig? then WithPage(a, x[0].page, x[0].tag) else NowReady(a), x[1..], y);
      assert (x + y)[1..] == x[1..] + y;
    }
  }

  /** Sending on a link with no READY in it: a READY is right exactly when the pages before it complete the round. */
  lemma {:induction false} ReadyRightConcat(a: Device<Tag>, x: seq<Down>, y: seq<Down>, round: nat)
    requires Shaped(a) && Readies(x) == 0
    ensures ReadyRight(a, x + y, round) == ReadyRight(Arrived(a, x), y, round)
    decreases |x|
  {
    if x == [] {
      assert x + y == y;
    } else {
      ReadyRightConcat(WithPage(a, x[0].page, x[0].tag), x[1..], y, round);
      assert (x + y)[1..] == x[1..] + y;
    }
  }

  /** Restarting leaves the pages alone, so what arrives is the same. */
  lemma {:induction false} ArrivedPages(a: Device<Tag>, b: Device<Tag>, down: seq<Down>, round: nat)
    requires Shaped(a) && Shaped(b) && a.pages == b.pages
    ensures Arrived(a, down).pages == Arrived(b, down).pages
    ensures ReadyRight(a, down, round) == ReadyRight(b, down, round)
    decreases |down|
  {
    if down != [] {
      if down[0].Sig? {
        ArrivedPages(WithPage(a, down[0].page, down[0].tag), WithPage(b, down[0].page, down[0].tag), down[1..], round);
      } else {
        ArrivedPages(NowReady(a), NowReady(b), down[1..], round);
      }
    }
  }

  lemma {:induction false} QuietDown(a: Device<Tag>, down: seq<Down>, round: nat)
    requires Shaped(a) && Readies(down) == 0
    ensures ReadyRight(a, down, round)
    decreases |down|
  {
    if down != [] {
      QuietDown(WithPage(a, down[0].page, down[0].tag), down[1..], round);
    }
  }

  lemma {:induction false} NoStarts(up: seq<Up>, round: nat)
    requires Starts(up) == 0
    ensures NoncesOf(up, round)
  {
    if up != [] {
      NoStarts(up[1..], round);
      forall i | 0 <= i < |up| && up[i].Nonce? && up[i].page == NONCE_PAGES - 1 ensures up[i].round == round {
        if i > 0 { assert up[1..][i - 1] == up[i]; }
      }
    }
  }

  /** A quiet restart leaves nothing of what went wrong before it. */
  lemma StartSound(s: State)
    requires WellFormed(s) && Quiet(s)
    ensures Sound(Do(s, StartRound))
  {
    StartsConcat(s.up, [Nonce(s.round + 1, 0)]);
    NoStarts(Do(s, StartRound).up, s.round + 1);
    QuietDown(Restarted(s.a), s.down, s.round + 1);
  }

  lemma NonceSound(s: State)
    requires WellFormed(s) && Sound(s)
    ensures Sound(Do(s, NextNoncePage))
  {
    StartsConcat(s.up, [Nonce(s.round, s.next)]);
  }

  lemma ResetSound(s: State)
    requires WellFormed(s) && Sound(s)
    ensures Sound(Do(s, ConsoleReset))
  {
    StartsConcat(s.up, [Up.Reset]);
    ArrivedPages(s.a, Restarted(s.a), s.down, s.round);
  }

  lemma ReadSound(s: State)
    requires WellFormed(s) && Sound(s)
    ensures Sound(Do(s, ConsoleRead))
  {
    if s.a.ready {
      assert s.a.pages[s.a.returning] == PageOf(s.round, s.a.returning);
    }
  }

  lemma DeliverUpSound(s: State)
    requires WellFormed(s) && Sound(s)
    ensures Sound(Do(s, DeliverUp))
  {
    if s.up != [] {
      assert forall i :: 0 <= i < |s.up| - 1 ==> s.up[1..][i] == s.up[i + 1];
    }
  }

  lemma DeliverDownSound(s: State)
    requires WellFormed(s) && Sound(s)
    ensures Sound(Do(s, DeliverDown))
  {
  }

  lemma SignSound(s: State, step: Step)
    requires WellFormed(s) && Sound(s) && (step.SignDone? || step.SignFails?)
    ensures Sound(Do(s, step))
  {
  }

  /** The host task keeps the stream in step with what will have arrived. */
  lemma HostTaskSound(s: State)
    requires WellFormed(s) && Sound(s)
    ensures Sound(Do(s, HostTask))
  {
    var k := PageSent(s.h.sendPage, s.h.ready);
    if k == -1 {
      assert s.down + [] + [] == s.down;
      return;
    }
    var sig := [Sig(k, PageOf(s.round, k))];
    var more := if k == PAGES - 1 then [Ready] else [];
    var t := Do(s, HostTask);
    assert t.down == s.down + sig + more;
    var d := Arrived(s.a, s.down);
    ReadiesConcat(s.down, sig);
    ReadiesConcat(s.down + sig, more);
    ArrivedConcat(s.a, s.down, sig);
    assert sig[1..] == [];
    assert Arrived(s.a, s.down + sig) == WithPage(d, k, PageOf(s.round, k));
    ReadyRightConcat(s.a, s.down, sig, s.round);
    if k == PAGES - 1 {
      assert WithPage(d, k, PageOf(s.round, k)).pages == SigPages(s.round);
      ReadyRightConcat(s.a, s.down + sig, more, s.round);
    } else {
      assert s.down + sig + more == s.down + sig;
    }
  }

  lemma StepSound(s: State, step: Step)
    requires WellFormed(s) && (if step.StartRound? then Quiet(s) else Sound(s))
    ensures Sound(Do(s, step))
  {
    hide *;
    match step {
      case StartRound => StartSound(s);
      case NextNoncePage => NonceSound(s);
      case ConsoleReset => ResetSound(s);
      case ConsoleRead => ReadSound(s);
      case DeliverUp => DeliverUpSound(s);
      case DeliverDown => DeliverDownSound(s);
      case SignDone => SignSound(s, step);
      case SignFails => SignSound(s, step);
      case HostTask => HostTaskSound(s);
    }
  }

  lemma {:induction false} RunSound(steps: seq<Step>)
    requires LatestQuiet(steps)
    ensures Sound(Run(Init(), steps))
  {
    if steps != [] {
      var init, last := steps[..|steps| - 1], steps[|steps| - 1];
      if !last.StartRound? {
        RunSound(init);
      }
      hide Sound, Quiet, Do;
      StepSound(Run(Init(), init), last);
    }
  }

  /**
   Whatever the order of link, controller and console steps, and whatever rounds before the
   latest went wrong: once the device reports ready, all 19 pages are this round's signature, and
   reads give pages 0, 1, ... 18, 18, ...; before that no read moves on.
   */
  lemma ServesTheRightSignature(steps: seq<Step>)
    requires LatestQuiet(steps)
    ensures var s := Run(Init(), steps);
            s.a.ready ==> forall k :: 0 <= k < PAGES ==> s.a.pages[k] == PageOf(s.round, k)
    ensures var s := Run(Init(), steps);
            s.a.ready ==> forall i :: 0 <= i < |s.served| ==> s.served[i] == PageOf(s.round, Min(i, PAGES - 1))
    ensures var s := Run(Init(), steps); !s.a.ready ==> s.a.returning == 0
    ensures var s := Run(Init(), steps); s.a.ready ==> Quiet(s)
  {
    RunSound(steps);
  }

  // ---------------------------------------------------------------------------
  // A restart that is not quiet can be answered with an old signature
  // ---------------------------------------------------------------------------

  predicate Older(tag: Tag, round: nat) { tag.Blank? || tag.round < round }

  /** Everything in the system belongs to rounds before `round`, and a round being signed is not ready. */
  predicate AllOlder(s: State, round: nat) {
    && (forall k :: 0 <= k < |s.a.pages| ==> Older(s.a.pages[k], round))
    && (forall k :: 0 <= k < |s.h.pages| ==> Older(s.h.pages[k], round))
    && (forall i :: 0 <= i < |s.down| && s.down[i].Sig? ==> Older(s.down[i].tag, round))
    && (forall i :: 0 <= i < |s.up| && s.up[i].Nonce? && s.up[i].page == NONCE_PAGES - 1 ==> s.up[i].round < round)
    && (s.h.signing.Signs? ==> s.h.signing.round < round && !s.h.ready)
  }

  lemma StepOlder(s: State, step: Step, round: nat)
    requires WellFormed(s) && AllOlder(s, round) && (step.NextNoncePage? ==> s.round < round)
    ensures AllOlder(Do(s, step), round)
  {
    var t := Do(s, step);
    if step.DeliverUp? && s.up != [] {
      assert forall i :: 0 <= i < |t.up| ==> t.up[i] == s.up[i + 1];
    }
    if step.DeliverDown? && s.down != [] {
      assert forall i :: 0 <= i < |t.down| ==> t.down[i] == s.down[i + 1];
    }
  }

  lemma {:induction false} RunOlder(steps: seq<Step>)
    ensures var s := Run(Init(), steps); AllOlder(s, s.round + 1)
  {
    if steps != [] {
      var s := Run(Init(), steps[..|steps| - 1]);
      RunOlder(steps[..|steps| - 1]);
      StepOlder(s, steps[|steps| - 1], s.round + 1);
    }
  }

  /** Steps of link, controller and host task alone: no new round begins or goes on. */
  predicate Onward(steps: seq<Step>) {
    forall i :: 0 <= i < |steps| ==> !steps[i].StartRound? && !steps[i].NextNoncePage?
  }

  predicate NoRestart(steps: seq<Step>) { forall i :: 0 <= i < |steps| ==> !steps[i].StartRound? }

  lemma {:induction false} RunFirst(s: State, step: Step, rest: seq<Step>)
    requires WellFormed(s)
    ensures Run(s, [step] + rest) == Run(Do(s, step), rest)
  {
    hide Do;
    var all := [step] + rest;
    if rest == [] {
      assert all[..0] == [] && Run(s, all[..0]) == s;
    } else {
      RunFirst(s, step, rest[..|rest| - 1]);
      assert all[..|all| - 1] == [step] + rest[..|rest| - 1];
    }
  }

  lemma {:induction false} OnwardOlder(s: State, steps: seq<Step>, round: nat)
    requires WellFormed(s) && AllOlder(s, round) && Onward(steps)
    ensures var t := Run(s, steps); AllOlder(t, round) && t.round == s.round
  {
    if steps != [] {
      OnwardOlder(s, steps[..|steps| - 1], round);
      StepOlder(Run(s, steps[..|steps| - 1]), steps[|steps| - 1], round);
    }
  }

  lemma {:induction false} ReadyArrives(s: State) returns (steps: seq<Step>)
    requires WellFormed(s) && Readies(s.down) > 0
    ensures Onward(steps) && Run(s, steps).a.ready
    decreases |s.down|
  {
    var t := Do(s, DeliverDown);
    var rest := [];
    if !s.down[0].Ready? {
      rest := ReadyArrives(t);
    } else {
      assert Run(t, []) == t;
    }
    RunFirst(s, DeliverDown, rest);
    steps := [DeliverDown] + rest;
  }

  lemma {:induction false} StreamEnds(s: State) returns (steps: seq<Step>)
    requires WellFormed(s) && Streaming(s.h)
    ensures Onward(steps) && Run(s, steps).a.ready
    decreases PAGES - s.h.sendPage
  {
    var t := Do(s, HostTask);
    var k := PageSent(s.h.sendPage, s.h.ready);
    var rest;
    if k == PAGES - 1 {
      ReadiesConcat(s.down + [Sig(k, s.h.pages[k])], [Ready]);
      rest := ReadyArrives(t);
    } else {
      rest := StreamEnds(t);
    }
    RunFirst(s, HostTask, rest);
    steps := [HostTask] + rest;
  }

  lemma SigningEnds(s: State) returns (steps: seq<Step>)
    requires WellFormed(s) && s.h.signing.Signs? && !s.h.ready
    ensures Onward(steps) && Run(s, steps).a.ready
  {
    var t := Do(s, HostTask);
    var u := Do(t, SignDone);
    var rest := StreamEnds(u);
    RunFirst(t, SignDone, rest);
    RunFirst(s, HostTask, [SignDone] + rest);
    steps := [HostTask] + ([SignDone] + rest);
  }

  lemma {:induction false} NonceArrives(s: State) returns (steps: seq<Step>)
    requires WellFormed(s) && Starts(s.up) > 0
    ensures Onward(steps) && Run(s, steps).a.ready
    decreases |s.up|
  {
    var t := Do(s, DeliverUp);
    var rest;
    if s.up[0].Nonce? && s.up[0].page == NONCE_PAGES - 1 {
      rest := SigningEnds(t);
    } else {
      rest := NonceArrives(t);
    }
    RunFirst(s, DeliverUp, rest);
    steps := [DeliverUp] + rest;
  }

  /** Whatever is left over can be driven to a READY. */
  lemma LeftoverBecomesReady(s: State) returns (steps: seq<Step>)
    requires WellFormed(s) && !Quiet(s) && (s.h.signing.Signs? ==> !s.h.ready)
    ensures Onward(steps) && Run(s, steps).a.ready
  {
    if Readies(s.down) > 0 {
      steps := ReadyArrives(s);
    } else if Streaming(s.h) {
      steps := StreamEnds(s);
    } else if s.h.signing.Signs? {
      steps := SigningEnds(s);
    } else {
      steps := NonceArrives(s);
    }
  }

  /** Ready means ready with this round's signature. */
  predicate Honest(s: State) { s.a.ready ==> s.a.pages == SigPages(s.round) }

  lemma {:induction false} SoundOnward(s: State, steps: seq<Step>)
    requires WellFormed(s) && Sound(s) && NoRestart(steps)
    ensures Sound(Run(s, steps))
  {
    if steps != [] {
      SoundOnward(s, steps[..|steps| - 1]);
      StepSound(Run(s, steps[..|steps| - 1]), steps[|steps| - 1]);
    }
  }

  lemma NoisyRestart(s: State) returns (more: seq<Step>)
    requires WellFormed(s) && AllOlder(s, s.round + 1) && !Quiet(s)
    ensures NoRestart(more) && !Honest(Run(Do(s, StartRound), more))
  {
    var t := Do(s, StartRound);
    StartsConcat(s.up, [Nonce(s.round + 1, 0)]);
    StepOlder(s, StartRound, s.round + 1);
    more := LeftoverBecomesReady(t);
    OnwardOlder(t, more, t.round);
    var u := Run(t, more);
    assert Older(u.a.pages[0], t.round) && SigPages(u.round)[0] == PageOf(t.round, 0);
  }

  /**
   The exact condition on a restart in any reachable state, earlier restarts of any kind behind
   it: the round it begins can only be answered with its own signature if and only if nothing was
   left that could still end in a READY. READY carries a nonce id, but the device takes it
   without comparing.
   */
  lemma RestartHonestIffQuiet(steps: seq<Step>)
    ensures var s := Run(Init(), steps);
            Quiet(s) <==> forall more {:trigger Run(Do(s, StartRound), more)} :: NoRestart(more) ==> Honest(Run(Do(s, StartRound), more))
  {
    var s := Run(Init(), steps);
    RunOlder(steps);
    if Quiet(s) {
      StartSound(s);
      forall more | NoRestart(more) ensures Honest(Run(Do(s, StartRound), more)) {
        SoundOnward(Do(s, StartRound), more);
      }
    } else {
      var more := NoisyRestart(s);
    }
  }

  /** A restart as soon as the device says ready is a good one, if the round that got ready began with one. */
  lemma RestartWhenReadyIsQuiet(steps: seq<Step>)
    requires LatestQuiet(steps) && Run(Init(), steps).a.ready
    ensures Quiet(Run(Init(), steps))
    ensures LatestQuiet(steps + [StartRound])
  {
    RunSound(steps);
    assert (steps + [StartRound])[..|steps|] == steps;
  }
}
