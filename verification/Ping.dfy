/**
  ping as a protocol: any number of pinging threads and the receiving thread,
  interleaved step by step. A timeout may fire at any time.
*/
module Ping {
  import opened Wrappers
  import opened Bytes
  import opened PacketCodec
  import opened CanFrames
  import opened CanBus

  datatype Result = NoAnswer | Rejected | HwType(hwType: byte)

  /** Where a pinger is; each step is one access to shared state. */
  datatype Pc =
    | Idle
    | Popping           // about to forget an old pong of this controller
    | Sending
    | Checking          // at the top of the loop
    | ClearingEvent
    | LookingFirst      // about to look for its pong
    | AboutToWait
    | Blocked           // inside Event.wait
    | LookingAgain
    | Done(result: Result)

  /** `since` is how many pongs had been recorded when the old one was forgotten. */
  datatype Pinger = Pinger(pc: Pc, controllerId: byte, since: nat)

  datatype Recorded = Recorded(responder: byte, hwType: byte)

  datatype State = State(
    pingers: seq<Pinger>,
    pongs: map<byte, byte>,
    event: bool,
    aboutToSet: bool,        // the receiving thread has recorded a pong and not yet set the event
    log: seq<Recorded>)      // all pongs recorded so far

  datatype SendOutcome = Sent | BusDead | CannotEncode

  datatype Move =
    | Call(controllerId: byte)
    | Pop
    | Send(outcome: SendOutcome)
    | Check(expired: bool)
    | ClearEvent
    | LookFirst
    | Wait
    | TimeOut
    | LookAgain

  datatype Action = Does(c: nat, move: Move) | RxMessage(msg: CanMessage) | RxSetEvent

  // ----- steps ------------------------------------------------------------------------

  predicate CanMove(pc: Pc, move: Move) {
    match move
    case Call(_) => pc.Idle? || pc.Done?
    case Pop => pc.Popping?
    case Send(_) => pc.Sending?
    case Check(_) => pc.Checking?
    case ClearEvent => pc.ClearingEvent?
    case LookFirst => pc.LookingFirst?
    case Wait => pc.AboutToWait?
    case TimeOut => pc.Blocked?
    case LookAgain => pc.LookingAgain?
  }

  predicate Enabled(s: State, a: Action) {
    match a
    case Does(c, move) => c < |s.pingers| && CanMove(s.pingers[c].pc, move)
    case RxMessage(_) => !s.aboutToSet
    case RxSetEvent => s.aboutToSet
  }

  /** The pong to this host that a message carries. */
  function PongIn(msg: CanMessage): Option<Recorded> {
    match DecodedMessage(msg)
    case Some(Pong(addressee, responder, hwType)) =>
      if addressee == HOST_ID then Some(Recorded(responder, hwType)) else None
    case _ => None
  }

  function Rx(s: State, msg: CanMessage): State {
    match PongIn(msg)
    case None => s
    case Some(p) => s.(pongs := s.pongs[p.responder := p.hwType], aboutToSet := true, log := s.log + [p])
  }

  /** Event.set wakes every thread that is blocked on the event. */
  function Woken(pingers: seq<Pinger>): (r: seq<Pinger>)
    ensures |r| == |pingers|
    ensures forall c :: 0 <= c < |pingers| ==>
      r[c] == if pingers[c].pc.Blocked? then pingers[c].(pc := LookingAgain) else pingers[c]
  {
    seq(|pingers|, c requires 0 <= c < |pingers| =>
      if pingers[c].pc.Blocked? then pingers[c].(pc := LookingAgain) else pingers[c])
  }

  function At(s: State, c: nat, pc: Pc): State
    requires c < |s.pingers|
  {
    s.(pingers := s.pingers[c := s.pingers[c].(pc := pc)])
  }

  /** Answer if the pong is there, go on otherwise. */
  function Look(s: State, c: nat, otherwise: Pc): State
    requires c < |s.pingers|
  {
    var id := s.pingers[c].controllerId;
    At(s, c, if id in s.pongs then Done(HwType(s.pongs[id])) else otherwise)
  }

  function Moved(s: State, c: nat, move: Move): State
    requires c < |s.pingers|
  {
    match move
    case Call(controllerId) => s.(pingers := s.pingers[c := Pinger(Popping, controllerId, 0)])
    case Pop =>
      var u := s.pingers[c];
      s.(pingers := s.pingers[c := u.(pc := Sending, since := |s.log|)], pongs := s.pongs - {u.controllerId})
    case Send(Sent) => At(s, c, Checking)
    case Send(BusDead) => At(s, c, Done(NoAnswer))
    case Send(CannotEncode) => At(s, c, Done(Rejected))
    case Check(expired) => At(s, c, if expired then Done(NoAnswer) else ClearingEvent)
    case ClearEvent => At(s, c, LookingFirst).(event := false)
    case LookFirst => Look(s, c, AboutToWait)
    case Wait => At(s, c, if s.event then LookingAgain else Blocked)
    case TimeOut => At(s, c, LookingAgain)
    case LookAgain => Look(s, c, Checking)
  }

  function Next(s: State, a: Action): State
    requires Enabled(s, a)
  {
    match a
    case Does(c, move) => Moved(s, c, move)
    case RxMessage(msg) => Rx(s, msg)
    case RxSetEvent => s.(pingers := Woken(s.pingers), event := true, aboutToSet := false)
  }

  /** The receiving thread's part of this protocol is what the bus does with a message:
      recording a pong and setting the event are its two steps. */
  lemma RxIsReceive(crc: Checker, bus: BusState, s: State, msg: CanMessage)
    requires !s.aboutToSet && bus.pongs == s.pongs && bus.pongEvent == s.event
    ensures var t := Next(s, RxMessage(msg));
      var u := if t.aboutToSet then Next(t, RxSetEvent) else t;
      Receive(crc, bus, msg).pongs == u.pongs && Receive(crc, bus, msg).pongEvent == u.event
  {
  }

  // ----- whole runs -----------------------------------------------------------------------

  function Start(n: nat): State {
    State(seq(n, _ => Pinger(Idle, 0, 0)), map[], false, false, [])
  }

  predicate IsRun(n: nat, actions: seq<Action>)
    decreases |actions|, 0
  {
    actions == []
    || (IsRun(n, actions[..|actions| - 1])
        && Enabled(After(n, actions[..|actions| - 1]), actions[|actions| - 1]))
  }

  function After(n: nat, actions: seq<Action>): State
    requires IsRun(n, actions)
    decreases |actions|, 1
  {
    if actions == [] then Start(n)
    else Next(After(n, actions[..|actions| - 1]), actions[|actions| - 1])
  }

  // ----- freshness -----------------------------------------------------------------------------

  predicate HasPopped(pc: Pc) {
    !pc.Idle? && !pc.Popping? && (pc.Done? ==> pc.result.HwType?)
  }

  predicate Since(s: State, since: nat, responder: byte, hwType: byte) {
    exists k :: since <= k < |s.log| && s.log[k] == Recorded(responder, hwType)
  }

  /** A pong that is there was recorded after this pinger forgot the old one. */
  predicate FreshOk(s: State, c: nat)
    requires c < |s.pingers|
  {
    var u := s.pingers[c];
    HasPopped(u.pc) ==>
      && u.since <= |s.log|
      && (!u.pc.Done? && u.controllerId in s.pongs ==> Since(s, u.since, u.controllerId, s.pongs[u.controllerId]))
      && (u.pc.Done? ==> Since(s, u.since, u.controllerId, u.pc.result.hwType))
  }

  lemma MovedShape(s: State, c: nat, move: Move)
    requires c < |s.pingers|
    ensures var t := Moved(s, c, move);
      && |t.pingers| == |s.pingers| && t.log == s.log && t.aboutToSet == s.aboutToSet
      && (forall d :: 0 <= d < |s.pingers| && d != c ==> t.pingers[d] == s.pingers[d])
      && (forall id :: id in t.pongs ==> id in s.pongs && t.pongs[id] == s.pongs[id])
  {
  }

  lemma SinceLater(s: State, t: State, since: nat, responder: byte, hwType: byte)
    requires s.log <= t.log && Since(s, since, responder, hwType)
    ensures Since(t, since, responder, hwType)
  {
    var k :| since <= k < |s.log| && s.log[k] == Recorded(responder, hwType);
    assert t.log[k] == s.log[k];
  }

  lemma RxKeepsFresh(s: State, msg: CanMessage, c: nat)
    requires c < |s.pingers| && FreshOk(s, c)
    ensures FreshOk(Rx(s, msg), c)
  {
    var u, t := s.pingers[c], Rx(s, msg);
    if HasPopped(u.pc) && PongIn(msg).Some? {
      assert t.log[|s.log|] == PongIn(msg).value;
      if u.pc.Done? {
        SinceLater(s, t, u.since, u.controllerId, u.pc.result.hwType);
      } else if u.controllerId in s.pongs {
        SinceLater(s, t, u.since, u.controllerId, s.pongs[u.controllerId]);
      }
    }
  }

  lemma OwnKeepsFresh(s: State, c: nat, move: Move)
    requires Enabled(s, Does(c, move)) && FreshOk(s, c)
    ensures FreshOk(Moved(s, c, move), c)
  {
    var u, t := s.pingers[c], Moved(s, c, move);
    MovedShape(s, c, move);
    if u.controllerId in s.pongs && HasPopped(u.pc) && !u.pc.Done? {
      SinceLater(s, t, u.since, u.controllerId, s.pongs[u.controllerId]);
    }
  }

  lemma StepKeepsFresh(s: State, a: Action, c: nat)
    requires Enabled(s, a) && c < |s.pingers| && FreshOk(s, c)
    ensures |Next(s, a).pingers| == |s.pingers| && FreshOk(Next(s, a), c)
  {
    match a {
      case Does(d, move) =>
        MovedShape(s, d, move);
        if c == d {
          OwnKeepsFresh(s, c, move);
        } else {
          OtherKeepsFresh(s, c, Moved(s, d, move));
        }
      case RxMessage(msg) => RxKeepsFresh(s, msg, c);
      case RxSetEvent => SetKeepsFresh(s, c);
    }
  }

  lemma OtherKeepsFresh(s: State, c: nat, t: State)
    requires c < |s.pingers| == |t.pingers| && t.pingers[c] == s.pingers[c] && t.log == s.log
    requires forall id :: id in t.pongs ==> id in s.pongs && t.pongs[id] == s.pongs[id]
    requires FreshOk(s, c)
    ensures FreshOk(t, c)
  {
    var u := s.pingers[c];
    if HasPopped(u.pc) {
      if u.pc.Done? {
        SinceLater(s, t, u.since, u.controllerId, u.pc.result.hwType);
      } else if u.controllerId in t.pongs {
        SinceLater(s, t, u.since, u.controllerId, s.pongs[u.controllerId]);
      }
    }
  }

  lemma SetKeepsFresh(s: State, c: nat)
    requires s.aboutToSet && c < |s.pingers| && FreshOk(s, c)
    ensures FreshOk(Next(s, RxSetEvent), c)
  {
    var u, t := s.pingers[c], Next(s, RxSetEvent);
    if HasPopped(u.pc) {
      if u.pc.Done? {
        SinceLater(s, t, u.since, u.controllerId, u.pc.result.hwType);
      } else if u.controllerId in t.pongs {
        SinceLater(s, t, u.since, u.controllerId, s.pongs[u.controllerId]);
      }
    }
  }

  lemma {:induction false} RunKeepsFresh(n: nat, actions: seq<Action>, c: nat)
    requires IsRun(n, actions) && c < |After(n, actions).pingers|
    ensures FreshOk(After(n, actions), c)
    decreases |actions|
  {
    if actions != [] {
      var before, a := actions[..|actions| - 1], actions[|actions| - 1];
      LogGrows(After(n, before), a);
      RunKeepsFresh(n, before, c);
      StepKeepsFresh(After(n, before), a, c);
    }
  }

  lemma LogGrows(s: State, a: Action)
    requires Enabled(s, a)
    ensures s.log <= Next(s, a).log && |Next(s, a).pingers| == |s.pingers|
  {
    if a.Does? {
      MovedShape(s, a.c, a.move);
    }
  }

  // ----- the same in terms of the run ------------------------------------------------------------

  predicate Calls(a: Action, c: nat) {
    a.Does? && a.c == c && a.move.Call?
  }

  /** Step i was this pinger forgetting the old pong, in its latest ping. */
  ghost predicate LastPop(n: nat, actions: seq<Action>, c: nat, i: nat)
    requires IsRun(n, actions)
  {
    && i < |actions| && actions[i] == Does(c, Pop)
    && forall x :: i < x < |actions| ==> !Calls(actions[x], c)
  }

  lemma SinceKept(s: State, a: Action, c: nat)
    requires Enabled(s, a) && a != Does(c, Pop) && c < |s.pingers| == |Next(s, a).pingers|
    requires HasPopped(Next(s, a).pingers[c].pc)
    ensures HasPopped(s.pingers[c].pc) && Next(s, a).pingers[c].since == s.pingers[c].since && !Calls(a, c)
  {
    if a.Does? {
      MovedShape(s, a.c, a.move);
    }
  }

  lemma {:induction false} PopWas(n: nat, actions: seq<Action>, c: nat) returns (i: nat)
    requires IsRun(n, actions)
    requires var s := After(n, actions); c < |s.pingers| && HasPopped(s.pingers[c].pc)
    ensures LastPop(n, actions, c, i)
    ensures IsRun(n, actions[..i])
    ensures |After(n, actions[..i]).log| == After(n, actions).pingers[c].since
    decreases |actions|
  {
    var last := |actions| - 1;
    var before := actions[..last];
    var s := After(n, before);
    LogGrows(s, actions[last]);
    if actions[last] == Does(c, Pop) {
      i := last;
    } else {
      SinceKept(s, actions[last], c);
      i := PopWas(n, before, c);
      assert before[..i] == actions[..i];
      assert forall x :: i < x < last ==> before[x] == actions[x];
    }
  }

  lemma {:induction false} RecordedWas(n: nat, actions: seq<Action>, k: nat) returns (m: nat)
    requires IsRun(n, actions) && k < |After(n, actions).log|
    ensures m < |actions| && IsRun(n, actions[..m]) && actions[m].RxMessage?
    ensures |After(n, actions[..m]).log| == k
    ensures PongIn(actions[m].msg) == Some(After(n, actions).log[k])
    decreases |actions|
  {
    var last := |actions| - 1;
    var before := actions[..last];
    var s := After(n, before);
    LogGrows(s, actions[last]);
    if actions[last].Does? {
      MovedShape(s, actions[last].c, actions[last].move);
    }
    if k < |s.log| {
      m := RecordedWas(n, before, k);
      assert before[..m] == actions[..m] && before[m] == actions[m];
    } else {
      m := last;
    }
  }

  lemma {:induction false} Prefix(n: nat, actions: seq<Action>, i: nat)
    requires IsRun(n, actions) && i <= |actions|
    ensures IsRun(n, actions[..i])
    ensures |After(n, actions[..i]).log| <= |After(n, actions).log|
    decreases |actions|
  {
    if i == |actions| {
      assert actions[..i] == actions;
    } else {
      var before := actions[..|actions| - 1];
      Prefix(n, before, i);
      assert before[..i] == actions[..i];
      LogGrows(After(n, before), actions[|actions| - 1]);
    }
  }

  lemma {:induction false} RecordGrows(n: nat, actions: seq<Action>, m: nat, i: nat)
    requires IsRun(n, actions) && m < i <= |actions| && actions[m].RxMessage?
    requires IsRun(n, actions[..m]) && IsRun(n, actions[..i]) && PongIn(actions[m].msg).Some?
    ensures |After(n, actions[..i]).log| > |After(n, actions[..m]).log|
  {
    Prefix(n, actions[..i], m + 1);
    var upTo := actions[..i][..m + 1];
    assert upTo[..m] == actions[..m] && upTo[m] == actions[m];
  }

  predicate HasAnswer(s: State, c: nat) {
    c < |s.pingers| && s.pingers[c].pc.Done? && s.pingers[c].pc.result.HwType?
  }

  /** In every run, with any number of pingers: a hardware type that is returned is
      that of a PONG to this host from the controller that was pinged, received
      (step m) after this ping forgot the old answer (step i). */
  lemma AnswerIsFresh(n: nat, actions: seq<Action>, c: nat) returns (i: nat, m: nat)
    requires IsRun(n, actions) && HasAnswer(After(n, actions), c)
    ensures LastPop(n, actions, c, i) && i < m < |actions| && actions[m].RxMessage?
    ensures var u := After(n, actions).pingers[c];
      PongIn(actions[m].msg) == Some(Recorded(u.controllerId, u.pc.result.hwType))
  {
    RunKeepsFresh(n, actions, c);
    var s := After(n, actions);
    var u := s.pingers[c];
    assert FreshOk(s, c);
    var k :| u.since <= k < |s.log| && s.log[k] == Recorded(u.controllerId, u.pc.result.hwType);
    i := PopWas(n, actions, c);
    m := RecordedWas(n, actions, k);
    if m < i {
      RecordGrows(n, actions, m, i);
    }
    assert m != i;
  }

  // ----- wakeups ------------------------------------------------------------------------------------

  /** With its pong recorded, a pinger does not sleep on: before it waits the event
      is set or about to be, and once it is blocked the wakeup is on its way. */
  predicate WakeOk(s: State, c: nat)
    requires c < |s.pingers|
  {
    var u := s.pingers[c];
    u.controllerId in s.pongs ==>
      && (u.pc.AboutToWait? ==> s.event || s.aboutToSet)
      && (u.pc.Blocked? ==> s.aboutToSet)
  }

  lemma {:induction false} RunKeepsWake(actions: seq<Action>)
    requires IsRun(1, actions)
    ensures |After(1, actions).pingers| == 1 && WakeOk(After(1, actions), 0)
    decreases |actions|
  {
    if actions != [] {
      var before, a := actions[..|actions| - 1], actions[|actions| - 1];
      RunKeepsWake(before);
      LogGrows(After(1, before), a);
    }
  }

  /** A single pinger never loses a wakeup: with its pong recorded, it waits only when
      the event is set or about to be, and is blocked only with the wakeup on its way. */
  lemma {:induction false} NoLostWakeup(actions: seq<Action>)
    requires IsRun(1, actions)
    ensures var s := After(1, actions);
      && |s.pingers| == 1
      && (s.pingers[0].pc.Blocked? && s.pingers[0].controllerId in s.pongs ==> s.aboutToSet)
      && (s.pingers[0].pc.AboutToWait? && s.pingers[0].controllerId in s.pongs ==> s.event || s.aboutToSet)
  {
    RunKeepsWake(actions);
  }

  lemma {:induction false} Extend(n: nat, actions: seq<Action>, a: Action)
    requires IsRun(n, actions) && Enabled(After(n, actions), a)
    ensures IsRun(n, actions + [a]) && After(n, actions + [a]) == Next(After(n, actions), a)
  {
    assert (actions + [a])[..|actions|] == actions;
  }

  /** Blocked with the answer there, and nobody about to wake it. */
  predicate SleepsOn(s: State, c: nat) {
    && c < |s.pingers| && s.pingers[c].pc.Blocked? && s.pingers[c].controllerId in s.pongs
    && !s.aboutToSet
  }

  /** Two pingers share one event, and one of them can clear the other's wakeup:
      c has looked in vain and is about to wait, its pong is recorded and announced,
      and then d clears the event. c blocks with its answer already there. */
  lemma WakeupLostToAnother(n: nat, actions: seq<Action>, c: nat, d: nat, msg: CanMessage) returns (more: seq<Action>)
    requires IsRun(n, actions)
    requires var s := After(n, actions);
      && c < |s.pingers| && d < |s.pingers| && c != d && !s.aboutToSet
      && s.pingers[c].pc.AboutToWait? && s.pingers[d].pc.ClearingEvent?
      && PongIn(msg).Some? && PongIn(msg).value.responder == s.pingers[c].controllerId
    ensures IsRun(n, actions + more)
    ensures SleepsOn(After(n, actions + more), c) && !After(n, actions + more).event
  {
    var a0, a1, a2, a3 := RxMessage(msg), RxSetEvent, Does(d, ClearEvent), Does(c, Wait);
    var r0 := actions + [a0];
    var r1 := r0 + [a1];
    var r2 := r1 + [a2];
    Extend(n, actions, a0);
    Extend(n, r0, a1);
    Extend(n, r1, a2);
    Extend(n, r2, a3);
    more := [a0, a1, a2, a3];
    assert actions + more == r2 + [a3];
  }

  /** Pinger c alone gets as far as the top of its loop. */
  lemma ReachClearing(n: nat, actions: seq<Action>, c: nat, id: byte) returns (more: seq<Action>)
    requires IsRun(n, actions) && c < |After(n, actions).pingers| && After(n, actions).pingers[c].pc.Idle?
    ensures IsRun(n, actions + more)
    ensures more == [Does(c, Call(id)), Does(c, Pop), Does(c, Send(Sent)), Does(c, Check(false))]
    ensures var s := After(n, actions);
      After(n, actions + more)
      == s.(pingers := s.pingers[c := Pinger(ClearingEvent, id, |s.log|)], pongs := s.pongs - {id})
  {
    var r0 := actions + [Does(c, Call(id))];
    var r1 := r0 + [Does(c, Pop)];
    var r2 := r1 + [Does(c, Send(Sent))];
    Extend(n, actions, Does(c, Call(id)));
    Extend(n, r0, Does(c, Pop));
    Extend(n, r1, Does(c, Send(Sent)));
    Extend(n, r2, Does(c, Check(false)));
    more := [Does(c, Call(id)), Does(c, Pop), Does(c, Send(Sent)), Does(c, Check(false))];
    assert actions + more == r2 + [Does(c, Check(false))];
  }

  /** Any two or more pingers can get into that position. */
  lemma WindowExists(n: nat, x: byte, y: byte) returns (actions: seq<Action>)
    requires n >= 2
    ensures IsRun(n, actions)
    ensures var s := After(n, actions);
      && |s.pingers| == n && !s.aboutToSet
      && s.pingers[0].pc.AboutToWait? && s.pingers[0].controllerId == x && s.pingers[1].pc.ClearingEvent?
  {
    var a := ReachClearing(n, [], 0, x);
    assert [] + a == a;
    var b := a + [Does(0, ClearEvent)];
    Extend(n, a, Does(0, ClearEvent));
    Extend(n, b, Does(0, LookFirst));
    var c := b + [Does(0, LookFirst)];
    var more := ReachClearing(n, c, 1, y);
    actions := c + more;
  }

  /** A PONG to this host, as it comes in. */
  function PongMessage(responder: byte, hwType: byte): (msg: CanMessage)
    ensures PongIn(msg) == Some(Recorded(responder, hwType))
  {
    CanMessage(true, 256 * PONG + HOST_ID, [responder, hwType], 0)
  }

  lemma {:induction false} PingerCount(n: nat, actions: seq<Action>)
    requires IsRun(n, actions)
    ensures |After(n, actions).pingers| == n
    decreases |actions|
  {
    if actions != [] {
      var before, a := actions[..|actions| - 1], actions[|actions| - 1];
      PingerCount(n, before);
      LogGrows(After(n, before), a);
    }
  }

  /** No run of n pingers leaves one asleep with its answer there. */
  ghost predicate NeverSleepsOn(n: nat) {
    forall actions, c: nat :: IsRun(n, actions) ==> !SleepsOn(After(n, actions), c)
  }

  /** That is so exactly when there are no two pingers. */
  lemma NeverSleepsOnIff(n: nat)
    ensures NeverSleepsOn(n) <==> n <= 1
  {
    if n <= 1 {
      forall actions, c: nat | IsRun(n, actions)
        ensures !SleepsOn(After(n, actions), c)
      {
        PingerCount(n, actions);
        if n == 1 {
          NoLostWakeup(actions);
        }
      }
    } else {
      var window := WindowExists(n, 1, 2);
      var more := WakeupLostToAnother(n, window, 0, 1, PongMessage(1, 0));
      assert SleepsOn(After(n, window + more), 0);
    }
  }

  // ----- answers lost to another ping -------------------------------------------------------

  /** A pong of the controller being pinged was recorded since this ping forgot the old
      one, and the ping that is still looking for it cannot find it. */
  ghost predicate Misses(s: State, c: nat) {
    && c < |s.pingers|
    && var u := s.pingers[c];
    && HasPopped(u.pc) && !u.pc.Done? && u.controllerId !in s.pongs
    && RespondedSince(s, u.since, u.controllerId)
  }

  predicate RespondedSince(s: State, since: nat, responder: byte) {
    exists k :: since <= k < |s.log| && s.log[k].responder == responder
  }

  /** Pinger c pings only the controllers of targets[c]. */
  predicate Aims(targets: seq<set<byte>>, a: Action) {
    a.Does? && a.move.Call? && a.c < |targets| ==> a.move.controllerId in targets[a.c]
  }

  predicate AllAim(targets: seq<set<byte>>, actions: seq<Action>) {
    forall x :: 0 <= x < |actions| ==> Aims(targets, actions[x])
  }

  predicate Disjoint(targets: seq<set<byte>>) {
    forall c, d :: 0 <= c < d < |targets| ==> targets[c] !! targets[d]
  }

  /** A pinger at work pings one of its targets, and misses nothing. */
  ghost predicate AimOk(targets: seq<set<byte>>, s: State, c: nat) {
    && c < |s.pingers| == |targets|
    && (!s.pingers[c].pc.Idle? ==> s.pingers[c].controllerId in targets[c])
    && !Misses(s, c)
  }

  lemma RespondedLater(s: State, t: State, since: nat, id: byte)
    requires s.log <= t.log && RespondedSince(t, since, id) && |t.log| <= |s.log| + 1
    requires |t.log| == |s.log| || t.log[|s.log|].responder != id
    ensures RespondedSince(s, since, id)
  {
    var k :| since <= k < |t.log| && t.log[k].responder == id;
    assert k < |s.log| && s.log[k] == t.log[k];
  }

  lemma OwnKeepsAim(targets: seq<set<byte>>, s: State, c: nat, move: Move)
    requires Enabled(s, Does(c, move)) && Aims(targets, Does(c, move)) && AimOk(targets, s, c)
    ensures AimOk(targets, Moved(s, c, move), c)
  {
    var t := Moved(s, c, move);
    MovedShape(s, c, move);
    if Misses(t, c) && !move.Pop? {
      RespondedLater(s, t, t.pingers[c].since, t.pingers[c].controllerId);
    }
  }

  lemma OtherKeepsAim(targets: seq<set<byte>>, s: State, c: nat, d: nat, move: Move)
    requires Disjoint(targets) && Enabled(s, Does(d, move)) && c != d
    requires AimOk(targets, s, c) && AimOk(targets, s, d)
    ensures AimOk(targets, Moved(s, d, move), c)
  {
    var u, t := s.pingers[c], Moved(s, d, move);
    MovedShape(s, d, move);
    assert targets[c] !! targets[d];
    assert HasPopped(u.pc) && move.Pop? ==> s.pingers[d].controllerId != u.controllerId;
    if Misses(t, c) {
      RespondedLater(s, t, u.since, u.controllerId);
    }
  }

  lemma RxKeepsAim(targets: seq<set<byte>>, s: State, a: Action, c: nat)
    requires Enabled(s, a) && !a.Does? && AimOk(targets, s, c)
    ensures AimOk(targets, Next(s, a), c)
  {
    var t := Next(s, a);
    LogGrows(s, a);
    if Misses(t, c) {
      RespondedLater(s, t, t.pingers[c].since, t.pingers[c].controllerId);
    }
  }

  lemma {:induction false} RunKeepsAim(targets: seq<set<byte>>, actions: seq<Action>, c: nat)
    requires IsRun(|targets|, actions) && AllAim(targets, actions) && Disjoint(targets) && c < |targets|
    ensures AimOk(targets, After(|targets|, actions), c)
    decreases |actions|
  {
    var n := |targets|;
    if actions != [] {
      var before, a := actions[..|actions| - 1], actions[|actions| - 1];
      var s := After(n, before);
      assert forall x :: 0 <= x < |before| ==> before[x] == actions[x];
      RunKeepsAim(targets, before, c);
      assert Aims(targets, a);
      if !a.Does? {
        RxKeepsAim(targets, s, a, c);
      } else if a.c == c {
        OwnKeepsAim(targets, s, c, a.move);
      } else {
        RunKeepsAim(targets, before, a.c);
        OtherKeepsAim(targets, s, c, a.c, a.move);
      }
    }
  }

  /** No run in which every pinger keeps to its targets makes one miss its answer. */
  ghost predicate NeverMisses(targets: seq<set<byte>>) {
    forall actions, c: nat ::
      IsRun(|targets|, actions) && AllAim(targets, actions) ==> !Misses(After(|targets|, actions), c)
  }

  lemma Blocks(n: nat, actions: seq<Action>, c: nat) returns (more: seq<Action>)
    requires IsRun(n, actions)
    requires var s := After(n, actions);
      c < |s.pingers| && s.pingers[c].pc.ClearingEvent? && s.pingers[c].controllerId !in s.pongs
    ensures IsRun(n, actions + more) && more == [Does(c, ClearEvent), Does(c, LookFirst), Does(c, Wait)]
    ensures var s := After(n, actions);
      After(n, actions + more)
      == s.(pingers := s.pingers[c := s.pingers[c].(pc := Blocked)], event := false)
  {
    var r0 := actions + [Does(c, ClearEvent)];
    var r1 := r0 + [Does(c, LookFirst)];
    Extend(n, actions, Does(c, ClearEvent));
    Extend(n, r0, Does(c, LookFirst));
    Extend(n, r1, Does(c, Wait));
    more := [Does(c, ClearEvent), Does(c, LookFirst), Does(c, Wait)];
    assert actions + more == r1 + [Does(c, Wait)];
  }

  /** Two pings of the same controller: pinger c is woken by its pong, and before it looks,
      pinger d begins a ping and forgets that pong. */
  lemma AnswerForgotten(n: nat, c: nat, d: nat, id: byte) returns (actions: seq<Action>)
    requires c < n && d < n && c != d
    ensures IsRun(n, actions)
    ensures forall x :: 0 <= x < |actions| ==> (actions[x].Does? && actions[x].move.Call?
              ==> actions[x].c in {c, d} && actions[x].move.controllerId == id)
    ensures Misses(After(n, actions), c) && After(n, actions).pingers[c].pc.LookingAgain?
  {
    var a0 := ReachClearing(n, [], c, id);
    assert [] + a0 == a0;
    var a1 := Blocks(n, a0, c);
    var r1 := a0 + a1;
    var r2 := r1 + [RxMessage(PongMessage(id, 0))];
    Extend(n, r1, RxMessage(PongMessage(id, 0)));
    Extend(n, r2, RxSetEvent);
    var r3 := r2 + [RxSetEvent];
    var a4 := ReachClearing(n, r3, d, id);
    actions := r3 + a4;
    var t := After(n, actions);
    assert t.log[0].responder == id;
  }

  /** So exactly disjoint targets are safe. */
  lemma NeverMissesIff(targets: seq<set<byte>>)
    ensures NeverMisses(targets) <==> Disjoint(targets)
  {
    var n := |targets|;
    if Disjoint(targets) {
      forall actions, c: nat | IsRun(n, actions) && AllAim(targets, actions)
        ensures !Misses(After(n, actions), c)
      {
        PingerCount(n, actions);
        if c < n {
          RunKeepsAim(targets, actions, c);
        }
      }
    } else {
      var c, d :| 0 <= c < d < n && !(targets[c] !! targets[d]);
      var id :| id in targets[c] && id in targets[d];
      var actions := AnswerForgotten(n, c, d, id);
      assert AllAim(targets, actions);
      assert Misses(After(n, actions), c);
    }
  }

  // ----- how a ping ends --------------------------------------------------------------------

  /** The last step this pinger took. */
  function LastMove(actions: seq<Action>, c: nat): Option<Move> {
    if actions == [] then None
    else
      var a := actions[|actions| - 1];
      if a.Does? && a.c == c then Some(a.move) else LastMove(actions[..|actions| - 1], c)
  }

  /** How a pinger's last step shows in where it is. */
  predicate EndsAs(pc: Pc, last: Option<Move>) {
    && (pc == Done(NoAnswer) <==> last == Some(Check(true)) || last == Some(Send(BusDead)))
    && (pc == Done(Rejected) <==> last == Some(Send(CannotEncode)))
    && (pc.Done? && pc.result.HwType? ==> last == Some(LookFirst) || last == Some(LookAgain))
  }

  lemma MoveEnds(s: State, c: nat, move: Move)
    requires Enabled(s, Does(c, move))
    ensures EndsAs(Moved(s, c, move).pingers[c].pc, Some(move))
  {
  }

  lemma OthersKeepPc(s: State, a: Action, c: nat)
    requires Enabled(s, a) && c < |s.pingers| && !(a.Does? && a.c == c)
    ensures c < |Next(s, a).pingers|
    ensures var u, v := s.pingers[c], Next(s, a).pingers[c];
      v == u || (a.RxSetEvent? && u.pc.Blocked? && v == u.(pc := LookingAgain))
  {
    if a.Does? {
      MovedShape(s, a.c, a.move);
    }
  }

  /** In every run, a ping ends without an answer exactly when its last step found the
      time up or the bus dead; and it is rejected exactly when the id cannot be encoded. */
  lemma {:induction false} EndsWithoutAnswerIff(n: nat, actions: seq<Action>, c: nat)
    requires IsRun(n, actions) && c < n
    ensures c < |After(n, actions).pingers|
    ensures EndsAs(After(n, actions).pingers[c].pc, LastMove(actions, c))
    decreases |actions|
  {
    if actions != [] {
      var before, a := actions[..|actions| - 1], actions[|actions| - 1];
      EndsWithoutAnswerIff(n, before, c);
      var s := After(n, before);
      if a.Does? && a.c == c {
        MoveEnds(s, c, a.move);
        LogGrows(s, a);
      } else {
        OthersKeepPc(s, a, c);
      }
    }
  }

  /** The pinger runs into its deadline, cannot send, or begins another ping. */
  predicate GivesUp(a: Action, c: nat) {
    a.Does? && a.c == c
    && (a.move.Call? || a.move == Check(true) || a.move == Send(BusDead) || a.move == Send(CannotEncode))
  }

  predicate Patient(actions: seq<Action>, c: nat) {
    forall x :: 0 <= x < |actions| ==> !GivesUp(actions[x], c)
  }

  /** How many steps of this pinger there are. */
  function OwnMoves(actions: seq<Action>, c: nat): nat {
    if actions == [] then 0
    else
      var a := actions[|actions| - 1];
      OwnMoves(actions[..|actions| - 1], c) + if a.Does? && a.c == c then 1 else 0
  }

  predicate Looks(pc: Pc) {
    !pc.Idle? && !pc.Popping? && !pc.Done?
  }

  /** How many of its own steps a pinger needs at most to return an answer that is there. */
  function StepsLeft(pc: Pc): nat {
    match pc
    case Sending => 4
    case Checking => 3
    case AboutToWait => 3
    case ClearingEvent => 2
    case Blocked => 2
    case _ => 1
  }

  /** The pinger is on its way to the answer, or has returned one. */
  ghost predicate Answering(s: State, c: nat, controllerId: byte, moves: nat) {
    && c < |s.pingers| && s.pingers[c].controllerId == controllerId
    && (HasAnswer(s, c)
        || (Looks(s.pingers[c].pc) && RespondedSince(s, s.pingers[c].since, controllerId)
            && moves + StepsLeft(s.pingers[c].pc) <= 4))
  }

  lemma RespondedStill(s: State, t: State, since: nat, id: byte)
    requires s.log <= t.log && RespondedSince(s, since, id)
    ensures RespondedSince(t, since, id)
  {
    var k :| since <= k < |s.log| && s.log[k].responder == id;
    assert t.log[k] == s.log[k];
  }

  lemma OwnAnsweringStep(s: State, c: nat, move: Move, id: byte, moves: nat)
    requires Enabled(s, Does(c, move)) && !GivesUp(Does(c, move), c) && !Misses(s, c)
    requires Answering(s, c, id, moves)
    ensures Answering(Moved(s, c, move), c, id, moves + 1)
  {
    MovedShape(s, c, move);
    if Looks(s.pingers[c].pc) {
      RespondedStill(s, Moved(s, c, move), s.pingers[c].since, id);
    }
  }

  lemma AnsweringStep(s: State, a: Action, c: nat, id: byte, moves: nat)
    requires Enabled(s, a) && c < |s.pingers| && !GivesUp(a, c) && !Misses(s, c)
    requires Answering(s, c, id, moves)
    ensures Answering(Next(s, a), c, id, moves + if a.Does? && a.c == c then 1 else 0)
  {
    if a.Does? && a.c == c {
      OwnAnsweringStep(s, c, a.move, id, moves);
    } else {
      OthersKeepPc(s, a, c);
      LogGrows(s, a);
      if Looks(s.pingers[c].pc) {
        RespondedStill(s, Next(s, a), s.pingers[c].since, id);
      }
    }
  }

  /** Without its last step, it is still a run of pingers that aim. */
  lemma {:induction false} LastStep(targets: seq<set<byte>>, actions: seq<Action>, more: seq<Action>,
                                    before: seq<Action>, a: Action)
    requires more != [] && before == actions + more[..|more| - 1] && a == more[|more| - 1]
    requires IsRun(|targets|, actions + more) && AllAim(targets, actions + more)
    ensures IsRun(|targets|, before) && AllAim(targets, before) && Enabled(After(|targets|, before), a)
    ensures After(|targets|, actions + more) == Next(After(|targets|, before), a)
  {
    var all := actions + more;
    assert all[..|all| - 1] == before && all[|all| - 1] == a;
    assert forall x :: 0 <= x < |before| ==> before[x] == all[x];
  }

  lemma {:induction false} StaysAnswering(targets: seq<set<byte>>, actions: seq<Action>, more: seq<Action>, c: nat,
                                          id: byte)
    requires Disjoint(targets) && c < |targets| && AllAim(targets, actions + more)
    requires IsRun(|targets|, actions) && IsRun(|targets|, actions + more) && Patient(more, c)
    requires Answering(After(|targets|, actions), c, id, 0)
    ensures Answering(After(|targets|, actions + more), c, id, OwnMoves(more, c))
    decreases |more|
  {
    if more == [] {
      assert actions + more == actions;
    } else {
      var k := |more| - 1;
      var before, a := actions + more[..k], more[k];
      LastStep(targets, actions, more, before, a);
      StaysAnswering(targets, actions, more[..k], c, id);
      RunKeepsAim(targets, before, c);
      assert !GivesUp(a, c);
      AnsweringStep(After(|targets|, before), a, c, id, OwnMoves(more[..k], c));
    }
  }

  lemma {:induction false} PongStartsAnswer(n: nat, actions: seq<Action>, msg: CanMessage, c: nat)
    requires IsRun(n, actions) && IsRun(n, actions + [RxMessage(msg)])
    requires var s := After(n, actions);
      c < |s.pingers| && Looks(s.pingers[c].pc) && PongIn(msg).Some?
      && PongIn(msg).value.responder == s.pingers[c].controllerId
    ensures Answering(After(n, actions + [RxMessage(msg)]), c, After(n, actions).pingers[c].controllerId, 0)
  {
    var s, all := After(n, actions), actions + [RxMessage(msg)];
    assert all[..|all| - 1] == actions;
    RunKeepsFresh(n, actions, c);
    assert FreshOk(s, c);
    var t := After(n, all);
    assert t.log[|s.log|].responder == s.pingers[c].controllerId;
  }

  /** Every schedule answers: no two pingers ping the same controller, and while pinger c
      is looking for its answer a PONG of its controller comes in. Whatever else happens,
      unless it runs into its deadline, cannot send or begins anew, it has returned an
      answer after four more steps of its own; the answer is that of a PONG of its
      controller received (step m) after it forgot the old one (step i). */
  lemma EveryScheduleAnswers(targets: seq<set<byte>>, actions: seq<Action>, msg: CanMessage, more: seq<Action>, c: nat)
      returns (i: nat, m: nat)
    requires Disjoint(targets) && c < |targets| && IsRun(|targets|, actions)
    requires var all := actions + [RxMessage(msg)] + more; IsRun(|targets|, all) && AllAim(targets, all)
    requires var s := After(|targets|, actions);
      c < |s.pingers| && Looks(s.pingers[c].pc) && PongIn(msg).Some?
      && PongIn(msg).value.responder == s.pingers[c].controllerId
    requires Patient(more, c) && OwnMoves(more, c) >= 4
    ensures var all, id := actions + [RxMessage(msg)] + more, After(|targets|, actions).pingers[c].controllerId;
      && LastPop(|targets|, all, c, i) && i < m < |all| && all[m].RxMessage?
      && PongIn(all[m].msg).Some? && PongIn(all[m].msg).value.responder == id
      && c < |After(|targets|, all).pingers|
      && After(|targets|, all).pingers[c].pc == Done(HwType(PongIn(all[m].msg).value.hwType))
  {
    var n := |targets|;
    var here := actions + [RxMessage(msg)];
    Prefix(n, here + more, |here|);
    assert (here + more)[..|here|] == here;
    PongStartsAnswer(n, actions, msg, c);
    StaysAnswering(targets, here, more, c, After(n, actions).pingers[c].controllerId);
    i, m := AnswerIsFresh(n, here + more, c);
  }
}
