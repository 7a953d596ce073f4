/**
  comm_request as a protocol: any number of caller threads, one lock, and the
  receiving thread, interleaved step by step. A timeout may fire at any time.
*/
module CommRequest {
  import opened Wrappers
  import opened Bytes
  import opened PacketCodec
  import opened CanFrames
  import opened CanBus

  datatype Result =
    | NoReply                    // timed out, or the bus is dead
    | Rejected                   // the payload or the controller id cannot be encoded
    | Returned(payload: bytes)
    | Crashed                    // unpacking a reply that is not there

  /** Where a caller is; each step is one access to shared state. */
  datatype Pc =
    | Idle
    | Locking
    | Resetting       // has the lock, about to forget the old reply
    | Clearing        // about to clear the event
    | Sending
    | Checking        // at the top of the loop
    | Waiting
    | Testing         // about to test the reply for None
    | Unpacking       // about to read it again
    | Dropping        // about to forget someone else's reply
    | ClearingAgain
    | Done(result: Result)

  /** `since` is how many replies had been stored when the caller forgot the old one,
      `cleared` how many had been announced when it cleared the event. */
  datatype Caller = Caller(pc: Pc, controllerId: byte, since: nat, cleared: nat)

  /** A reply that the receiving thread stored, and the frame that completed it. */
  datatype Publication = Publication(reply: Reply, at: nat)

  datatype State = State(
    callers: seq<Caller>,
    lock: Option<nat>,
    reply: Option<Reply>,
    event: bool,
    aboutToSet: bool,          // the receiving thread has stored a reply and not yet set the event
    buf: bytes,
    frames: seq<VescFrame>,    // all tunnel frames received so far
    log: seq<Publication>)     // all replies stored so far

  datatype SendOutcome = MoreToSend | AllSent | BusDead | CannotEncode

  datatype Move =
    | Call(controllerId: byte)
    | Acquire
    | Reset
    | Clear
    | Send(outcome: SendOutcome)
    | Check(expired: bool)
    | Wake
    | Test
    | Unpack
    | Drop
    | ClearAgain

  datatype Action = Does(c: nat, move: Move) | RxFrame(f: VescFrame) | RxSetEvent

  // ----- steps ----------------------------------------------------------------------

  predicate CanMove(pc: Pc, locked: bool, move: Move) {
    match move
    case Call(_) => pc.Idle? || pc.Done?
    case Acquire => pc.Locking? && !locked
    case Reset => pc.Resetting?
    case Clear => pc.Clearing?
    case Send(_) => pc.Sending?
    case Check(_) => pc.Checking?
    case Wake => pc.Waiting?
    case Test => pc.Testing?
    case Unpack => pc.Unpacking?
    case Drop => pc.Dropping?
    case ClearAgain => pc.ClearingAgain?
  }

  predicate Enabled(s: State, a: Action) {
    match a
    case Does(c, move) => c < |s.callers| && CanMove(s.callers[c].pc, s.lock.Some?, move)
    case RxFrame(_) => !s.aboutToSet
    case RxSetEvent => s.aboutToSet
  }

  function At(s: State, c: nat, pc: Pc): State
    requires c < |s.callers|
  {
    s.(callers := s.callers[c := s.callers[c].(pc := pc)])
  }

  /** Leaving the request releases the lock. */
  function Leave(s: State, c: nat, result: Result): State
    requires c < |s.callers|
  {
    At(s, c, Done(result)).(lock := None)
  }

  /** The reply a frame completes, given what the buffer holds. */
  function Completes(crc: Checker, buf: bytes, f: VescFrame): Option<Reply> {
    TunnelStep(crc, TunnelState(buf, None, false), PacketIdOf(f.arbitrationId), f.data).reply
  }

  function BufferAfter(crc: Checker, buf: bytes, f: VescFrame): bytes {
    TunnelStep(crc, TunnelState(buf, None, false), PacketIdOf(f.arbitrationId), f.data).buf
  }

  function Rx(crc: Checker, s: State, f: VescFrame): State {
    var t := s.(buf := BufferAfter(crc, s.buf, f), frames := s.frames + [f]);
    match Completes(crc, s.buf, f)
    case None => t
    case Some(r) => t.(reply := Some(r), aboutToSet := true, log := s.log + [Publication(r, |s.frames|)])
  }

  /** How many of the stored replies have had their event set. */
  function Announced(s: State): nat {
    if s.aboutToSet && s.log != [] then |s.log| - 1 else |s.log|
  }

  /** A step of caller c. */
  function Moved(s: State, c: nat, move: Move): State
    requires c < |s.callers|
  {
    match move
    case Call(controllerId) => s.(callers := s.callers[c := Caller(Locking, controllerId, 0, 0)])
    case Acquire => At(s, c, Resetting).(lock := Some(c))
    case Reset => s.(callers := s.callers[c := s.callers[c].(pc := Clearing, since := |s.log|)], reply := None)
    case Clear => s.(callers := s.callers[c := s.callers[c].(pc := Sending, cleared := Announced(s))], event := false)
    case Send(MoreToSend) => s
    case Send(AllSent) => At(s, c, Checking)
    case Send(BusDead) => Leave(s, c, NoReply)
    case Send(CannotEncode) => Leave(s, c, Rejected)
    case Check(expired) => if expired then Leave(s, c, NoReply) else At(s, c, Waiting)
    case Wake => At(s, c, Testing)
    case Test => At(s, c, if s.reply.Some? then Unpacking else Checking)
    case Unpack =>
      (match s.reply
       case None => Leave(s, c, Crashed)
       case Some(r) =>
         if r.sender == s.callers[c].controllerId then Leave(s, c, Returned(r.payload)) else At(s, c, Dropping))
    case Drop => At(s, c, ClearingAgain).(reply := None)
    case ClearAgain => At(s, c, Checking).(event := false)
  }

  function Next(crc: Checker, s: State, a: Action): State
    requires Enabled(s, a)
  {
    match a
    case Does(c, move) => Moved(s, c, move)
    case RxFrame(f) => Rx(crc, s, f)
    case RxSetEvent => s.(event := true, aboutToSet := false)
  }

  /** The receiving thread's part of this protocol is what the bus does with a tunnel
      message: storing a reply and setting the event are its two steps. */
  lemma RxIsReceive(crc: Checker, bus: BusState, s: State, msg: CanMessage)
    requires ForTunnel(msg) && !s.aboutToSet
    requires bus.tunnel == TunnelState(s.buf, s.reply, s.event)
    ensures var f := VescFrame(msg.arbitrationId, msg.data);
      var t := Next(crc, s, RxFrame(f));
      var u := if t.aboutToSet then Next(crc, t, RxSetEvent) else t;
      Receive(crc, bus, msg).tunnel == TunnelState(u.buf, u.reply, u.event)
  {
  }

  // ----- what every step keeps ----------------------------------------------------------

  predicate InRequest(pc: Pc) {
    !(pc.Idle? || pc.Locking? || pc.Done?)
  }

  predicate HasReset(pc: Pc) {
    InRequest(pc) && !pc.Resetting?
  }

  predicate HasCleared(pc: Pc) {
    HasReset(pc) && !pc.Clearing?
  }

  /** At most one request is under way: the one that holds the lock. */
  predicate LockHeld(s: State, c: nat)
    requires c < |s.callers|
  {
    InRequest(s.callers[c].pc) <==> s.lock == Some(c)
  }

  predicate ReplyIsLast(s: State, since: nat) {
    && since <= |s.log|
    && (s.reply.Some? ==> since < |s.log| && s.reply.value == s.log[|s.log| - 1].reply)
  }

  /** Some reply from this controller was stored with at least `since` before it. */
  predicate RepliedSince(s: State, since: nat, r: Reply) {
    exists k :: since <= k < |s.log| && s.log[k].reply == r
  }

  predicate CallerOk(s: State, c: nat)
    requires c < |s.callers|
  {
    var u := s.callers[c];
    && LockHeld(s, c)
    && (HasReset(u.pc) ==> ReplyIsLast(s, u.since))
    && (u.pc.Unpacking? ==> s.reply.Some?)
    && (u.pc.Done? && u.pc.result.Returned? ==> RepliedSince(s, u.since, Reply(u.controllerId, u.pc.result.payload)))
    && u.pc != Done(Crashed)
  }

  /** Every reply in the log was completed by a frame that was really received,
      from the contents of the buffer at that time. */
  predicate LogOk(crc: Checker, s: State) {
    && s.buf == BufferOf(crc, s.frames)
    && forall k :: 0 <= k < |s.log| ==> Genuine(crc, s.frames, s.log[k])
  }

  function BufferOf(crc: Checker, frames: seq<VescFrame>): bytes {
    if frames == [] then seq(BUFFER_SIZE, _ => 0)
    else
      var n := |frames| - 1;
      BufferAfter(crc, BufferOf(crc, frames[..n]), frames[n])
  }

  predicate Genuine(crc: Checker, frames: seq<VescFrame>, p: Publication) {
    && p.at < |frames|
    && Completes(crc, BufferOf(crc, frames[..p.at]), frames[p.at]) == Some(p.reply)
  }

  ghost predicate Invariant(crc: Checker, s: State) {
    && LogOk(crc, s)
    && forall c :: 0 <= c < |s.callers| ==> CallerOk(s, c)
  }

  lemma RxKeepsLog(crc: Checker, s: State, f: VescFrame)
    requires LogOk(crc, s)
    ensures LogOk(crc, Rx(crc, s, f))
  {
    var t := Rx(crc, s, f);
    assert t.frames[..|s.frames|] == s.frames;
    forall k | 0 <= k < |t.log|
      ensures Genuine(crc, t.frames, t.log[k])
    {
      if k < |s.log| {
        var at := s.log[k].at;
        assert Genuine(crc, s.frames, s.log[k]);
        assert t.frames[..at] == s.frames[..at] && t.frames[at] == s.frames[at];
      }
    }
  }

  lemma RxKeepsCaller(crc: Checker, s: State, f: VescFrame, c: nat)
    requires c < |s.callers| && CallerOk(s, c)
    ensures CallerOk(Rx(crc, s, f), c)
  {
    var u, t := s.callers[c], Rx(crc, s, f);
    if u.pc.Done? && u.pc.result.Returned? {
      var r := Reply(u.controllerId, u.pc.result.payload);
      var k :| u.since <= k < |s.log| && s.log[k].reply == r;
      assert t.log[k] == s.log[k];
    }
  }

  lemma MovedShape(s: State, c: nat, move: Move)
    requires c < |s.callers|
    ensures var t := Moved(s, c, move);
      && |t.callers| == |s.callers| && t.log == s.log && t.frames == s.frames && t.buf == s.buf
      && t.aboutToSet == s.aboutToSet
      && forall d :: 0 <= d < |s.callers| && d != c ==> t.callers[d] == s.callers[d]
  {
  }

  lemma OwnStepKeeps(s: State, c: nat, move: Move)
    requires Enabled(s, Does(c, move)) && CallerOk(s, c)
    ensures CallerOk(Moved(s, c, move), c)
  {
    var t := Moved(s, c, move);
    if move.Unpack? && t.callers[c].pc.Done? {
      assert s.log[|s.log| - 1].reply == s.reply.value;
    }
  }

  /** While c is in its request, another caller can only call or wait for the lock. */
  lemma OthersStayOut(s: State, c: nat, d: nat, move: Move)
    requires Enabled(s, Does(d, move)) && CallerOk(s, d)
    requires c < |s.callers| && c != d && CallerOk(s, c) && InRequest(s.callers[c].pc)
    ensures var t := Moved(s, d, move);
      t.lock == s.lock && t.reply == s.reply && t.event == s.event
  {
    assert s.lock == Some(c) && !InRequest(s.callers[d].pc);
    assert move.Call?;
  }

  lemma OtherStepKeeps(s: State, c: nat, d: nat, move: Move)
    requires Enabled(s, Does(d, move)) && CallerOk(s, d)
    requires c < |s.callers| && c != d && CallerOk(s, c)
    ensures CallerOk(Moved(s, d, move), c)
  {
    MovedShape(s, d, move);
    if InRequest(s.callers[c].pc) {
      OthersStayOut(s, c, d, move);
    }
  }

  lemma RxStepKeeps(crc: Checker, s: State, a: Action)
    requires !a.Does? && Enabled(s, a) && Invariant(crc, s)
    ensures Invariant(crc, Next(crc, s, a))
  {
    if a.RxFrame? {
      RxKeepsLog(crc, s, a.f);
    }
    forall c | 0 <= c < |s.callers|
      ensures CallerOk(Next(crc, s, a), c)
    {
      assert CallerOk(s, c);
      if a.RxFrame? {
        RxKeepsCaller(crc, s, a.f, c);
      }
    }
  }

  lemma StepKeeps(crc: Checker, s: State, a: Action)
    requires Enabled(s, a) && Invariant(crc, s)
    ensures Invariant(crc, Next(crc, s, a))
  {
    match a {
      case Does(d, move) =>
        MovedShape(s, d, move);
        forall c | 0 <= c < |s.callers|
          ensures CallerOk(Moved(s, d, move), c)
        {
          assert CallerOk(s, c) && CallerOk(s, d);
          if c == d {
            OwnStepKeeps(s, c, move);
          } else {
            OtherStepKeeps(s, c, d, move);
          }
        }
      case _ => RxStepKeeps(crc, s, a);
    }
  }

  // ----- whole runs ----------------------------------------------------------------------

  function Start(n: nat): State {
    State(seq(n, _ => Caller(Idle, 0, 0, 0)), None, None, false, false, seq(BUFFER_SIZE, _ => 0), [], [])
  }

  /** A run of n callers: each action is enabled in the state the ones before it lead to. */
  predicate IsRun(crc: Checker, n: nat, actions: seq<Action>)
    decreases |actions|, 0
  {
    actions == []
    || (IsRun(crc, n, actions[..|actions| - 1])
        && Enabled(After(crc, n, actions[..|actions| - 1]), actions[|actions| - 1]))
  }

  function After(crc: Checker, n: nat, actions: seq<Action>): State
    requires IsRun(crc, n, actions)
    decreases |actions|, 1
  {
    if actions == [] then Start(n)
    else Next(crc, After(crc, n, actions[..|actions| - 1]), actions[|actions| - 1])
  }

  lemma {:induction false} RunKeeps(crc: Checker, n: nat, actions: seq<Action>)
    requires IsRun(crc, n, actions)
    ensures Invariant(crc, After(crc, n, actions))
    decreases |actions|
  {
    if actions != [] {
      RunKeeps(crc, n, actions[..|actions| - 1]);
      StepKeeps(crc, After(crc, n, actions[..|actions| - 1]), actions[|actions| - 1]);
    }
  }

  lemma {:induction false} Prefix(crc: Checker, n: nat, actions: seq<Action>, i: nat)
    requires IsRun(crc, n, actions) && i <= |actions|
    ensures IsRun(crc, n, actions[..i])
    ensures |After(crc, n, actions[..i]).log| <= |After(crc, n, actions).log|
    decreases |actions|
  {
    if i == |actions| {
      assert actions[..i] == actions;
    } else {
      var before := actions[..|actions| - 1];
      Prefix(crc, n, before, i);
      assert before[..i] == actions[..i];
      LogGrows(crc, After(crc, n, before), actions[|actions| - 1]);
    }
  }

  lemma LogGrows(crc: Checker, s: State, a: Action)
    requires Enabled(s, a)
    ensures s.log <= Next(crc, s, a).log && |Next(crc, s, a).callers| == |s.callers|
  {
    if a.Does? {
      MovedShape(s, a.c, a.move);
    }
  }

  /** The caller's `since` was taken when it last forgot the old reply. */
  predicate SinceTaken(pc: Pc) {
    HasReset(pc) || (pc.Done? && pc.result.Returned?)
  }

  predicate Calls(a: Action, c: nat) {
    a.Does? && a.c == c && a.move.Call?
  }

  /** Step i was this caller forgetting the old reply, in its latest request. */
  ghost predicate LastReset(crc: Checker, n: nat, actions: seq<Action>, c: nat, i: nat)
    requires IsRun(crc, n, actions)
  {
    && i < |actions| && actions[i] == Does(c, Reset)
    && forall x :: i < x < |actions| ==> !Calls(actions[x], c)
  }

  lemma SinceStep(s: State, c: nat, move: Move)
    requires Enabled(s, Does(c, move)) && move != Reset
    requires SinceTaken(Moved(s, c, move).callers[c].pc)
    ensures SinceTaken(s.callers[c].pc) && Moved(s, c, move).callers[c].since == s.callers[c].since && !move.Call?
  {
  }

  lemma SinceKept(crc: Checker, s: State, a: Action, c: nat)
    requires Enabled(s, a) && a != Does(c, Reset) && c < |s.callers| == |Next(crc, s, a).callers|
    requires SinceTaken(Next(crc, s, a).callers[c].pc)
    ensures SinceTaken(s.callers[c].pc) && Next(crc, s, a).callers[c].since == s.callers[c].since && !Calls(a, c)
  {
    if a.Does? {
      MovedShape(s, a.c, a.move);
      if a.c == c {
        SinceStep(s, c, a.move);
      }
    }
  }

  lemma {:induction false} ResetWas(crc: Checker, n: nat, actions: seq<Action>, c: nat) returns (i: nat)
    requires IsRun(crc, n, actions)
    requires var s := After(crc, n, actions); c < |s.callers| && SinceTaken(s.callers[c].pc)
    ensures LastReset(crc, n, actions, c, i)
    ensures IsRun(crc, n, actions[..i])
    ensures |After(crc, n, actions[..i]).log| == After(crc, n, actions).callers[c].since
    decreases |actions|
  {
    var last := |actions| - 1;
    var before := actions[..last];
    var s := After(crc, n, before);
    LogGrows(crc, s, actions[last]);
    if actions[last] == Does(c, Reset) {
      i := last;
    } else {
      SinceKept(crc, s, actions[last], c);
      i := ResetWas(crc, n, before, c);
      assert before[..i] == actions[..i];
      assert forall x :: i < x < last ==> before[x] == actions[x];
    }
  }

  lemma {:induction false} PublishedWas(crc: Checker, n: nat, actions: seq<Action>, k: nat) returns (m: nat)
    requires IsRun(crc, n, actions) && k < |After(crc, n, actions).log|
    ensures m < |actions| && IsRun(crc, n, actions[..m]) && actions[m].RxFrame?
    ensures |After(crc, n, actions[..m]).log| == k
    ensures Completes(crc, After(crc, n, actions[..m]).buf, actions[m].f) == Some(After(crc, n, actions).log[k].reply)
    decreases |actions|
  {
    var last := |actions| - 1;
    var before := actions[..last];
    var s := After(crc, n, before);
    LogGrows(crc, s, actions[last]);
    if actions[last].Does? {
      MovedShape(s, actions[last].c, actions[last].move);
    }
    if k < |s.log| {
      m := PublishedWas(crc, n, before, k);
      assert before[..m] == actions[..m] && before[m] == actions[m];
    } else {
      m := last;
    }
  }

  lemma {:induction false} PublishedGrows(crc: Checker, n: nat, actions: seq<Action>, m: nat, i: nat)
    requires IsRun(crc, n, actions) && m < i <= |actions| && actions[m].RxFrame?
    requires IsRun(crc, n, actions[..m]) && IsRun(crc, n, actions[..i])
    requires Completes(crc, After(crc, n, actions[..m]).buf, actions[m].f).Some?
    ensures |After(crc, n, actions[..i]).log| > |After(crc, n, actions[..m]).log|
  {
    Prefix(crc, n, actions[..i], m + 1);
    var upTo := actions[..i][..m + 1];
    assert upTo[..m] == actions[..m] && upTo[m] == actions[m];
  }

  predicate HasReturned(s: State, c: nat) {
    c < |s.callers| && s.callers[c].pc.Done? && s.callers[c].pc.result.Returned?
  }

  /** What was returned, as a reply from the controller that was asked. */
  function ReturnedReply(s: State, c: nat): Reply
    requires HasReturned(s, c)
  {
    Reply(s.callers[c].controllerId, s.callers[c].pc.result.payload)
  }

  lemma ReturnedEntry(crc: Checker, n: nat, actions: seq<Action>, c: nat) returns (k: nat)
    requires IsRun(crc, n, actions) && HasReturned(After(crc, n, actions), c)
    ensures var s := After(crc, n, actions);
      s.callers[c].since <= k < |s.log| && s.log[k].reply == ReturnedReply(s, c)
  {
    RunKeeps(crc, n, actions);
    var s := After(crc, n, actions);
    assert CallerOk(s, c);
    k :| s.callers[c].since <= k < |s.log| && s.log[k].reply == ReturnedReply(s, c);
  }

  lemma {:induction false} BufferWas(crc: Checker, n: nat, actions: seq<Action>)
    requires IsRun(crc, n, actions)
    ensures var s := After(crc, n, actions); s.buf == BufferOf(crc, s.frames)
  {
    RunKeeps(crc, n, actions);
  }

  /** In every run, whatever the interleaving: a payload that is returned was sent
      by the controller that was asked, in a message completed by a frame (step m)
      that was received after this request forgot the old reply (step i). */
  lemma ReturnedIsFresh(crc: Checker, n: nat, actions: seq<Action>, c: nat) returns (i: nat, m: nat)
    requires IsRun(crc, n, actions) && HasReturned(After(crc, n, actions), c)
    ensures LastReset(crc, n, actions, c, i) && i < m < |actions|
    ensures actions[m].RxFrame? && IsRun(crc, n, actions[..m])
    ensures Completes(crc, BufferOf(crc, After(crc, n, actions[..m]).frames), actions[m].f)
         == Some(ReturnedReply(After(crc, n, actions), c))
  {
    var k := ReturnedEntry(crc, n, actions, c);
    i := ResetWas(crc, n, actions, c);
    m := PublishedWas(crc, n, actions, k);
    BufferWas(crc, n, actions[..m]);
    if m < i {
      PublishedGrows(crc, n, actions, m, i);
    }
    assert m != i;
  }

  /** Requests never overlap, and none ever unpacks a reply that has gone. */
  lemma {:induction false} OneAtATime(crc: Checker, n: nat, actions: seq<Action>, c: nat, d: nat)
    requires IsRun(crc, n, actions)
    requires var s := After(crc, n, actions); c < |s.callers| && d < |s.callers|
    ensures var s := After(crc, n, actions);
      && (InRequest(s.callers[c].pc) && InRequest(s.callers[d].pc) ==> c == d)
      && (s.callers[c].pc.Unpacking? ==> s.reply.Some?)
      && s.callers[c].pc != Done(Crashed)
  {
    RunKeeps(crc, n, actions);
    var s := After(crc, n, actions);
    assert CallerOk(s, c) && CallerOk(s, d);
  }

  // ----- wakeups ---------------------------------------------------------------------------------

  predicate OnlyFrom(log: seq<Publication>, since: nat, controllerId: byte) {
    forall k :: since <= k < |log| ==> log[k].reply.sender == controllerId
  }

  /** As long as nobody else has replied since the request began, a stored reply stays,
      and the event is set, or about to be, exactly when one was announced after the
      caller cleared it. */
  predicate WakeOk(s: State, c: nat)
    requires c < |s.callers|
  {
    var u := s.callers[c];
    && (s.aboutToSet ==> s.log != [])
    && (HasCleared(u.pc) ==> u.cleared <= |s.log|)
    && (HasReset(u.pc) && OnlyFrom(s.log, u.since, u.controllerId) ==>
         && !u.pc.Dropping? && !u.pc.ClearingAgain?
         && (|s.log| > u.since ==> s.reply.Some?)
         && (HasCleared(u.pc) ==> (|s.log| > u.cleared <==> s.event || s.aboutToSet)))
  }

  lemma RxKeepsWake(crc: Checker, s: State, a: Action, c: nat)
    requires !a.Does? && Enabled(s, a) && c < |s.callers| && WakeOk(s, c)
    ensures WakeOk(Next(crc, s, a), c)
  {
    var u, t := s.callers[c], Next(crc, s, a);
    LogGrows(crc, s, a);
    if OnlyFrom(t.log, u.since, u.controllerId) {
      assert forall k :: u.since <= k < |s.log| ==> t.log[k] == s.log[k];
    }
  }

  lemma OwnKeepsWake(s: State, c: nat, move: Move)
    requires Enabled(s, Does(c, move)) && CallerOk(s, c) && WakeOk(s, c)
    ensures WakeOk(Moved(s, c, move), c)
  {
    var u := s.callers[c];
    if move.Unpack? && s.reply.Some? && OnlyFrom(s.log, u.since, u.controllerId) {
      assert s.log[|s.log| - 1].reply.sender == u.controllerId;
    }
  }

  lemma OtherKeepsWake(s: State, c: nat, d: nat, move: Move)
    requires Enabled(s, Does(d, move)) && CallerOk(s, d)
    requires c < |s.callers| && c != d && CallerOk(s, c) && WakeOk(s, c)
    ensures WakeOk(Moved(s, d, move), c)
  {
    MovedShape(s, d, move);
    if InRequest(s.callers[c].pc) {
      OthersStayOut(s, c, d, move);
    }
  }

  lemma {:induction false} RunKeepsWake(crc: Checker, n: nat, actions: seq<Action>, c: nat)
    requires IsRun(crc, n, actions) && c < |After(crc, n, actions).callers|
    ensures WakeOk(After(crc, n, actions), c)
    decreases |actions|
  {
    if actions != [] {
      var before, a := actions[..|actions| - 1], actions[|actions| - 1];
      var s := After(crc, n, before);
      LogGrows(crc, s, a);
      RunKeepsWake(crc, n, before, c);
      RunKeeps(crc, n, before);
      assert CallerOk(s, c);
      match a {
        case Does(d, move) =>
          assert CallerOk(s, d);
          if c == d {
            OwnKeepsWake(s, c, move);
          } else {
            OtherKeepsWake(s, c, d, move);
          }
        case _ => RxKeepsWake(crc, s, a, c);
      }
    }
  }

  /** While only the asked controller replies, a reply stored since the request began
      is never lost, and a waiting caller is woken for it exactly when it was not
      announced before the caller cleared the event. */
  lemma {:induction false} NoLostWakeup(crc: Checker, n: nat, actions: seq<Action>, c: nat)
    requires IsRun(crc, n, actions) && c < |After(crc, n, actions).callers|
    requires var s := After(crc, n, actions);
      s.callers[c].pc.Waiting? && |s.log| > s.callers[c].since
      && OnlyFrom(s.log, s.callers[c].since, s.callers[c].controllerId)
    ensures var s := After(crc, n, actions);
      && s.reply.Some? && s.reply.value.sender == s.callers[c].controllerId
      && (s.event || s.aboutToSet <==> |s.log| > s.callers[c].cleared)
  {
    RunKeepsWake(crc, n, actions, c);
    RunKeeps(crc, n, actions);
    var s := After(crc, n, actions);
    assert CallerOk(s, c) && WakeOk(s, c);
  }

  lemma {:induction false} Extend(crc: Checker, n: nat, actions: seq<Action>, a: Action)
    requires IsRun(crc, n, actions) && Enabled(After(crc, n, actions), a)
    ensures IsRun(crc, n, actions + [a])
    ensures After(crc, n, actions + [a]) == Next(crc, After(crc, n, actions), a)
  {
    assert (actions + [a])[..|actions|] == actions;
  }

  /** One caller of several, about to clear the event or about to send. */
  lemma StartClearing(crc: Checker, n: nat, asked: byte) returns (actions: seq<Action>)
    requires n > 0
    ensures IsRun(crc, n, actions)
    ensures After(crc, n, actions)
         == Start(n).(callers := Start(n).callers[0 := Caller(Clearing, asked, 0, 0)], lock := Some(0))
  {
    var a0 := [Does(0, Call(asked))];
    var a1 := a0 + [Does(0, Acquire)];
    Extend(crc, n, [], Does(0, Call(asked)));
    assert [] + a0 == a0;
    Extend(crc, n, a0, Does(0, Acquire));
    Extend(crc, n, a1, Does(0, Reset));
    actions := a1 + [Does(0, Reset)];
    assert After(crc, n, actions).callers == Start(n).callers[0 := Caller(Clearing, asked, 0, 0)];
  }

  lemma ShortCompletes(crc: Checker, buf: bytes, sender: byte)
    ensures Completes(crc, buf, ShortFrame(HOST_ID, sender, 0, [0])) == Some(Reply(sender, [0]))
    ensures BufferAfter(crc, buf, ShortFrame(HOST_ID, sender, 0, [0])) == buf
  {
    assert ([sender, 0] + [0])[2..] == [0];
  }

  /** A short reply is received and announced. */
  lemma ShortReply(crc: Checker, n: nat, actions: seq<Action>, sender: byte) returns (more: seq<Action>)
    requires IsRun(crc, n, actions) && !After(crc, n, actions).aboutToSet
    ensures IsRun(crc, n, actions + more)
    ensures var s, t := After(crc, n, actions), After(crc, n, actions + more);
      && t.callers == s.callers && t.lock == s.lock && t.reply == Some(Reply(sender, [0])) && t.event && !t.aboutToSet
      && t.log == s.log + [Publication(Reply(sender, [0]), |s.frames|)]
  {
    var f := ShortFrame(HOST_ID, sender, 0, [0]);
    var r0 := actions + [RxFrame(f)];
    ShortCompletes(crc, After(crc, n, actions).buf, sender);
    Extend(crc, n, actions, RxFrame(f));
    Extend(crc, n, r0, RxSetEvent);
    more := [RxFrame(f), RxSetEvent];
    assert actions + more == r0 + [RxSetEvent];
  }

  /** A late reply to an earlier request can be stored and announced between the two
      steps that begin the next one. The caller then waits, with a reply of the
      controller it asked stored, for an event that nobody is going to set. */
  lemma SleepsOnEarlyReply(crc: Checker, n: nat, asked: byte) returns (actions: seq<Action>)
    requires n > 0
    ensures IsRun(crc, n, actions)
    ensures var s := After(crc, n, actions);
      && |s.callers| == n && s.callers[0].pc.Waiting? && s.callers[0].controllerId == asked
      && |s.log| > s.callers[0].since && OnlyFrom(s.log, s.callers[0].since, asked)
      && s.reply == Some(Reply(asked, [0])) && !s.event && !s.aboutToSet
  {
    var a0 := StartClearing(crc, n, asked);
    var early := ShortReply(crc, n, a0, asked);
    var a1 := a0 + early;
    var a2 := a1 + [Does(0, Clear)];
    var a3 := a2 + [Does(0, Send(AllSent))];
    Extend(crc, n, a1, Does(0, Clear));
    Extend(crc, n, a2, Does(0, Send(AllSent)));
    Extend(crc, n, a3, Does(0, Check(false)));
    actions := a3 + [Does(0, Check(false))];
  }

  // ----- when a reply is lost ---------------------------------------------------------------------------

  /** The controller that was asked has replied since the request began, and the
      caller waits with nothing stored. */
  predicate Lost(s: State, c: nat) {
    && c < |s.callers| && s.callers[c].pc.Waiting? && s.reply.None?
    && exists k :: s.callers[c].since <= k < |s.log| && s.log[k].reply.sender == s.callers[c].controllerId
  }

  /** Nobody but these controllers has replied to the host. */
  predicate RepliesFrom(s: State, senders: set<byte>) {
    forall k :: 0 <= k < |s.log| ==> s.log[k].reply.sender in senders
  }

  lemma {:induction false} KeptWithoutOthers(crc: Checker, n: nat, actions: seq<Action>, c: nat)
    requires IsRun(crc, n, actions) && c < |After(crc, n, actions).callers|
    requires var s := After(crc, n, actions); RepliesFrom(s, {s.callers[c].controllerId})
    ensures !Lost(After(crc, n, actions), c)
  {
    var s := After(crc, n, actions);
    if Lost(s, c) {
      NoLostWakeup(crc, n, actions, c);
    }
  }

  /** Having read somebody else's reply, caller 0 is about to forget it. */
  lemma ReadsAnother(crc: Checker, n: nat, actions: seq<Action>, r: Reply) returns (more: seq<Action>)
    requires IsRun(crc, n, actions)
    requires var s := After(crc, n, actions);
      && 0 < |s.callers| && s.callers[0].pc.Checking? && !s.aboutToSet
      && s.reply == Some(r) && r.sender != s.callers[0].controllerId
    ensures IsRun(crc, n, actions + more)
    ensures After(crc, n, actions + more) == At(After(crc, n, actions), 0, Dropping)
  {
    var a0 := actions + [Does(0, Check(false))];
    var a1 := a0 + [Does(0, Wake)];
    var a2 := a1 + [Does(0, Test)];
    Extend(crc, n, actions, Does(0, Check(false)));
    Extend(crc, n, a0, Does(0, Wake));
    Extend(crc, n, a1, Does(0, Test));
    Extend(crc, n, a2, Does(0, Unpack));
    more := [Does(0, Check(false)), Does(0, Wake), Does(0, Test), Does(0, Unpack)];
    assert actions + more == a2 + [Does(0, Unpack)];
  }

  /** In that window the answer can arrive, in any frame f that completes it, and is
      forgotten with the other reply: the caller waits again with nothing stored and
      the event cleared. */
  lemma ReplyLostBehindAnother(crc: Checker, n: nat, actions: seq<Action>, c: nat, f: VescFrame)
      returns (more: seq<Action>)
    requires IsRun(crc, n, actions)
    requires var s := After(crc, n, actions);
      && c < |s.callers| && s.callers[c].pc.Dropping? && !s.aboutToSet
      && Completes(crc, s.buf, f).Some? && Completes(crc, s.buf, f).value.sender == s.callers[c].controllerId
    ensures IsRun(crc, n, actions + more)
    ensures var s, t := After(crc, n, actions), After(crc, n, actions + more);
      && Lost(t, c) && !t.event && !t.aboutToSet && t.callers[c].controllerId == s.callers[c].controllerId
      && t.log == s.log + [Publication(Completes(crc, s.buf, f).value, |s.frames|)]
  {
    RunKeeps(crc, n, actions);
    assert CallerOk(After(crc, n, actions), c);
    var a0, a1, a2, a3, a4 := RxFrame(f), RxSetEvent, Does(c, Drop), Does(c, ClearAgain), Does(c, Check(false));
    var r0 := actions + [a0];
    var r1 := r0 + [a1];
    var r2 := r1 + [a2];
    var r3 := r2 + [a3];
    Extend(crc, n, actions, a0);
    Extend(crc, n, r0, a1);
    Extend(crc, n, r1, a2);
    Extend(crc, n, r2, a3);
    Extend(crc, n, r3, a4);
    more := [a0, a1, a2, a3, a4];
    assert actions + more == r3 + [a4];
    var s, t := After(crc, n, actions), After(crc, n, actions + more);
    assert t.log[|s.log|].reply.sender == t.callers[c].controllerId;
  }

  /** One caller asks a controller, and another controller replies first. */
  lemma AnotherReplies(crc: Checker, n: nat, asked: byte, other: byte) returns (actions: seq<Action>)
    requires n > 0 && asked != other
    ensures IsRun(crc, n, actions)
    ensures var s := After(crc, n, actions);
      && 0 < |s.callers| && s.callers[0].pc.Dropping? && s.callers[0].controllerId == asked
      && s.callers[0].since == 0 && !s.aboutToSet && s.log == [Publication(Reply(other, [0]), 0)]
  {
    var a0 := StartClearing(crc, n, asked);
    var a1 := a0 + [Does(0, Clear)];
    var a2 := a1 + [Does(0, Send(AllSent))];
    Extend(crc, n, a0, Does(0, Clear));
    Extend(crc, n, a1, Does(0, Send(AllSent)));
    var reply := ShortReply(crc, n, a2, other);
    var more := ReadsAnother(crc, n, a2 + reply, Reply(other, [0]));
    actions := a2 + reply + more;
  }

  /** No run in which only these controllers reply loses a reply of the one asked. */
  ghost predicate NeverLost(crc: Checker, n: nat, asked: byte, senders: set<byte>) {
    forall actions, c: nat :: IsRun(crc, n, actions) && RepliesFrom(After(crc, n, actions), senders)
      && c < |After(crc, n, actions).callers| && After(crc, n, actions).callers[c].controllerId == asked
      ==> !Lost(After(crc, n, actions), c)
  }

  /** With any number of callers, replies are safe exactly when no other controller
      replies to the host. */
  lemma NeverLostIff(crc: Checker, n: nat, asked: byte, senders: set<byte>)
    requires n > 0 && asked in senders
    ensures NeverLost(crc, n, asked, senders) <==> senders == {asked}
  {
    if senders == {asked} {
      forall actions, c: nat | IsRun(crc, n, actions) && RepliesFrom(After(crc, n, actions), senders)
        && c < |After(crc, n, actions).callers| && After(crc, n, actions).callers[c].controllerId == asked
        ensures !Lost(After(crc, n, actions), c)
      {
        KeptWithoutOthers(crc, n, actions, c);
      }
    } else {
      var other :| other in senders && other != asked;
      var before := AnotherReplies(crc, n, asked, other);
      var s, f := After(crc, n, before), ShortFrame(HOST_ID, asked, 0, [0]);
      ShortCompletes(crc, s.buf, asked);
      var more := ReplyLostBehindAnother(crc, n, before, 0, f);
      assert RepliesFrom(After(crc, n, before + more), senders);
      assert Lost(After(crc, n, before + more), 0);
    }
  }

  // ----- how a request ends ------------------------------------------------------------------

  /** The last step this caller took. */
  function LastMove(actions: seq<Action>, c: nat): Option<Move> {
    if actions == [] then None
    else
      var a := actions[|actions| - 1];
      if a.Does? && a.c == c then Some(a.move) else LastMove(actions[..|actions| - 1], c)
  }

  /** How a caller's last step shows in where it is. */
  predicate EndsAs(pc: Pc, last: Option<Move>) {
    && (pc == Done(NoReply) <==> last == Some(Check(true)) || last == Some(Send(BusDead)))
    && (pc == Done(Rejected) <==> last == Some(Send(CannotEncode)))
    && (pc.Done? && pc.result.Returned? ==> last == Some(Unpack))
    && (pc.Sending? <==> last == Some(Clear) || last == Some(Send(MoreToSend)))
  }

  lemma MoveEnds(s: State, c: nat, move: Move)
    requires Enabled(s, Does(c, move))
    ensures EndsAs(Moved(s, c, move).callers[c].pc, Some(move))
  {
    var pc := Moved(s, c, move).callers[c].pc;
    match move {
      case Send(outcome) => assert pc in {Sending, Checking, Done(NoReply), Done(Rejected)};
      case Check(expired) => assert pc in {Waiting, Done(NoReply)};
      case Unpack => assert pc == Dropping || (pc.Done? && !pc.result.NoReply? && !pc.result.Rejected?);
      case _ => assert !pc.Done?;
    }
  }

  /** In every run, a request ends without a reply exactly when its last step found the time
      up or the bus dead; it is rejected exactly when it cannot be encoded; and it is sending
      exactly as long as there is more to send. */
  lemma {:induction false} EndsWithoutReplyIff(crc: Checker, n: nat, actions: seq<Action>, c: nat)
    requires IsRun(crc, n, actions) && c < n
    ensures c < |After(crc, n, actions).callers|
    ensures EndsAs(After(crc, n, actions).callers[c].pc, LastMove(actions, c))
    decreases |actions|
  {
    if actions != [] {
      var before, a := actions[..|actions| - 1], actions[|actions| - 1];
      EndsWithoutReplyIff(crc, n, before, c);
      var s := After(crc, n, before);
      LogGrows(crc, s, a);
      if a.Does? {
        MovedShape(s, a.c, a.move);
        if a.c == c {
          MoveEnds(s, c, a.move);
        }
      }
    }
  }
}
