/** The tunnel and the request protocol together: a reply sent in the encoder's frames
    is what the waiting request returns. */
module RequestReply {
  import opened Wrappers
  import opened Bytes
  import opened PacketCodec
  import opened CanFrames
  import opened CanBus
  import opened CommRequest
  import Tunnel

  /** A FILL frame completes no reply, and writes its chunk. */
  lemma FillCompletesNothing(crc: Checker, buf: bytes, payload: bytes, i: nat)
    requires i < |payload| < 65536
    ensures var f := FillFrame(HOST_ID, payload, i);
      Completes(crc, buf, f) == None && BufferAfter(crc, buf, f) == SliceAssign(buf, i, CanFrames.ChunkAt(payload, i))
  {
    Tunnel.FillWrites(crc, TunnelState(buf, None, false), HOST_ID, payload, i);
  }

  /** All but the buffer and the history is the same. */
  ghost predicate OnlyBuffered(s: State, t: State, fs: seq<VescFrame>) {
    && t.callers == s.callers && t.lock == s.lock && t.reply == s.reply && t.event == s.event
    && t.aboutToSet == s.aboutToSet && t.log == s.log && t.frames == s.frames + fs
  }

  lemma {:induction false} OneFillReceived(crc: Checker, n: nat, actions: seq<Action>, payload: bytes, i: nat)
    requires IsRun(crc, n, actions) && i < |payload| < 65536
    requires var s := After(crc, n, actions);
      !s.aboutToSet && i <= |s.buf| && s.buf[..i] == payload[..i]
    ensures var f := FillFrame(HOST_ID, payload, i);
      && IsRun(crc, n, actions + [RxFrame(f)])
      && var t, next := After(crc, n, actions + [RxFrame(f)]), AfterChunk(payload, i);
      OnlyBuffered(After(crc, n, actions), t, [f]) && next <= |t.buf| && t.buf[..next] == payload[..next]
  {
    var s, f := After(crc, n, actions), FillFrame(HOST_ID, payload, i);
    FillCompletesNothing(crc, s.buf, payload, i);
    Tunnel.AssignExtends(s.buf, payload, i, AfterChunk(payload, i));
    Extend(crc, n, actions, RxFrame(f));
  }

  lemma OnlyBufferedTwice(s: State, t: State, u: State, f: VescFrame, fs: seq<VescFrame>)
    requires OnlyBuffered(s, t, [f]) && OnlyBuffered(t, u, fs)
    ensures OnlyBuffered(s, u, [f] + fs)
  {
  }

  lemma OneMore(actions: seq<Action>, a: Action, rest: seq<Action>)
    ensures actions + ([a] + rest) == actions + [a] + rest
  {
  }

  lemma {:induction false} NothingLeft(payload: bytes, i: nat)
    requires i == |payload| < 65536
    ensures Fills(HOST_ID, payload, i) == [] && payload[..i] == payload
  {
  }

  /** Receiving the FILL frames of a payload puts it into the buffer and changes
      nothing else the request can see. */
  lemma {:induction false} FillsReceived(crc: Checker, n: nat, actions: seq<Action>, payload: bytes, i: nat)
      returns (more: seq<Action>)
    requires IsRun(crc, n, actions) && i <= |payload| < 65536
    requires var s := After(crc, n, actions);
      !s.aboutToSet && i <= |s.buf| && s.buf[..i] == payload[..i]
    ensures IsRun(crc, n, actions + more)
    ensures var s, t := After(crc, n, actions), After(crc, n, actions + more);
      && OnlyBuffered(s, t, Fills(HOST_ID, payload, i))
      && |payload| <= |t.buf| && t.buf[..|payload|] == payload
    decreases |payload| - i
  {
    if i == |payload| {
      more := [];
      NothingLeft(payload, i);
      assert actions + more == actions;
    } else {
      var f, next := FillFrame(HOST_ID, payload, i), AfterChunk(payload, i);
      OneFillReceived(crc, n, actions, payload, i);
      var here := actions + [RxFrame(f)];
      var rest := FillsReceived(crc, n, here, payload, next);
      more := [RxFrame(f)] + rest;
      OneMore(actions, RxFrame(f), rest);
      OnlyBufferedTwice(After(crc, n, actions), After(crc, n, here), After(crc, n, here + rest), f,
                        Fills(HOST_ID, payload, next));
    }
  }

  lemma LastFrameCompletes(crc: Checker, buf: bytes, sender: byte, flag: byte, payload: bytes)
    requires 0 < |payload| < 65536
    requires |payload| > 6 ==> |payload| <= |buf| && buf[..|payload|] == payload
    ensures var f := if |payload| <= 6 then ShortFrame(HOST_ID, sender, flag, payload)
                     else ProcessFrame(crc, HOST_ID, sender, flag, payload);
      Completes(crc, buf, f) == Some(Reply(sender, payload))
  {
    if |payload| <= 6 {
      assert ShortFrame(HOST_ID, sender, flag, payload).data[2..] == payload;
    } else {
      Tunnel.ProcessReads(crc, TunnelState(buf, None, false), HOST_ID, sender, flag, payload);
    }
  }

  lemma {:induction false} LastFrameReceived(crc: Checker, n: nat, actions: seq<Action>, f: VescFrame, r: Reply)
    requires IsRun(crc, n, actions)
    requires var s := After(crc, n, actions); !s.aboutToSet && Completes(crc, s.buf, f) == Some(r)
    ensures IsRun(crc, n, actions + [RxFrame(f)] + [RxSetEvent])
    ensures var s, t := After(crc, n, actions), After(crc, n, actions + [RxFrame(f)] + [RxSetEvent]);
      && t.callers == s.callers && t.reply == Some(r) && t.event && !t.aboutToSet && t.frames == s.frames + [f]
  {
    Extend(crc, n, actions, RxFrame(f));
    Extend(crc, n, actions + [RxFrame(f)], RxSetEvent);
  }

  /** What is left in the buffer and the history when only the last frame is missing. */
  lemma AllButLast(crc: Checker, n: nat, actions: seq<Action>, sender: byte, flag: byte, payload: bytes)
      returns (fills: seq<Action>, f: VescFrame)
    requires IsRun(crc, n, actions) && !After(crc, n, actions).aboutToSet && 0 < |payload| < 65536
    ensures IsRun(crc, n, actions + fills)
    ensures var s, t := After(crc, n, actions), After(crc, n, actions + fills);
      && t.callers == s.callers && !t.aboutToSet && Completes(crc, t.buf, f) == Some(Reply(sender, payload))
      && t.frames + [f] == s.frames + CommFrames(crc, HOST_ID as int, sender, flag, payload).value
  {
    if |payload| <= 6 {
      fills, f := [], ShortFrame(HOST_ID, sender, flag, payload);
      assert actions + fills == actions;
    } else {
      fills := FillsReceived(crc, n, actions, payload, 0);
      f := ProcessFrame(crc, HOST_ID, sender, flag, payload);
    }
    LastFrameCompletes(crc, After(crc, n, actions + fills).buf, sender, flag, payload);
  }

  lemma Regroup(actions: seq<Action>, before: seq<Action>, a: Action, after: seq<Action>)
    ensures actions + (before + [a] + after) == actions + before + [a] + after
  {
  }

  /** All the frames of a reply arrive: it is stored and announced. */
  lemma ReplyReceived(crc: Checker, n: nat, actions: seq<Action>, sender: byte, flag: byte, payload: bytes)
      returns (more: seq<Action>)
    requires IsRun(crc, n, actions) && !After(crc, n, actions).aboutToSet && 0 < |payload| < 65536
    ensures IsRun(crc, n, actions + more)
    ensures var s, t := After(crc, n, actions), After(crc, n, actions + more);
      && t.callers == s.callers && t.reply == Some(Reply(sender, payload)) && t.event && !t.aboutToSet
      && t.frames == s.frames + CommFrames(crc, HOST_ID as int, sender, flag, payload).value
  {
    var fills, f := AllButLast(crc, n, actions, sender, flag, payload);
    LastFrameReceived(crc, n, actions + fills, f, Reply(sender, payload));
    more := fills + [RxFrame(f)] + [RxSetEvent];
    Regroup(actions, fills, RxFrame(f), [RxSetEvent]);
  }

  /** From any point of any run at which a request waits for its reply, the frames of
      a reply of 1 to 65535 bytes from the asked controller, received in order, let
      the request return exactly that payload. */
  lemma ReplyIsReturned(crc: Checker, n: nat, actions: seq<Action>, c: nat, flag: byte, payload: bytes)
      returns (more: seq<Action>)
    requires IsRun(crc, n, actions) && 0 < |payload| < 65536
    requires var s := After(crc, n, actions); c < |s.callers| && s.callers[c].pc.Waiting? && !s.aboutToSet
    ensures IsRun(crc, n, actions + more)
    ensures var s, t := After(crc, n, actions), After(crc, n, actions + more);
      && c < |t.callers| && t.callers[c].pc == Done(Returned(payload)) && t.lock == None
      && t.frames == s.frames + CommFrames(crc, HOST_ID as int, s.callers[c].controllerId, flag, payload).value
  {
    var received := ReplyReceived(crc, n, actions, After(crc, n, actions).callers[c].controllerId, flag, payload);
    var r0 := actions + received;
    var r1 := r0 + [Does(c, Wake)];
    var r2 := r1 + [Does(c, Test)];
    Extend(crc, n, r0, Does(c, Wake));
    Extend(crc, n, r1, Does(c, Test));
    Extend(crc, n, r2, Does(c, Unpack));
    more := received + [Does(c, Wake), Does(c, Test), Does(c, Unpack)];
    assert actions + more == r2 + [Does(c, Unpack)];
  }

  // ----- every schedule -----------------------------------------------------------------------------

  /** The frames received, in order. */
  function RxFrames(actions: seq<Action>): seq<VescFrame> {
    if actions == [] then []
    else
      var a := actions[|actions| - 1];
      RxFrames(actions[..|actions| - 1]) + if a.RxFrame? then [a.f] else []
  }

  /** The caller runs into its deadline, or has left the request and begins another. */
  predicate GivesUp(a: Action, c: nat) {
    a.Does? && a.c == c && (a.move.Call? || a.move == Check(true))
  }

  predicate Patient(actions: seq<Action>, c: nat) {
    forall x :: 0 <= x < |actions| ==> !GivesUp(actions[x], c)
  }

  /** The caller's own steps since the last frame was received. */
  function MovesSinceFrame(actions: seq<Action>, c: nat): nat {
    if actions == [] then 0
    else
      var a := actions[|actions| - 1];
      if a.RxFrame? then 0
      else MovesSinceFrame(actions[..|actions| - 1], c) + if a.Does? && a.c == c then 1 else 0
  }

  predicate LooksForReply(pc: Pc) {
    pc.Checking? || pc.Waiting? || pc.Testing?
  }

  /** The caller is in its loop and nothing has been stored for it. */
  predicate Hopeful(s: State, c: nat, controllerId: byte) {
    && c < |s.callers| && LooksForReply(s.callers[c].pc) && s.callers[c].controllerId == controllerId
    && s.reply == None && !s.aboutToSet
  }

  /** How many of its own steps the caller needs to return a stored reply. */
  function StepsLeft(pc: Pc): nat {
    match pc
    case Checking => 4
    case Waiting => 3
    case Testing => 2
    case _ => 1
  }

  /** The asked controller's reply is stored and the caller's wakeup is there or on its
      way, or the reply has been returned. */
  predicate Answered(s: State, c: nat, r: Reply, moves: nat) {
    && c < |s.callers| && s.callers[c].controllerId == r.sender
    && var pc := s.callers[c].pc;
       || pc == Done(Returned(r.payload))
       || ((LooksForReply(pc) || pc.Unpacking?) && s.reply == Some(r) && (s.event || s.aboutToSet)
           && moves + StepsLeft(pc) <= 4)
  }

  /** A frame that completes no reply, whatever the buffer holds. */
  ghost predicate Silent(crc: Checker, f: VescFrame) {
    forall buf :: Completes(crc, buf, f) == None
  }

  lemma Snoc(crc: Checker, n: nat, actions: seq<Action>, more: seq<Action>)
    requires IsRun(crc, n, actions + more) && more != []
    ensures var before, a := actions + more[..|more| - 1], more[|more| - 1];
      && IsRun(crc, n, before) && Enabled(After(crc, n, before), a)
      && After(crc, n, actions + more) == Next(crc, After(crc, n, before), a)
      && Invariant(crc, After(crc, n, before))
  {
    var before := actions + more[..|more| - 1];
    assert (actions + more)[..|actions + more| - 1] == before;
    RunKeeps(crc, n, before);
  }

  lemma {:induction false} FramesAre(crc: Checker, n: nat, actions: seq<Action>, more: seq<Action>)
    requires IsRun(crc, n, actions) && IsRun(crc, n, actions + more)
    ensures After(crc, n, actions + more).frames == After(crc, n, actions).frames + RxFrames(more)
    decreases |more|
  {
    if more == [] {
      assert actions + more == actions;
    } else {
      Snoc(crc, n, actions, more);
      FramesAre(crc, n, actions, more[..|more| - 1]);
      FramesStep(crc, After(crc, n, actions + more[..|more| - 1]), more[|more| - 1]);
    }
  }

  lemma FramesStep(crc: Checker, s: State, a: Action)
    requires Enabled(s, a)
    ensures Next(crc, s, a).frames == s.frames + if a.RxFrame? then [a.f] else []
  {
    if a.Does? {
      MovedShape(s, a.c, a.move);
    }
  }

  lemma HopefulStep(crc: Checker, s: State, a: Action, c: nat, controllerId: byte)
    requires Enabled(s, a) && Invariant(crc, s) && Hopeful(s, c, controllerId) && !GivesUp(a, c)
    requires a.RxFrame? ==> Silent(crc, a.f)
    ensures Hopeful(Next(crc, s, a), c, controllerId)
  {
    assert CallerOk(s, c);
    match a {
      case Does(d, move) =>
        MovedShape(s, d, move);
        if d != c {
          assert CallerOk(s, d);
          OthersStayOut(s, c, d, move);
        }
      case RxFrame(f) => assert Completes(crc, s.buf, f) == None;
      case RxSetEvent =>
    }
  }

  lemma {:induction false} StaysHopeful(crc: Checker, n: nat, actions: seq<Action>, more: seq<Action>, c: nat,
                                        controllerId: byte)
    requires IsRun(crc, n, actions) && IsRun(crc, n, actions + more) && Patient(more, c)
    requires Hopeful(After(crc, n, actions), c, controllerId)
    requires forall f :: f in RxFrames(more) ==> Silent(crc, f)
    ensures Hopeful(After(crc, n, actions + more), c, controllerId)
    decreases |more|
  {
    if more == [] {
      assert actions + more == actions;
    } else {
      Snoc(crc, n, actions, more);
      StaysHopeful(crc, n, actions, more[..|more| - 1], c, controllerId);
      assert !GivesUp(more[|more| - 1], c);
      HopefulStep(crc, After(crc, n, actions + more[..|more| - 1]), more[|more| - 1], c, controllerId);
    }
  }

  lemma OwnAnsweredStep(s: State, c: nat, move: Move, r: Reply, moves: nat)
    requires Enabled(s, Does(c, move)) && CallerOk(s, c)
    requires Answered(s, c, r, moves) && !GivesUp(Does(c, move), c)
    ensures Answered(Moved(s, c, move), c, r, moves + 1)
  {
  }

  lemma AnsweredStep(crc: Checker, s: State, a: Action, c: nat, r: Reply, moves: nat)
    requires Enabled(s, a) && Invariant(crc, s) && Answered(s, c, r, moves) && !GivesUp(a, c) && !a.RxFrame?
    ensures Answered(Next(crc, s, a), c, r, moves + if a.Does? && a.c == c then 1 else 0)
  {
    assert CallerOk(s, c);
    if a.Does? {
      MovedShape(s, a.c, a.move);
      if a.c == c {
        OwnAnsweredStep(s, c, a.move, r, moves);
      } else if !s.callers[c].pc.Done? {
        assert CallerOk(s, a.c);
        OthersStayOut(s, c, a.c, a.move);
      }
    }
  }

  lemma {:induction false} StaysAnswered(crc: Checker, n: nat, actions: seq<Action>, more: seq<Action>, c: nat,
                                         r: Reply)
    requires IsRun(crc, n, actions) && IsRun(crc, n, actions + more) && Patient(more, c)
    requires Answered(After(crc, n, actions), c, r, 0) && RxFrames(more) == []
    ensures Answered(After(crc, n, actions + more), c, r, MovesSinceFrame(more, c))
    decreases |more|
  {
    if more == [] {
      assert actions + more == actions;
    } else {
      Snoc(crc, n, actions, more);
      StaysAnswered(crc, n, actions, more[..|more| - 1], c, r);
      assert !GivesUp(more[|more| - 1], c);
      AnsweredStep(crc, After(crc, n, actions + more[..|more| - 1]), more[|more| - 1], c, r,
                   MovesSinceFrame(more[..|more| - 1], c));
    }
  }

  /** The last frame received, and what comes before and after it. */
  lemma {:induction false} AtLastFrame(more: seq<Action>, c: nat)
      returns (before: seq<Action>, f: VescFrame, after: seq<Action>)
    requires RxFrames(more) != []
    ensures more == before + [RxFrame(f)] + after && RxFrames(after) == []
    ensures RxFrames(more) == RxFrames(before) + [f]
    ensures MovesSinceFrame(more, c) == MovesSinceFrame(after, c)
    decreases |more|
  {
    var a, rest := more[|more| - 1], more[..|more| - 1];
    if a.RxFrame? {
      before, f, after := rest, a.f, [];
    } else {
      var tail;
      before, f, tail := AtLastFrame(rest, c);
      after := tail + [a];
      assert after[..|after| - 1] == tail;
    }
  }

  lemma FillIsSilent(crc: Checker, payload: bytes, i: nat)
    requires i < |payload| < 65536
    ensures Silent(crc, FillFrame(HOST_ID, payload, i))
  {
    forall buf
      ensures Completes(crc, buf, FillFrame(HOST_ID, payload, i)) == None
    {
      FillCompletesNothing(crc, buf, payload, i);
    }
  }

  lemma {:induction false} FillsAreSilent(crc: Checker, payload: bytes, i: nat, f: VescFrame)
    requires i <= |payload| < 65536 && f in Fills(HOST_ID, payload, i)
    ensures Silent(crc, f)
    decreases |payload| - i
  {
    if i < |payload| {
      Tunnel.FillsCons(HOST_ID, payload, i);
      if f == FillFrame(HOST_ID, payload, i) {
        FillIsSilent(crc, payload, i);
      } else {
        FillsAreSilent(crc, payload, AfterChunk(payload, i), f);
      }
    }
  }

  lemma BufferStep(crc: Checker, t: TunnelState, f: VescFrame)
    ensures TunnelStep(crc, t, PacketIdOf(f.arbitrationId), f.data).buf == BufferAfter(crc, t.buf, f)
  {
  }

  /** The buffer of a run is what delivering its frames leaves. */
  lemma {:induction false} BufferDelivers(crc: Checker, frames: seq<VescFrame>, fs: seq<VescFrame>)
    ensures BufferOf(crc, frames + fs)
         == Tunnel.Deliver(crc, TunnelState(BufferOf(crc, frames), None, false), fs).buf
    decreases |fs|
  {
    if fs == [] {
      assert frames + fs == frames;
    } else {
      var k := |fs| - 1;
      BufferDelivers(crc, frames, fs[..k]);
      assert (frames + fs)[..|frames + fs| - 1] == frames + fs[..k];
      BufferStep(crc, Tunnel.Deliver(crc, TunnelState(BufferOf(crc, frames), None, false), fs[..k]), fs[k]);
    }
  }

  /** All frames of a reply but the last, and the last. */
  lemma CommFramesSplit(crc: Checker, sender: byte, flag: byte, payload: bytes)
      returns (fills: seq<VescFrame>, last: VescFrame)
    requires 0 < |payload| < 65536
    ensures CommFrames(crc, HOST_ID as int, sender as int, flag as int, payload) == Ok(fills + [last])
    ensures fills == if |payload| <= 6 then [] else Fills(HOST_ID, payload, 0)
    ensures last == if |payload| <= 6 then ShortFrame(HOST_ID, sender, flag, payload)
                    else ProcessFrame(crc, HOST_ID, sender, flag, payload)
  {
    if |payload| <= 6 {
      fills, last := [], ShortFrame(HOST_ID, sender, flag, payload);
      assert fills + [last] == [last];
    } else {
      fills, last := Fills(HOST_ID, payload, 0), ProcessFrame(crc, HOST_ID, sender, flag, payload);
    }
  }

  /** After the frames before it, the last one completes the reply. */
  lemma LastCompletes(crc: Checker, frames: seq<VescFrame>, sender: byte, flag: byte, payload: bytes)
    requires 0 < |payload| < 65536
    ensures var fills := if |payload| <= 6 then [] else Fills(HOST_ID, payload, 0);
      var last := if |payload| <= 6 then ShortFrame(HOST_ID, sender, flag, payload)
                  else ProcessFrame(crc, HOST_ID, sender, flag, payload);
      Completes(crc, BufferOf(crc, frames + fills), last) == Some(Reply(sender, payload))
  {
    if |payload| <= 6 {
      LastFrameCompletes(crc, BufferOf(crc, frames + []), sender, flag, payload);
    } else {
      BufferDelivers(crc, frames, Fills(HOST_ID, payload, 0));
      Tunnel.FillsInOrder(crc, TunnelState(BufferOf(crc, frames), None, false), HOST_ID, payload, 0);
      LastFrameCompletes(crc, BufferOf(crc, frames + Fills(HOST_ID, payload, 0)), sender, flag, payload);
    }
  }

  lemma LastIsStored(crc: Checker, s: State, f: VescFrame, c: nat, r: Reply)
    requires Hopeful(s, c, r.sender) && Completes(crc, s.buf, f) == Some(r)
    ensures Answered(Rx(crc, s, f), c, r, 0)
  {
  }

  lemma {:induction false} PrefixIsRun(crc: Checker, n: nat, actions: seq<Action>, more: seq<Action>)
    requires IsRun(crc, n, actions + more)
    ensures IsRun(crc, n, actions)
  {
    Prefix(crc, n, actions + more, |actions|);
    assert (actions + more)[..|actions|] == actions;
  }

  /** Up to the frame before the last, then the last one. */
  lemma {:induction false} LastFrameAnswers(crc: Checker, n: nat, actions: seq<Action>, before: seq<Action>,
                                            f: VescFrame, c: nat, id: byte, flag: byte, payload: bytes)
    requires 0 < |payload| < 65536 && IsRun(crc, n, actions) && IsRun(crc, n, actions + before + [RxFrame(f)])
    requires Hopeful(After(crc, n, actions), c, id) && Patient(before, c)
    requires CommFrames(crc, HOST_ID as int, id as int, flag as int, payload) == Ok(RxFrames(before) + [f])
    ensures Answered(After(crc, n, actions + before + [RxFrame(f)]), c, Reply(id, payload), 0)
  {
    var here := actions + before;
    PrefixIsRun(crc, n, here, [RxFrame(f)]);
    SplitIs(crc, id, flag, payload, RxFrames(before), f);
    forall g | g in RxFrames(before)
      ensures Silent(crc, g)
    {
      FillsAreSilent(crc, payload, 0, g);
    }
    StaysHopeful(crc, n, actions, before, c, id);
    FramesAre(crc, n, actions, before);
    LastCompletes(crc, After(crc, n, actions).frames, id, flag, payload);
    BufferWas(crc, n, here);
    Snoc(crc, n, here, [RxFrame(f)]);
    assert here + [RxFrame(f)][..0] == here;
    LastIsStored(crc, After(crc, n, here), f, c, Reply(id, payload));
  }

  lemma {:induction false} SplitIs(crc: Checker, id: byte, flag: byte, payload: bytes, before: seq<VescFrame>,
                                   f: VescFrame)
    requires 0 < |payload| < 65536
    requires CommFrames(crc, HOST_ID as int, id as int, flag as int, payload) == Ok(before + [f])
    ensures before == if |payload| <= 6 then [] else Fills(HOST_ID, payload, 0)
    ensures f == if |payload| <= 6 then ShortFrame(HOST_ID, id, flag, payload)
                 else ProcessFrame(crc, HOST_ID, id, flag, payload)
  {
    var fills, last := CommFramesSplit(crc, id, flag, payload);
    assert before == (before + [f])[..|before|] && (before + [f])[|before|] == f;
    assert fills == (fills + [last])[..|fills|] && (fills + [last])[|fills|] == last;
  }

  /** The frames of a reply, the last of them, and steps without frames. */
  lemma {:induction false} AnswerThenStay(crc: Checker, n: nat, actions: seq<Action>, before: seq<Action>,
                                          f: VescFrame, after: seq<Action>, c: nat, id: byte, flag: byte,
                                          payload: bytes)
    requires 0 < |payload| < 65536 && IsRun(crc, n, actions)
    requires IsRun(crc, n, actions + before + [RxFrame(f)] + after)
    requires Hopeful(After(crc, n, actions), c, id) && Patient(before, c) && Patient(after, c) && RxFrames(after) == []
    requires CommFrames(crc, HOST_ID as int, id as int, flag as int, payload) == Ok(RxFrames(before) + [f])
    ensures Answered(After(crc, n, actions + before + [RxFrame(f)] + after), c, Reply(id, payload),
                     MovesSinceFrame(after, c))
  {
    var here := actions + before + [RxFrame(f)];
    PrefixIsRun(crc, n, here, after);
    LastFrameAnswers(crc, n, actions, before, f, c, id, flag, payload);
    StaysAnswered(crc, n, here, after, c, Reply(id, payload));
  }

  lemma PatientParts(before: seq<Action>, f: VescFrame, after: seq<Action>, c: nat)
    requires Patient(before + [RxFrame(f)] + after, c)
    ensures Patient(before, c) && Patient(after, c)
  {
    var more := before + [RxFrame(f)] + after;
    assert forall x :: 0 <= x < |before| ==> before[x] == more[x];
    assert forall x :: 0 <= x < |after| ==> after[x] == more[|before| + 1 + x];
  }

  lemma HasLastFrame(crc: Checker, id: byte, flag: byte, payload: bytes, fs: seq<VescFrame>)
    requires 0 < |payload| < 65536
    requires CommFrames(crc, HOST_ID as int, id as int, flag as int, payload) == Ok(fs)
    ensures fs != []
  {
    var fills, last := CommFramesSplit(crc, id, flag, payload);
  }

  /** In every schedule: a request is in its loop with nothing stored, and from there on
      exactly the frames of a reply of 1 to 65535 bytes from the asked controller are
      received, in order, interleaved in any way with the steps of the callers. Unless the
      request runs into its deadline, the reply is then stored for it, and its wakeup set or
      about to be, until it returns exactly that payload, which it has done after four
      more steps of its own. */
  lemma {:induction false} EveryScheduleReturns(crc: Checker, n: nat, actions: seq<Action>, more: seq<Action>, c: nat,
                                                id: byte, flag: byte, payload: bytes)
    requires 0 < |payload| < 65536 && IsRun(crc, n, actions) && IsRun(crc, n, actions + more)
    requires Hopeful(After(crc, n, actions), c, id) && Patient(more, c)
    requires CommFrames(crc, HOST_ID as int, id as int, flag as int, payload) == Ok(RxFrames(more))
    ensures var t := After(crc, n, actions + more);
      && c < |t.callers|
      && (t.callers[c].pc == Done(Returned(payload))
          || (t.reply == Some(Reply(id, payload)) && (t.event || t.aboutToSet)))
      && (MovesSinceFrame(more, c) >= 4 ==> t.callers[c].pc == Done(Returned(payload)))
  {
    HasLastFrame(crc, id, flag, payload, RxFrames(more));
    var before, f, after := AtLastFrame(more, c);
    PatientParts(before, f, after, c);
    Regroup(actions, before, RxFrame(f), after);
    AnswerThenStay(crc, n, actions, before, f, after, c, id, flag, payload);
  }
}
