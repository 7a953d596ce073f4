/** The receive path of VescCanBus: tunnel reassembly into one reused buffer, PONGs,
    and the telemetry snapshot of each controller. */
module CanBus {
  import opened Wrappers
  import opened Bytes
  import opened PacketCodec
  import opened CanFrames

  const HOST_ID: byte := 254
  const BUFFER_SIZE: nat := 512

  // ----- the tunnel ------------------------------------------------------------------

  datatype Reply = Reply(sender: byte, payload: bytes)

  datatype TunnelState = TunnelState(buf: bytes, reply: Option<Reply>, event: bool)

  function Min(a: nat, b: nat): nat {
    if a <= b then a else b
  }

  /** Python's buf[off:off + len(data)] = data: both bounds are cut to the length of
      the buffer, so the bytes land at its end when off lies behind it, and the
      buffer grows when the range straddles its end. */
  function SliceAssign(buf: bytes, off: nat, data: bytes): (r: bytes)
    ensures |r| >= |buf|
    ensures |r| == (if off + |data| <= |buf| then |buf| else Min(off, |buf|) + |data|)
  {
    buf[..Min(off, |buf|)] + data + buf[Min(off + |data|, |buf|)..]
  }

  /** Where the payload that PROCESS_RX_BUFFER announces comes from. */
  function TakeUpTo(buf: bytes, n: nat): bytes {
    buf[..Min(n, |buf|)]
  }

  function TunnelStep(crc: Checker, s: TunnelState, packetId: nat, data: bytes): TunnelState {
    if packetId == PROCESS_SHORT_BUFFER && |data| >= 3 then
      s.(reply := Some(Reply(data[0], data[2..])), event := true)
    else if packetId == FILL_RX_BUFFER && |data| >= 2 then
      s.(buf := SliceAssign(s.buf, data[0], data[1..]))
    else if packetId == FILL_RX_BUFFER_LONG && |data| >= 3 then
      s.(buf := SliceAssign(s.buf, U16(data[0], data[1]), data[2..]))
    else if packetId == PROCESS_RX_BUFFER && |data| >= 6 then
      var payload := TakeUpTo(s.buf, U16(data[2], data[3]));
      if crc(payload) == U16(data[4], data[5]) then s.(reply := Some(Reply(data[0], payload)), event := true) else s
    else s
  }

  predicate IsTunnelId(packetId: nat) {
    packetId in {FILL_RX_BUFFER, FILL_RX_BUFFER_LONG, PROCESS_RX_BUFFER, PROCESS_SHORT_BUFFER}
  }

  // ----- telemetry ---------------------------------------------------------------------

  datatype Slot = S1 | S2 | S3 | S4 | S5 | S6

  function SlotOf(s: Status): Slot {
    match s
    case Status1(_, _, _) => S1
    case Status2(_, _) => S2
    case Status3(_, _) => S3
    case Status4(_, _, _, _) => S4
    case Status5(_, _) => S5
    case Status6(_, _, _, _) => S6
  }

  /** The last status of each kind, and when it was decoded. */
  datatype NodeTelemetry = NodeTelemetry(statuses: map<Slot, Status>, stamps: map<Slot, int>)

  const NO_TELEMETRY := NodeTelemetry(map[], map[])

  // ----- messages --------------------------------------------------------------------------

  /** A CAN message, with the reading of the monotonic clock when it is handled. */
  datatype CanMessage = CanMessage(extended: bool, arbitrationId: nat, data: bytes, now: int)

  datatype BusState = BusState(
    tunnel: TunnelState, pongs: map<byte, byte>, pongEvent: bool, telemetry: map<byte, NodeTelemetry>)

  function SnapshotOf(telemetry: map<byte, NodeTelemetry>, controllerId: byte): NodeTelemetry {
    if controllerId in telemetry then telemetry[controllerId] else NO_TELEMETRY
  }

  predicate ForTunnel(msg: CanMessage) {
    && msg.extended
    && ControllerIdOf(msg.arbitrationId) == HOST_ID
    && IsTunnelId(PacketIdOf(msg.arbitrationId))
  }

  /** What a message says, if it is not for the tunnel. */
  function DecodedMessage(msg: CanMessage): Option<DecodedFrame> {
    if msg.extended && !ForTunnel(msg) then DecodeFrame(msg.arbitrationId, msg.data) else None
  }

  function Record(telemetry: map<byte, NodeTelemetry>, controllerId: byte, status: Status, now: int)
    : map<byte, NodeTelemetry>
  {
    var t := SnapshotOf(telemetry, controllerId);
    var slot := SlotOf(status);
    telemetry[controllerId := NodeTelemetry(t.statuses[slot := status], t.stamps[slot := now])]
  }

  function Receive(crc: Checker, s: BusState, msg: CanMessage): BusState {
    if ForTunnel(msg) then s.(tunnel := TunnelStep(crc, s.tunnel, PacketIdOf(msg.arbitrationId), msg.data))
    else
      match DecodedMessage(msg)
      case None => s
      case Some(Pong(addressee, responder, hwType)) =>
        if addressee == HOST_ID then s.(pongs := s.pongs[responder := hwType], pongEvent := true) else s
      case Some(Telemetry(controllerId, status)) =>
        s.(telemetry := Record(s.telemetry, controllerId, status, msg.now))
  }

  class VescCanBus {
    var commBuf: bytes
    var commReply: Option<Reply>
    var commEvent: bool
    var pongs: map<byte, byte>
    var pongEvent: bool
    var telemetry: map<byte, NodeTelemetry>

    ghost function Tunnel(): TunnelState
      reads this
    {
      TunnelState(commBuf, commReply, commEvent)
    }

    ghost function State(): BusState
      reads this
    {
      BusState(Tunnel(), pongs, pongEvent, telemetry)
    }

    constructor ()
      ensures |commBuf| == 512 && (forall i :: 0 <= i < 512 ==> commBuf[i] == 0)
      ensures commReply == None && !commEvent && !pongEvent && pongs == map[] && telemetry == map[]
      ensures State() == InitialState()
    {
      commBuf := seq(BUFFER_SIZE, _ => 0);
      commReply, commEvent := None, false;
      pongs, pongEvent, telemetry := map[], false, map[];
    }

    /** _on_tunnel_frame. */
    method OnTunnelFrame(crc: Checker, packetId: nat, data: bytes)
      modifies `commBuf, `commReply, `commEvent
      ensures Tunnel() == TunnelStep(crc, old(Tunnel()), packetId, data)
    {
      if packetId == PROCESS_SHORT_BUFFER && |data| >= 3 {
        commReply := Some(Reply(data[0], data[2..]));
        commEvent := true;
      } else if packetId == FILL_RX_BUFFER && |data| >= 2 {
        commBuf := SliceAssign(commBuf, data[0], data[1..]);
      } else if packetId == FILL_RX_BUFFER_LONG && |data| >= 3 {
        commBuf := SliceAssign(commBuf, U16(data[0], data[1]), data[2..]);
      } else if packetId == PROCESS_RX_BUFFER && |data| >= 6 {
        var sender, length, sum := data[0], U16(data[2], data[3]), U16(data[4], data[5]);
        var payload := TakeUpTo(commBuf, length);
        if crc(payload) == sum {
          commReply := Some(Reply(sender, payload));
          commEvent := true;
        }
      }
    }

    /** _on_message. */
    method OnMessage(crc: Checker, msg: CanMessage)
      modifies this
      ensures State() == Receive(crc, old(State()), msg)
    {
      if !msg.extended {
        return;
      }
      var packetId, addressee := PacketIdOf(msg.arbitrationId), ControllerIdOf(msg.arbitrationId);
      if addressee == HOST_ID && IsTunnelId(packetId) {
        OnTunnelFrame(crc, packetId, msg.data);
        return;
      }
      match DecodeFrame(msg.arbitrationId, msg.data) {
        case None =>
        case Some(Pong(controllerId, responder, hwType)) =>
          if controllerId == HOST_ID {
            pongs := pongs[responder := hwType];
            pongEvent := true;
          }
        case Some(Telemetry(controllerId, status)) =>
          var telem := SnapshotOf(telemetry, controllerId);
          var slot := SlotOf(status);
          var stamps := telem.stamps[slot := msg.now];
          telemetry := telemetry[controllerId := NodeTelemetry(telem.statuses[slot := status], stamps)];
      }
    }
  }

  function InitialState(): BusState {
    BusState(TunnelState(seq(BUFFER_SIZE, _ => 0), None, false), map[], false, map[])
  }

  // ----- whole runs ----------------------------------------------------------------------------

  function ReceiveAll(crc: Checker, s: BusState, msgs: seq<CanMessage>): BusState {
    if msgs == [] then s
    else
      var n := |msgs| - 1;
      Receive(crc, ReceiveAll(crc, s, msgs[..n]), msgs[n])
  }

  /** The reassembly buffer never gets shorter. */
  lemma {:induction false} BufferNeverShrinks(crc: Checker, s: BusState, msgs: seq<CanMessage>)
    ensures |ReceiveAll(crc, s, msgs).tunnel.buf| >= |s.tunnel.buf|
    decreases |msgs|
  {
    if msgs != [] {
      BufferNeverShrinks(crc, s, msgs[..|msgs| - 1]);
    }
  }

  /** The packet id whose frames fill a slot, and the data they need. */
  function PacketIdFor(slot: Slot): nat {
    match slot
    case S1 => 9
    case S2 => 14
    case S3 => 15
    case S4 => 16
    case S5 => 27
    case S6 => 58
  }

  function DataFor(slot: Slot): nat {
    if slot == S5 then 6 else 8
  }

  /** The kind of status that belongs into a slot. */
  predicate OfKind(status: Status, slot: Slot) {
    match slot
    case S1 => status.Status1?
    case S2 => status.Status2?
    case S3 => status.Status3?
    case S4 => status.Status4?
    case S5 => status.Status5?
    case S6 => status.Status6?
  }

  /** The message is the frame of this kind from this controller, with enough data. */
  predicate Reports(msg: CanMessage, controllerId: byte, slot: Slot) {
    && msg.extended
    && PacketIdOf(msg.arbitrationId) == PacketIdFor(slot)
    && ControllerIdOf(msg.arbitrationId) == controllerId
    && |msg.data| >= DataFor(slot)
  }

  /** Exactly those messages carry telemetry for a slot, and of its kind. */
  lemma ReportsAre(msg: CanMessage, controllerId: byte, slot: Slot)
    ensures Reports(msg, controllerId, slot) <==>
            var d := DecodedMessage(msg);
            d.Some? && d.value.Telemetry? && d.value.controllerId == controllerId && SlotOf(d.value.status) == slot
    ensures Reports(msg, controllerId, slot) ==> OfKind(ReportedStatus(msg), slot)
  {
  }

  function ReportedStatus(msg: CanMessage): Status
    requires DecodedMessage(msg).Some? && DecodedMessage(msg).value.Telemetry?
  {
    DecodedMessage(msg).value.status
  }

  /** The last report of this kind in a run. */
  function LastReport(msgs: seq<CanMessage>, controllerId: byte, slot: Slot): (r: Option<nat>)
    ensures r.None? <==> forall k :: 0 <= k < |msgs| ==> !Reports(msgs[k], controllerId, slot)
    ensures r.Some? ==> r.value < |msgs| && Reports(msgs[r.value], controllerId, slot)
    ensures r.Some? ==> forall k :: r.value < k < |msgs| ==> !Reports(msgs[k], controllerId, slot)
  {
    if msgs == [] then None
    else
      var n := |msgs| - 1;
      if Reports(msgs[n], controllerId, slot) then Some(n) else LastReport(msgs[..n], controllerId, slot)
  }

  /** What the snapshot of a controller says about one kind of status. */
  function Held(s: BusState, controllerId: byte, slot: Slot): (Option<Status>, Option<int>) {
    var t := SnapshotOf(s.telemetry, controllerId);
    (if slot in t.statuses then Some(t.statuses[slot]) else None,
     if slot in t.stamps then Some(t.stamps[slot]) else None)
  }

  lemma RecordHeld(s: BusState, c: byte, status: Status, now: int, controllerId: byte, slot: Slot)
    ensures Held(s.(telemetry := Record(s.telemetry, c, status, now)), controllerId, slot)
         == if c == controllerId && SlotOf(status) == slot then (Some(status), Some(now))
            else Held(s, controllerId, slot)
  {
  }

  lemma ReceiveHeld(crc: Checker, s: BusState, msg: CanMessage, controllerId: byte, slot: Slot)
    ensures Reports(msg, controllerId, slot) ==> DecodedMessage(msg).Some? && DecodedMessage(msg).value.Telemetry?
    ensures Held(Receive(crc, s, msg), controllerId, slot)
         == if Reports(msg, controllerId, slot) then (Some(ReportedStatus(msg)), Some(msg.now))
            else Held(s, controllerId, slot)
  {
    ReportsAre(msg, controllerId, slot);
    match DecodedMessage(msg) {
      case Some(Telemetry(c, status)) => RecordHeld(s, c, status, msg.now, controllerId, slot);
      case _ =>
    }
  }

  /** After any run, a controller's snapshot holds for each kind of status what its last
      frame of that packet id decodes to, and that frame's time stamp, whatever else was
      received since. */
  lemma {:induction false} LastWord(crc: Checker, s: BusState, msgs: seq<CanMessage>, controllerId: byte, slot: Slot)
    ensures var last := LastReport(msgs, controllerId, slot);
      if last.None? then Held(ReceiveAll(crc, s, msgs), controllerId, slot) == Held(s, controllerId, slot)
      else
        && var d := DecodeFrame(msgs[last.value].arbitrationId, msgs[last.value].data);
        && d.Some? && d.value.Telemetry? && OfKind(d.value.status, slot)
        && Held(ReceiveAll(crc, s, msgs), controllerId, slot) == (Some(d.value.status), Some(msgs[last.value].now))
    decreases |msgs|
  {
    if msgs != [] {
      var n := |msgs| - 1;
      LastWord(crc, s, msgs[..n], controllerId, slot);
      ReceiveHeld(crc, ReceiveAll(crc, s, msgs[..n]), msgs[n], controllerId, slot);
      ReportsAre(msgs[n], controllerId, slot);
    }
  }

  /** From a fresh bus, a status is there exactly when its stamp is, which is when one was
      ever received, and it is of the kind of its slot. */
  lemma {:induction false} StampedIffHeard(crc: Checker, msgs: seq<CanMessage>, controllerId: byte, slot: Slot)
    ensures var (status, stamp) := Held(ReceiveAll(crc, InitialState(), msgs), controllerId, slot);
      && (status.Some? <==> stamp.Some?) && (status.Some? ==> OfKind(status.value, slot))
      && (stamp.Some? <==> exists k :: 0 <= k < |msgs| && Reports(msgs[k], controllerId, slot))
  {
    LastWord(crc, InitialState(), msgs, controllerId, slot);
  }

  lemma {:induction false} KnownNodes(crc: Checker, msgs: seq<CanMessage>, controllerId: byte)
    ensures controllerId in ReceiveAll(crc, InitialState(), msgs).telemetry <==>
            exists k, slot :: 0 <= k < |msgs| && Reports(msgs[k], controllerId, slot)
    decreases |msgs|
  {
    if msgs != [] {
      var n := |msgs| - 1;
      KnownNodes(crc, msgs[..n], controllerId);
      KnownNodesStep(crc, ReceiveAll(crc, InitialState(), msgs[..n]), msgs[n], controllerId);
      assert forall k :: 0 <= k < n ==> msgs[..n][k] == msgs[k];
    }
  }

  lemma KnownNodesStep(crc: Checker, s: BusState, msg: CanMessage, controllerId: byte)
    ensures controllerId in Receive(crc, s, msg).telemetry <==>
            controllerId in s.telemetry || exists slot :: Reports(msg, controllerId, slot)
  {
    forall slot
      ensures Reports(msg, controllerId, slot) ==>
        DecodedMessage(msg).Some? && DecodedMessage(msg).value.Telemetry?
        && DecodedMessage(msg).value.controllerId == controllerId
    {
      ReportsAre(msg, controllerId, slot);
    }
    match DecodedMessage(msg) {
      case Some(Telemetry(c, status)) => ReportsAre(msg, c, SlotOf(status));
      case _ =>
    }
  }

  // ----- pongs ----------------------------------------------------------------------------------

  /** The message is a PONG of this controller to this host. */
  predicate Pongs(msg: CanMessage, responder: byte) {
    && msg.extended
    && PacketIdOf(msg.arbitrationId) == 18 && ControllerIdOf(msg.arbitrationId) == HOST_ID
    && |msg.data| >= 1 && msg.data[0] == responder
  }

  function LastPong(msgs: seq<CanMessage>, responder: byte): (r: Option<nat>)
    ensures r.None? <==> forall k :: 0 <= k < |msgs| ==> !Pongs(msgs[k], responder)
    ensures r.Some? ==> r.value < |msgs| && Pongs(msgs[r.value], responder)
    ensures r.Some? ==> forall k :: r.value < k < |msgs| ==> !Pongs(msgs[k], responder)
  {
    if msgs == [] then None
    else
      var n := |msgs| - 1;
      if Pongs(msgs[n], responder) then Some(n) else LastPong(msgs[..n], responder)
  }

  function HwTypeOf(pongs: map<byte, byte>, responder: byte): Option<byte> {
    if responder in pongs then Some(pongs[responder]) else None
  }

  lemma PongReceived(crc: Checker, s: BusState, msg: CanMessage, responder: byte)
    ensures var t := Receive(crc, s, msg);
      && HwTypeOf(t.pongs, responder)
         == (if !Pongs(msg, responder) then HwTypeOf(s.pongs, responder)
             else if |msg.data| >= 2 then Some(msg.data[1])
             else Some(0))
      && (Pongs(msg, responder) ==> t.pongEvent)
  {
  }

  /** After any run, the hardware type known of a controller is that in its last PONG to
      this host, 0 if it named none. */
  lemma {:induction false} LastPongWins(crc: Checker, s: BusState, msgs: seq<CanMessage>, responder: byte)
    ensures var last := LastPong(msgs, responder);
      HwTypeOf(ReceiveAll(crc, s, msgs).pongs, responder)
      == if last.None? then HwTypeOf(s.pongs, responder)
         else if |msgs[last.value].data| >= 2 then Some(msgs[last.value].data[1])
         else Some(0)
    decreases |msgs|
  {
    if msgs != [] {
      var n := |msgs| - 1;
      LastPongWins(crc, s, msgs[..n], responder);
      PongReceived(crc, ReceiveAll(crc, s, msgs[..n]), msgs[n], responder);
    }
  }

  // ----- what is ignored -------------------------------------------------------------------------

  /** How much data a tunnel frame needs. */
  function DataNeeded(packetId: nat): nat {
    if packetId == 5 then 2 else if packetId == 7 then 6 else 3
  }

  /** Nothing changes for a message without an extended id, for a tunnel frame of another
      controller, and for one that is cut short. Only tunnel frames touch the tunnel, and
      they touch nothing else. */
  lemma Ignored(crc: Checker, s: BusState, msg: CanMessage)
    ensures var t, pid := Receive(crc, s, msg), PacketIdOf(msg.arbitrationId);
      && (!msg.extended ==> t == s)
      && (5 <= pid <= 8 && (ControllerIdOf(msg.arbitrationId) != 254 || |msg.data| < DataNeeded(pid)) ==> t == s)
      && (!(5 <= pid <= 8) ==> t.tunnel == s.tunnel)
      && (5 <= pid <= 8 ==> t == s.(tunnel := t.tunnel))
  {
  }

  /** The message hands over this reply: it carries the payload itself, or announces its
      length and a checksum that fits. */
  predicate HandsOver(crc: Checker, msg: CanMessage, r: Reply) {
    && msg.extended && ControllerIdOf(msg.arbitrationId) == HOST_ID
    && var data := msg.data;
    || (PacketIdOf(msg.arbitrationId) == 8 && |data| >= 3 && r == Reply(data[0], data[2..]))
    || (PacketIdOf(msg.arbitrationId) == 7 && |data| >= 6 && r.sender == data[0]
        && |r.payload| <= U16(data[2], data[3]) && crc(r.payload) == U16(data[4], data[5]))
  }

  lemma HandsOverStep(crc: Checker, s: BusState, msg: CanMessage)
    ensures var t := Receive(crc, s, msg).tunnel;
      t.reply == s.tunnel.reply || (t.reply.Some? && HandsOver(crc, msg, t.reply.value) && t.event)
  {
  }

  /** In any run, a stored reply that was not there before was handed over by a message of
      the run, with its payload or with its checksum. */
  lemma {:induction false} StoredReplyWas(crc: Checker, s: BusState, msgs: seq<CanMessage>) returns (k: nat)
    requires ReceiveAll(crc, s, msgs).tunnel.reply != s.tunnel.reply
    ensures k < |msgs| && ReceiveAll(crc, s, msgs).tunnel.reply.Some?
    ensures HandsOver(crc, msgs[k], ReceiveAll(crc, s, msgs).tunnel.reply.value)
    decreases |msgs|
  {
    var n := |msgs| - 1;
    var before := ReceiveAll(crc, s, msgs[..n]);
    HandsOverStep(crc, before, msgs[n]);
    if ReceiveAll(crc, s, msgs).tunnel.reply == before.tunnel.reply {
      k := StoredReplyWas(crc, s, msgs[..n]);
    } else {
      k := n;
    }
  }
}
