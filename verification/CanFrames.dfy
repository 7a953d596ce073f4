/** The native CAN codec: arbitration ids, the chunking of COMM payloads for the
    tunnel, and the decoding of STATUS and PONG frames. */
module CanFrames {
  import opened Wrappers
  import opened Bytes
  import opened PacketCodec

  const FILL_RX_BUFFER := 5
  const FILL_RX_BUFFER_LONG := 6
  const PROCESS_RX_BUFFER := 7
  const PROCESS_SHORT_BUFFER := 8
  const STATUS := 9
  const STATUS_2 := 14
  const STATUS_3 := 15
  const STATUS_4 := 16
  const PONG := 18
  const STATUS_5 := 27
  const STATUS_6 := 58

  datatype VescFrame = VescFrame(arbitrationId: nat, data: bytes)

  datatype EncodeError = ValueError | StructError

  function MakeArbitrationId(packetId: nat, controllerId: int): Result<nat, EncodeError> {
    if 0 <= controllerId < 256 then Ok(256 * packetId + controllerId) else Err(ValueError)
  }

  function PacketIdOf(arbitrationId: nat): nat {
    arbitrationId / 256
  }

  function ControllerIdOf(arbitrationId: nat): byte {
    arbitrationId % 256
  }

  lemma ArbitrationIdRoundTrip(packetId: nat, controllerId: int)
    ensures MakeArbitrationId(packetId, controllerId).Ok? <==> 0 <= controllerId < 256
    ensures MakeArbitrationId(packetId, controllerId).Ok? ==>
      var id := MakeArbitrationId(packetId, controllerId).value;
      PacketIdOf(id) == packetId && ControllerIdOf(id) == controllerId
  {
  }

  // ----- encoding a COMM payload ------------------------------------------------------

  /** The offsets a byte can hold go out in chunks of 7, the others in chunks of 6. */
  function ChunkAt(payload: bytes, i: nat): (c: bytes)
    requires i < |payload|
    ensures 0 < |c| <= (if i <= 255 then 7 else 6) && i + |c| <= |payload|
    ensures c == payload[i..i + |c|]
  {
    var n := if i <= 255 then 7 else 6;
    if i + n <= |payload| then payload[i..i + n] else payload[i..]
  }

  /** Where the chunk behind the one at i starts. */
  function AfterChunk(payload: bytes, i: nat): (n: nat)
    requires i < |payload|
    ensures i < n <= |payload| && ChunkAt(payload, i) == payload[i..n]
  {
    i + |ChunkAt(payload, i)|
  }

  /** The FILL frame that carries the chunk at i. */
  function FillFrame(controllerId: byte, payload: bytes, i: nat): VescFrame
    requires i < |payload| < 65536
  {
    if i <= 255 then VescFrame(256 * FILL_RX_BUFFER + controllerId, [i] + ChunkAt(payload, i))
    else VescFrame(256 * FILL_RX_BUFFER_LONG + controllerId, U16Bytes(i) + ChunkAt(payload, i))
  }

  /** The FILL frames from offset i on. */
  function Fills(controllerId: byte, payload: bytes, i: nat): seq<VescFrame>
    requires i <= |payload| < 65536
    decreases |payload| - i
  {
    if i == |payload| then []
    else [FillFrame(controllerId, payload, i)] + Fills(controllerId, payload, AfterChunk(payload, i))
  }

  function ProcessFrame(crc: Checker, controllerId: byte, senderId: byte, sendFlag: byte, payload: bytes): VescFrame
    requires |payload| < 65536
  {
    VescFrame(256 * PROCESS_RX_BUFFER + controllerId,
              [senderId, sendFlag] + U16Bytes(|payload|) + U16Bytes(crc(payload)))
  }

  function ShortFrame(controllerId: byte, senderId: byte, sendFlag: byte, payload: bytes): VescFrame {
    VescFrame(256 * PROCESS_SHORT_BUFFER + controllerId, [senderId, sendFlag] + payload)
  }

  predicate IsByte(x: int) {
    0 <= x < 256
  }

  /** A sender or a flag that is not a byte is a ValueError in a short frame and a
      struct error in the last one of a long payload. */
  function CommFrames(crc: Checker, controllerId: int, senderId: int, sendFlag: int, payload: bytes)
    : Result<seq<VescFrame>, EncodeError>
  {
    if payload == [] || !IsByte(controllerId) then Err(ValueError)
    else if |payload| <= 6 then
      if IsByte(senderId) && IsByte(sendFlag) then Ok([ShortFrame(controllerId, senderId, sendFlag, payload)])
      else Err(ValueError)
    else if |payload| >= 65536 || !IsByte(senderId) || !IsByte(sendFlag) then Err(StructError)
    else Ok(Fills(controllerId, payload, 0) + [ProcessFrame(crc, controllerId, senderId, sendFlag, payload)])
  }

  /** bytes([a, b]) and struct.pack('BB', a, b), up to the kind of error. */
  function PackBytes(a: int, b: int, error: EncodeError): Result<bytes, EncodeError> {
    if IsByte(a) && IsByte(b) then Ok([a, b]) else Err(error)
  }

  /** struct.pack('!H', n). */
  function PackU16(n: nat): Result<bytes, EncodeError> {
    if n < 65536 then Ok(U16Bytes(n)) else Err(StructError)
  }

  lemma FillFrameShape(controllerId: byte, payload: bytes, i: nat)
    requires i < |payload| < 65536
    ensures var f := FillFrame(controllerId, payload, i);
      && |f.data| <= 8 && ControllerIdOf(f.arbitrationId) == controllerId
      && PacketIdOf(f.arbitrationId) == (if i <= 255 then FILL_RX_BUFFER else FILL_RX_BUFFER_LONG)
      && (i <= 255 ==> f.data[0] == i && f.data[1..] == ChunkAt(payload, i))
      && (i > 255 ==> U16(f.data[0], f.data[1]) == i && f.data[2..] == ChunkAt(payload, i))
  {
  }

  /** The FILL frames up to offset i are out. */
  ghost predicate FilledTo(controllerId: int, payload: bytes, i: nat, out: seq<VescFrame>)
    requires i <= |payload|
  {
    0 <= controllerId < 256 && |payload| < 65536 ==>
      out + Fills(controllerId, payload, i) == Fills(controllerId, payload, 0)
  }

  lemma FilledStep(controllerId: int, payload: bytes, i: nat, out: seq<VescFrame>, f: VescFrame)
    requires i < |payload| && FilledTo(controllerId, payload, i, out)
    requires 0 <= controllerId < 256 && |payload| < 65536 ==> f == FillFrame(controllerId, payload, i)
    ensures FilledTo(controllerId, payload, AfterChunk(payload, i), out + [f])
  {
    if 0 <= controllerId < 256 && |payload| < 65536 {
      var next := Fills(controllerId, payload, AfterChunk(payload, i));
      assert out + ([f] + next) == out + [f] + next;
    }
  }

  lemma FilledStart(controllerId: int, payload: bytes)
    ensures FilledTo(controllerId, payload, 0, [])
  {
  }

  lemma {:induction false} FilledDone(controllerId: int, payload: bytes, out: seq<VescFrame>)
    requires FilledTo(controllerId, payload, |payload|, out)
    ensures 0 <= controllerId < 256 && |payload| < 65536 ==> out == Fills(controllerId, payload, 0)
  {
    if 0 <= controllerId < 256 && |payload| < 65536 {
      assert Fills(controllerId, payload, |payload|) == [];
    }
  }

  /** The two loops of encode_comm_frames. */
  method EncodeFills(controllerId: int, payload: bytes) returns (r: Result<seq<VescFrame>, EncodeError>)
    requires payload != []
    ensures !(0 <= controllerId < 256) ==> r == Err(ValueError)
    ensures 0 <= controllerId < 256 && |payload| < 65536 ==> r == Ok(Fills(controllerId, payload, 0))
    ensures 0 <= controllerId < 256 && r.Err? ==> r == Err(StructError)
  {
    var out: seq<VescFrame> := [];
    var i := 0;
    FilledStart(controllerId, payload);
    while i <= 255 && i < |payload|
      invariant 0 <= i <= |payload| && (i > 0 ==> 0 <= controllerId < 256)
      invariant FilledTo(controllerId, payload, i, out)
      decreases |payload| - i
    {
      var chunk := ChunkAt(payload, i);
      match MakeArbitrationId(FILL_RX_BUFFER, controllerId) {
        case Err(e) =>
          return Err(e);
        case Ok(id) =>
          var f := VescFrame(id, [i] + chunk);
          FilledStep(controllerId, payload, i, out, f);
          out := out + [f];
      }
      i := i + |chunk|;
    }
    r := EncodeFarFills(controllerId, payload, i, out);
  }

  /** The second of them: what lies behind the offsets of one byte. */
  method EncodeFarFills(controllerId: int, payload: bytes, start: nat, before: seq<VescFrame>)
      returns (r: Result<seq<VescFrame>, EncodeError>)
    requires start <= |payload| && (255 < start || start == |payload|) && IsByte(controllerId)
    requires FilledTo(controllerId, payload, start, before)
    ensures |payload| < 65536 ==> r == Ok(Fills(controllerId, payload, 0))
    ensures r.Err? ==> r == Err(StructError)
  {
    var out, i := before, start;
    while i < |payload|
      invariant i <= |payload| && (255 < i || i == |payload|)
      invariant FilledTo(controllerId, payload, i, out)
      decreases |payload| - i
    {
      var chunk := ChunkAt(payload, i);
      match (MakeArbitrationId(FILL_RX_BUFFER_LONG, controllerId), PackU16(i)) {
        case (Ok(id), Ok(offset)) =>
          var f := VescFrame(id, offset + chunk);
          FilledStep(controllerId, payload, i, out, f);
          out := out + [f];
        case _ =>
          return Err(StructError);
      }
      i := i + |chunk|;
    }
    FilledDone(controllerId, payload, out);
    r := Ok(out);
  }

  /** encode_comm_frames. */
  method EncodeCommFrames(crc: Checker, controllerId: int, senderId: int, sendFlag: int, payload: bytes)
      returns (r: Result<seq<VescFrame>, EncodeError>)
    ensures r == CommFrames(crc, controllerId, senderId, sendFlag, payload)
  {
    if payload == [] {
      return Err(ValueError);
    }
    if |payload| <= 6 {
      match (MakeArbitrationId(PROCESS_SHORT_BUFFER, controllerId), PackBytes(senderId, sendFlag, ValueError)) {
        case (Ok(id), Ok(head)) => return Ok([VescFrame(id, head + payload)]);
        case _ => return Err(ValueError);
      }
    }
    r := EncodeFills(controllerId, payload);
    if r.Ok? {
      match (MakeArbitrationId(PROCESS_RX_BUFFER, controllerId), PackBytes(senderId, sendFlag, StructError),
             PackU16(|payload|)) {
        case (Ok(id), Ok(head), Ok(length)) =>
          r := Ok(r.value + [VescFrame(id, head + length + U16Bytes(crc(payload)))]);
        case _ =>
          r := Err(StructError);
      }
    }
  }

  lemma {:induction false} FillsFit(controllerId: byte, payload: bytes, i: nat, k: nat)
    requires i <= |payload| < 65536 && k < |Fills(controllerId, payload, i)|
    ensures var f := Fills(controllerId, payload, i)[k];
      |f.data| <= 8 && ControllerIdOf(f.arbitrationId) == controllerId
    decreases |payload| - i
  {
    if k == 0 {
      FillFrameShape(controllerId, payload, i);
    } else {
      FillsFit(controllerId, payload, AfterChunk(payload, i), k - 1);
    }
  }

  /** A payload is encoded exactly when it has 1 to 65535 bytes and the ids and the
      flag are bytes; every frame then fits the eight bytes of a CAN frame and is
      addressed to that controller. */
  lemma FramesFit(crc: Checker, controllerId: int, senderId: int, sendFlag: int, payload: bytes)
    ensures var r := CommFrames(crc, controllerId, senderId, sendFlag, payload);
      && (r.Ok? <==> IsByte(controllerId) && IsByte(senderId) && IsByte(sendFlag) && 0 < |payload| < 65536)
      && (r.Ok? ==> forall k :: 0 <= k < |r.value| ==>
            |r.value[k].data| <= 8 && ControllerIdOf(r.value[k].arbitrationId) == controllerId)
  {
    var r := CommFrames(crc, controllerId, senderId, sendFlag, payload);
    if r.Ok? && |payload| > 6 {
      forall k | 0 <= k < |Fills(controllerId, payload, 0)|
        ensures var f := Fills(controllerId, payload, 0)[k];
          |f.data| <= 8 && ControllerIdOf(f.arbitrationId) == controllerId
      {
        FillsFit(controllerId, payload, 0, k);
      }
    }
  }

  lemma {:induction false} FillsOnly(controllerId: byte, payload: bytes, i: nat, k: nat)
    requires i <= |payload| < 65536 && k < |Fills(controllerId, payload, i)|
    ensures PacketIdOf(Fills(controllerId, payload, i)[k].arbitrationId) in {FILL_RX_BUFFER, FILL_RX_BUFFER_LONG}
    decreases |payload| - i
  {
    if k == 0 {
      FillFrameShape(controllerId, payload, i);
    } else {
      FillsOnly(controllerId, payload, AfterChunk(payload, i), k - 1);
    }
  }

  /** What the receiver is told: the last frame names the sender and the flag, and either
      carries the payload itself or its length and checksum behind FILL frames. */
  lemma LastFrameTells(crc: Checker, controllerId: int, senderId: int, sendFlag: int, payload: bytes)
    requires CommFrames(crc, controllerId, senderId, sendFlag, payload).Ok?
    ensures var frames := CommFrames(crc, controllerId, senderId, sendFlag, payload).value;
      && frames != []
      && var last := frames[|frames| - 1];
      && |last.data| >= 3 && last.data[0] == senderId && last.data[1] == sendFlag
      && (if |payload| <= 6 then
            |frames| == 1 && PacketIdOf(last.arbitrationId) == PROCESS_SHORT_BUFFER && last.data[2..] == payload
          else
            && PacketIdOf(last.arbitrationId) == PROCESS_RX_BUFFER && |last.data| == 6
            && U16(last.data[2], last.data[3]) == |payload| && U16(last.data[4], last.data[5]) == crc(payload)
            && forall k :: 0 <= k < |frames| - 1 ==>
                 PacketIdOf(frames[k].arbitrationId) in {FILL_RX_BUFFER, FILL_RX_BUFFER_LONG})
  {
    if |payload| > 6 {
      forall k | 0 <= k < |Fills(controllerId, payload, 0)|
        ensures PacketIdOf(Fills(controllerId, payload, 0)[k].arbitrationId) in {FILL_RX_BUFFER, FILL_RX_BUFFER_LONG}
      {
        FillsOnly(controllerId, payload, 0, k);
      }
    }
  }

  // ----- decoding STATUS and PONG ------------------------------------------------------------

  datatype Status =
    | Status1(rpm: real, current: real, duty: real)
    | Status2(ampHours: real, ampHoursCharged: real)
    | Status3(wattHours: real, wattHoursCharged: real)
    | Status4(tempFet: real, tempMotor: real, currentIn: real, pidPos: real)
    | Status5(tachometer: int, vIn: real)
    | Status6(adc1: real, adc2: real, adc3: real, ppm: real)

  datatype DecodedFrame =
    | Telemetry(controllerId: byte, status: Status)
    | Pong(addressee: byte, responder: byte, hwType: byte)

  function I16(data: bytes, off: nat): int
    requires off + 2 <= |data|
  {
    FromSigned(data[off..off + 2])
  }

  function I32(data: bytes, off: nat): int
    requires off + 4 <= |data|
  {
    FromSigned(data[off..off + 4])
  }

  function DecodeFrame(arbitrationId: nat, data: bytes): Option<DecodedFrame> {
    var pid, cid := PacketIdOf(arbitrationId), ControllerIdOf(arbitrationId);
    if pid == STATUS && |data| >= 8 then
      Some(Telemetry(cid, Status1(I32(data, 0) as real, I16(data, 4) as real / 10.0, I16(data, 6) as real / 1000.0)))
    else if pid == STATUS_2 && |data| >= 8 then
      Some(Telemetry(cid, Status2(I32(data, 0) as real / 10000.0, I32(data, 4) as real / 10000.0)))
    else if pid == STATUS_3 && |data| >= 8 then
      Some(Telemetry(cid, Status3(I32(data, 0) as real / 10000.0, I32(data, 4) as real / 10000.0)))
    else if pid == STATUS_4 && |data| >= 8 then
      Some(Telemetry(cid, Status4(I16(data, 0) as real / 10.0, I16(data, 2) as real / 10.0,
                                  I16(data, 4) as real / 10.0, I16(data, 6) as real / 50.0)))
    else if pid == STATUS_5 && |data| >= 6 then
      Some(Telemetry(cid, Status5(I32(data, 0), I16(data, 4) as real / 10.0)))
    else if pid == STATUS_6 && |data| >= 8 then
      Some(Telemetry(cid, Status6(I16(data, 0) as real / 1000.0, I16(data, 2) as real / 1000.0,
                                  I16(data, 4) as real / 1000.0, I16(data, 6) as real / 1000.0)))
    else if pid == PONG && |data| >= 1 then
      Some(Pong(cid, data[0], if |data| >= 2 then data[1] else 0))
    else None
  }

  // ----- what a controller put into a status frame comes out again ------------------------------

  lemma FieldAt(before: bytes, width: nat, v: int, behind: bytes)
    requires FitsSigned(width, v)
    ensures var data, off := before + ToSigned(width, v) + behind, |before|;
      data[off..off + width] == ToSigned(width, v) && FromSigned(data[off..off + width]) == v
  {
    SignedRoundTrip(width, v);
  }

  /** An int32 and two int16 fields (STATUS). */
  lemma LongAndShorts(long: int, a: int, b: int) returns (data: bytes)
    requires FitsSigned(4, long) && FitsSigned(2, a) && FitsSigned(2, b)
    ensures data == ToSigned(4, long) + ToSigned(2, a) + ToSigned(2, b)
    ensures |data| == 8 && I32(data, 0) == long && I16(data, 4) == a && I16(data, 6) == b
  {
    var x, y, z := ToSigned(4, long), ToSigned(2, a), ToSigned(2, b);
    data := x + y + z;
    FieldAt([], 4, long, y + z);
    FieldAt(x, 2, a, z);
    FieldAt(x + y, 2, b, []);
    assert data == [] + x + (y + z) && data == x + y + z + [];
  }

  /** Two int32 fields (STATUS_2 and STATUS_3). */
  lemma TwoLongs(a: int, b: int) returns (data: bytes)
    requires FitsSigned(4, a) && FitsSigned(4, b)
    ensures data == ToSigned(4, a) + ToSigned(4, b)
    ensures |data| == 8 && I32(data, 0) == a && I32(data, 4) == b
  {
    var x, y := ToSigned(4, a), ToSigned(4, b);
    data := x + y;
    FieldAt([], 4, a, y);
    FieldAt(x, 4, b, []);
    assert data == [] + x + y && data == x + y + [];
  }

  lemma FourSlices(w: bytes, x: bytes, y: bytes, z: bytes)
    requires |w| == |x| == |y| == |z| == 2
    ensures var data := w + x + y + z;
      data[0..2] == w && data[2..4] == x && data[4..6] == y && data[6..8] == z
  {
  }

  /** Four int16 fields (STATUS_4 and STATUS_6). */
  lemma FourShorts(a: int, b: int, c: int, d: int) returns (data: bytes)
    requires FitsSigned(2, a) && FitsSigned(2, b) && FitsSigned(2, c) && FitsSigned(2, d)
    ensures data == ToSigned(2, a) + ToSigned(2, b) + ToSigned(2, c) + ToSigned(2, d)
    ensures |data| == 8 && I16(data, 0) == a && I16(data, 2) == b && I16(data, 4) == c && I16(data, 6) == d
  {
    var w, x, y, z := ToSigned(2, a), ToSigned(2, b), ToSigned(2, c), ToSigned(2, d);
    data := w + x + y + z;
    FourSlices(w, x, y, z);
    SignedRoundTrip(2, a);
    SignedRoundTrip(2, b);
    SignedRoundTrip(2, c);
    SignedRoundTrip(2, d);
  }

  /** An int32 and an int16 field (STATUS_5). */
  lemma LongAndShort(a: int, b: int) returns (data: bytes)
    requires FitsSigned(4, a) && FitsSigned(2, b)
    ensures data == ToSigned(4, a) + ToSigned(2, b)
    ensures |data| == 6 && I32(data, 0) == a && I16(data, 4) == b
  {
    var x, y := ToSigned(4, a), ToSigned(2, b);
    data := x + y;
    FieldAt([], 4, a, y);
    FieldAt(x, 2, b, []);
    assert data == [] + x + y && data == x + y + [];
  }

  /** The scaled integers a controller sends are the telemetry that is decoded. */
  lemma StatusesDecode(c: byte, i: int, j: int, a: int, b: int, d: int, e: int)
    requires FitsSigned(4, i) && FitsSigned(4, j)
    requires FitsSigned(2, a) && FitsSigned(2, b) && FitsSigned(2, d) && FitsSigned(2, e)
    ensures DecodeFrame(256 * STATUS + c, ToSigned(4, i) + ToSigned(2, a) + ToSigned(2, b))
         == Some(Telemetry(c, Status1(i as real, a as real / 10.0, b as real / 1000.0)))
    ensures DecodeFrame(256 * STATUS_2 + c, ToSigned(4, i) + ToSigned(4, j))
         == Some(Telemetry(c, Status2(i as real / 10000.0, j as real / 10000.0)))
    ensures DecodeFrame(256 * STATUS_3 + c, ToSigned(4, i) + ToSigned(4, j))
         == Some(Telemetry(c, Status3(i as real / 10000.0, j as real / 10000.0)))
    ensures DecodeFrame(256 * STATUS_4 + c, ToSigned(2, a) + ToSigned(2, b) + ToSigned(2, d) + ToSigned(2, e))
         == Some(Telemetry(c, Status4(a as real / 10.0, b as real / 10.0, d as real / 10.0, e as real / 50.0)))
    ensures DecodeFrame(256 * STATUS_5 + c, ToSigned(4, i) + ToSigned(2, a))
         == Some(Telemetry(c, Status5(i, a as real / 10.0)))
    ensures DecodeFrame(256 * STATUS_6 + c, ToSigned(2, a) + ToSigned(2, b) + ToSigned(2, d) + ToSigned(2, e))
         == Some(Telemetry(c, Status6(a as real / 1000.0, b as real / 1000.0, d as real / 1000.0, e as real / 1000.0)))
  {
    var data1 := LongAndShorts(i, a, b);
    var data2 := TwoLongs(i, j);
    var data4 := FourShorts(a, b, d, e);
    var data5 := LongAndShort(i, a);
  }

  lemma FieldsKept(data: bytes, tail: bytes)
    ensures forall off: nat :: off + 2 <= |data| ==> I16(data + tail, off) == I16(data, off)
    ensures forall off: nat :: off + 4 <= |data| ==> I32(data + tail, off) == I32(data, off)
  {
    forall off: nat | off + 2 <= |data|
      ensures I16(data + tail, off) == I16(data, off)
    {
      assert (data + tail)[off..off + 2] == data[off..off + 2];
    }
    forall off: nat | off + 4 <= |data|
      ensures I32(data + tail, off) == I32(data, off)
    {
      assert (data + tail)[off..off + 4] == data[off..off + 4];
    }
  }

  /** Bytes behind the fields of a STATUS frame change nothing. */
  lemma StatusTailIgnored(arbitrationId: nat, data: bytes, tail: bytes)
    requires DecodeFrame(arbitrationId, data).Some? && DecodeFrame(arbitrationId, data).value.Telemetry?
    ensures DecodeFrame(arbitrationId, data + tail) == DecodeFrame(arbitrationId, data)
  {
    FieldsKept(data, tail);
  }

  // ----- reference frames --------------------------------------------------------------------------

  /** The one frame of a short request to controller 100. */
  lemma GoldenShort(crc: Checker)
    ensures CommFrames(crc, 100, 0xFE, 0, [0]) == Ok([VescFrame(0x864, [0xFE, 0, 0])])
  {
    assert ShortFrame(100, 0xFE, 0, [0]).data == [0xFE, 0, 0];
  }

  /** The four frames of a payload of 20 bytes to controller 7. */
  lemma GoldenLong(crc: Checker, payload: bytes)
    requires |payload| == 20
    ensures CommFrames(crc, 7, 0xFE, 0, payload)
         == Ok([VescFrame(0x507, [0] + payload[..7]), VescFrame(0x507, [7] + payload[7..14]),
                VescFrame(0x507, [14] + payload[14..]),
                VescFrame(0x707, [0xFE, 0, 0, 20] + U16Bytes(crc(payload)))])
  {
    var a, b, c := FillFrame(7, payload, 0), FillFrame(7, payload, 7), FillFrame(7, payload, 14);
    assert ChunkAt(payload, 0) == payload[..7] && AfterChunk(payload, 0) == 7;
    assert ChunkAt(payload, 7) == payload[7..14] && AfterChunk(payload, 7) == 14;
    assert ChunkAt(payload, 14) == payload[14..] && AfterChunk(payload, 14) == 20;
    assert Fills(7, payload, 20) == [];
    assert Fills(7, payload, 14) == [c] + [] == [c];
    assert Fills(7, payload, 7) == [b] + [c] == [b, c];
    assert Fills(7, payload, 0) == [a] + [b, c] == [a, b, c];
    var p := ProcessFrame(crc, 7, 0xFE, 0, payload);
    assert U16Bytes(20) == [0, 20] && p.data == [0xFE, 0, 0, 20] + U16Bytes(crc(payload));
    assert CommFrames(crc, 7, 0xFE, 0, payload) == Ok([a, b, c] + [p]);
    assert [a, b, c] + [p] == [a, b, c, p];
  }

  /** A frame of the long kind carries packet id 6. */
  lemma GoldenFarChunk(payload: bytes)
    requires |payload| == 300
    ensures FillFrame(7, payload, 259) == VescFrame(0x607, [1, 3] + payload[259..265])
  {
    assert U16Bytes(259) == [1, 3];
  }
}
