/**
  The VESC packet codec: framing, and the recovering scanner that looks for a
  packet in a byte buffer and says how many bytes of it to drop.
*/
module PacketCodec {
  import opened Wrappers
  import opened Bytes

  /** The checksum the codec is built with. Everything about the codec holds for
      any function here; the library's is taken to be Crc16.Checksum. */
  type Checker = bytes -> u16

  const SHORT_START: byte := 2
  const LONG_START: byte := 3
  const TERMINATOR: byte := 3
  const FOOTER_SIZE: nat := 3

  /** How to treat a corrupt packet: skip it, or raise. */
  datatype Errors = Ignore | Strict

  /** The start byte doubles as the size of the header. */
  datatype Header = Header(payloadIndex: nat, payloadLength: nat)

  /** What the first bytes of a buffer say. */
  datatype HeaderScan = NeedMore | BadStart | Parsed(header: Header)

  datatype Outcome =
    | Unframed(payload: Option<bytes>, consumed: nat)
    | Raised

  datatype FrameError = EmptyPayload | PayloadTooLong

  function UnpackHeader(buffer: bytes): HeaderScan {
    if buffer == [] then NeedMore
    else if buffer[0] == SHORT_START then
      if |buffer| >= 2 then Parsed(Header(2, buffer[1])) else NeedMore
    else if buffer[0] == LONG_START then
      if |buffer| >= 3 then Parsed(Header(3, U16(buffer[1], buffer[2]))) else NeedMore
    else BadStart
  }

  function PacketSize(header: Header): nat {
    header.payloadIndex + header.payloadLength + FOOTER_SIZE
  }

  /** The footer's checksum and terminator against the payload. */
  predicate ValidPacket(crc: Checker, buffer: bytes, header: Header)
    requires |buffer| >= PacketSize(header)
  {
    var footer := header.payloadIndex + header.payloadLength;
    && crc(buffer[header.payloadIndex..footer]) == U16(buffer[footer], buffer[footer + 1])
    && buffer[footer + 2] == TERMINATOR
  }

  /** Index of the first occurrence of x, -1 if there is none. */
  function Find(buffer: bytes, x: byte): (i: int)
    ensures -1 <= i < |buffer|
    ensures i == -1 ==> x !in buffer
    ensures i >= 0 ==> buffer[i] == x && x !in buffer[..i]
  {
    if buffer == [] then -1
    else if buffer[0] == x then 0
    else
      var i := Find(buffer[1..], x);
      if i == -1 then -1 else i + 1
  }

  predicate IsStart(x: byte) {
    x == SHORT_START || x == LONG_START
  }

  /** The next byte after the first that could start a packet. */
  function NextPossiblePacketIndex(buffer: bytes): (i: int)
    ensures i == -1 || 0 < i < |buffer|
    ensures i == -1 ==> forall k :: 0 < k < |buffer| ==> !IsStart(buffer[k])
    ensures i >= 0 ==> IsStart(buffer[i]) && forall k :: 0 < k < i ==> !IsStart(buffer[k])
  {
    if |buffer| < 2 then -1
    else
      var rest := buffer[1..];
      var short, long := Find(rest, SHORT_START), Find(rest, LONG_START);
      assert forall k :: 0 < k < |buffer| ==> buffer[k] == rest[k - 1] && rest[k - 1] in rest;
      assert forall k :: 0 < k < short + 1 ==> rest[..short][k - 1] == buffer[k];
      assert forall k :: 0 < k < long + 1 ==> rest[..long][k - 1] == buffer[k];
      if short == -1 && long == -1 then -1
      else if long == -1 then short + 1
      else if short == -1 then long + 1
      else if short < long then short + 1 else long + 1
  }

  /** Try to read a packet at the front of the buffer. In recovery mode an
      incomplete packet is skipped too. */
  function Unpack(crc: Checker, buffer: bytes, errors: Errors, recoveryMode: bool): Outcome
    decreases |buffer|, 1
  {
    match UnpackHeader(buffer)
    case NeedMore => OnIncomplete(crc, buffer, errors, recoveryMode)
    case BadStart => OnCorrupt(crc, buffer, errors)
    case Parsed(header) =>
      if |buffer| < PacketSize(header) then OnIncomplete(crc, buffer, errors, recoveryMode)
      else if ValidPacket(crc, buffer, header) then
        Unframed(Some(buffer[header.payloadIndex..header.payloadIndex + header.payloadLength]), PacketSize(header))
      else OnCorrupt(crc, buffer, errors)
  }

  function OnIncomplete(crc: Checker, buffer: bytes, errors: Errors, recoveryMode: bool): Outcome
    decreases |buffer|, 0
  {
    if recoveryMode then RecoveryRecurse(crc, buffer, errors, false) else Unframed(None, 0)
  }

  function OnCorrupt(crc: Checker, buffer: bytes, errors: Errors): Outcome
    decreases |buffer|, 0
  {
    if errors.Ignore? then RecoveryRecurse(crc, buffer, errors, true) else Raised
  }

  function RecoveryRecurse(crc: Checker, buffer: bytes, errors: Errors, consumeOnNotRecovered: bool): Outcome
    decreases |buffer|, 0, 0
  {
    var next := NextPossiblePacketIndex(buffer);
    if next == -1 then Unframed(None, if consumeOnNotRecovered then |buffer| else 0)
    else
      match Unpack(crc, buffer[next..], errors, true)
      case Raised => Raised
      case Unframed(None, consumed) => Unframed(None, if consumeOnNotRecovered then consumed + next else consumed)
      case Unframed(Some(payload), consumed) => Unframed(Some(payload), consumed + next)
  }

  function Unframe(crc: Checker, buffer: bytes, errors: Errors): Outcome {
    Unpack(crc, buffer, errors, false)
  }

  function FrameHeader(n: nat): bytes
    requires n < 65536
  {
    if n < 256 then [SHORT_START, n] else [LONG_START] + U16Bytes(n)
  }

  function Frame(crc: Checker, payload: bytes): Result<bytes, FrameError> {
    if payload == [] then Err(EmptyPayload)
    else if |payload| >= 65536 then Err(PayloadTooLong)
    else Ok(FrameHeader(|payload|) + payload + U16Bytes(crc(payload)) + [TERMINATOR])
  }
}
