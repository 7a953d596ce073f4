/** Encoding one message to a packet, and decoding a buffer of packets. */
module Interface {
  import opened Wrappers
  import opened Bytes
  import opened PacketCodec
  import opened PacketStream
  import opened Message
  import PacketScan

  /** What decode returns besides its byte counts. */
  datatype Decoded =
    | Nothing               // no packet in the buffer
    | Joined(value: Value)  // the string fields of all messages, put together
    | Single(msg: Msg)

  // ----- putting messages together -------------------------------------------------

  function UnpackEach(registry: Registry, frames: seq<bytes>, sendFields: bool): (r: Result<seq<Msg>, Error>)
    ensures r.Ok? ==> |r.value| == |frames|
    ensures r.Ok? ==> forall i :: 0 <= i < |frames| ==> Unpacked(registry, frames[i], sendFields) == Ok(r.value[i])
  {
    if frames == [] then Ok([])
    else
      var n := |frames| - 1;
      match UnpackEach(registry, frames[..n], sendFields)
      case Err(e) => Err(e)
      case Ok(before) =>
        match Unpacked(registry, frames[n], sendFields)
        case Err(e) => Err(e)
        case Ok(msg) => Ok(before + [msg])
  }

  /** The string field of the first message's class, looked up in the field list
      the caller named. */
  function JoinField(t: MsgType, recv: bool): Option<(nat, Option<int>)> {
    match if recv then t.recv else t.send
    case None => None
    case Some(fields) =>
      match StringField(fields)
      case None => None
      case Some(sf) => Some((sf, fields[sf].scalar))
  }

  predicate HasField(m: Msg, id: byte, sf: nat) {
    m.id == id && sf < |m.values|
  }

  function JoinText(id: byte, msgs: seq<Msg>, sf: nat): Result<string, Error> {
    if msgs == [] then Ok([])
    else
      var n := |msgs| - 1;
      match JoinText(id, msgs[..n], sf)
      case Err(e) => Err(e)
      case Ok(before) =>
        if !HasField(msgs[n], id, sf) then Err(AttributeError)
        else if !msgs[n].values[sf].Text? then Err(TypeError)
        else Ok(before + msgs[n].values[sf].s + "\n")
  }

  function JoinBytes(id: byte, msgs: seq<Msg>, sf: nat): Result<bytes, Error> {
    if msgs == [] then Ok([])
    else
      var n := |msgs| - 1;
      match JoinBytes(id, msgs[..n], sf)
      case Err(e) => Err(e)
      case Ok(before) =>
        if !HasField(msgs[n], id, sf) then Err(AttributeError)
        else if !msgs[n].values[sf].Blob? then Err(TypeError)
        else Ok(before + msgs[n].values[sf].b)
  }

  function JoinMessages(registry: Registry, msgs: seq<Msg>, recv: bool): (r: Result<Decoded, Error>)
    requires msgs != [] && msgs[0].id in registry
    ensures r != Ok(Nothing)
  {
    var id := msgs[0].id;
    match JoinField(registry[id], recv)
    case None => if |msgs| == 1 then Ok(Single(msgs[0])) else Err(ValueError)
    case Some((sf, None)) =>
      (match JoinText(id, msgs, sf)
       case Ok(s) => Ok(Joined(Text(s)))
       case Err(e) => Err(e))
    case Some((sf, Some(scalar))) =>
      if scalar != BYTESTRING then Err(UnboundLocalError)
      else
        match JoinBytes(id, msgs, sf)
        case Ok(b) => Ok(Joined(Blob(b)))
        case Err(e) => Err(e)
  }

  function Combined(registry: Registry, frames: seq<bytes>, recv: bool): (r: Result<Decoded, Error>)
    ensures r == Ok(Nothing) <==> frames == []
  {
    if frames == [] then Ok(Nothing)
    else
      match UnpackEach(registry, frames, !recv)
      case Err(e) => Err(e)
      case Ok(msgs) =>
        assert Unpacked(registry, frames[0], !recv) == Ok(msgs[0]);
        JoinMessages(registry, msgs, recv)
  }

  // ----- decode --------------------------------------------------------------------------

  /** Unframes the whole buffer and unpacks what it found. The byte counts are
      right even when the messages cannot be unpacked. */
  method Decode(crc: Checker, registry: Registry, buffer: bytes, recv: bool)
      returns (result: Result<Decoded, Error>, consumedTotal: nat, payloadTotal: bytes)
    ensures var d := Drain(crc, buffer);
      && consumedTotal <= |buffer| && buffer[consumedTotal..] == d.rest
      && payloadTotal == Concat(d.frames)
      && result == Combined(registry, d.frames, recv)
  {
    var rest := buffer;
    var messages: seq<bytes> := [];
    consumedTotal, payloadTotal := 0, [];
    while |rest| > 0
      invariant consumedTotal <= |buffer| && rest == buffer[consumedTotal..]
      invariant Drain(crc, buffer) == Prepend(messages, Drain(crc, rest))
      invariant payloadTotal == Concat(messages)
      decreases |rest|
    {
      PacketScan.ConsumedZero(crc, rest);
      var r := Unframe(crc, rest, Ignore);
      if r.consumed == 0 {
        break;
      }
      rest := rest[r.consumed..];
      consumedTotal := consumedTotal + r.consumed;
      if r.payload.Some? {
        PrependTwice(messages, [r.payload.value], Drain(crc, rest));
        ConcatAppend(messages, [r.payload.value]);
        ConcatOne(r.payload.value);
        messages := messages + [r.payload.value];
        payloadTotal := payloadTotal + r.payload.value;
      }
    }
    DrainStops(crc, rest);
    assert messages + [] == messages;
    result := Combined(registry, messages, recv);
  }

  lemma ConcatOne(b: bytes)
    ensures Concat([b]) == b
  {
    assert Concat([b][1..]) == [];
  }

  lemma {:induction false} DrainStops(crc: Checker, b: bytes)
    requires b == [] || (Unframe(crc, b, Ignore).Unframed? && Unframe(crc, b, Ignore).consumed == 0)
    ensures Drain(crc, b) == Drained([], b)
  {
    PacketScan.ConsumedZero(crc, b);
  }

  // ----- a reply split over several packets ------------------------------------------------

  /** The payloads that carry the parts of a string reply. */
  function Replies(id: byte, parts: seq<bytes>): (ps: seq<bytes>)
    ensures |ps| == |parts|
    ensures forall i :: 0 <= i < |parts| ==> ps[i] == [id] + parts[i]
  {
    seq(|parts|, i requires 0 <= i < |parts| => [id] + parts[i])
  }

  predicate IsStringGetter(registry: Registry, id: byte, scalar: Option<int>) {
    id in registry && registry[id].recv == Some([Field(Str, scalar)])
  }

  lemma GetterUnpacks(registry: Registry, id: byte, part: bytes)
    requires IsStringGetter(registry, id, Some(BYTESTRING))
    ensures Unpacked(registry, [id] + part, false) == Ok(Msg(id, [Blob(part)]))
  {
    var fields := [Field(Str, Some(BYTESTRING))];
    assert ([id] + part)[1..] == part;
    OneString(Some(BYTESTRING), part);
  }

  lemma {:induction false} OneString(scalar: Option<int>, part: bytes)
    ensures var fields := [Field(Str, scalar)];
      && StringField(fields) == Some(0) && StringCount(fields) == 1 && CalcSize(fields) == 0
      && Scalars(fields) == (if scalar.Some? then [scalar.value] else [])
      && UnpackAll(fields, |part|, part) == Some([Blob(part)])
  {
    var f := Field(Str, scalar);
    var none: seq<Field> := [];
    assert [f][1..] == none;
    assert StringCount(none) == 0 && CalcSize(none) == 0 && Scalars(none) == [];
    assert part[..|part|] == part && part + [] == part;
    assert UnpackAll(none, |part|, []) == Some([]);
    UnpackCons([f], |part|, part, []);
    assert UnpackAll([f], |part|, part) == Some([Blob(part)]) by {
      var noValues: seq<Value> := [];
      assert [Blob(part)] + noValues == [Blob(part)];
    }
  }

  lemma {:induction false} RepliesUnpack(registry: Registry, id: byte, parts: seq<bytes>)
    requires IsStringGetter(registry, id, Some(BYTESTRING))
    ensures var r := UnpackEach(registry, Replies(id, parts), false);
      && r.Ok? && forall i :: 0 <= i < |parts| ==> r.value[i] == Msg(id, [Blob(parts[i])])
    decreases |parts|
  {
    if parts != [] {
      var n := |parts| - 1;
      RepliesUnpack(registry, id, parts[..n]);
      assert Replies(id, parts)[..n] == Replies(id, parts[..n]);
      GetterUnpacks(registry, id, parts[n]);
    }
  }

  lemma {:induction false} JoinsBack(id: byte, parts: seq<bytes>, msgs: seq<Msg>)
    requires |msgs| == |parts| && forall i :: 0 <= i < |parts| ==> msgs[i] == Msg(id, [Blob(parts[i])])
    ensures JoinBytes(id, msgs, 0) == Ok(Concat(parts))
    decreases |parts|
  {
    if parts != [] {
      var n := |parts| - 1;
      JoinsBack(id, parts[..n], msgs[..n]);
      ConcatAppend(parts[..n], [parts[n]]);
      ConcatOne(parts[n]);
      assert parts[..n] + [parts[n]] == parts;
    }
  }

  /** Any split of a bytestring into the packets of one getter decodes to exactly
      that bytestring, and uses up the buffer. */
  lemma {:induction false} SplitReplyDecodes(crc: Checker, registry: Registry, id: byte, parts: seq<bytes>)
    requires IsStringGetter(registry, id, Some(BYTESTRING)) && parts != []
    requires forall i :: 0 <= i < |parts| ==> |parts[i]| < 65535
    ensures var d := Drain(crc, Stream(Packets(crc, Replies(id, parts))));
      && d.rest == []
      && Combined(registry, d.frames, true) == Ok(Joined(Blob(Concat(parts))))
  {
    var ps := Replies(id, parts);
    var stream := Stream(Packets(crc, ps));
    ConcatOne(stream);
    StreamRoundTrip(crc, ps, [stream]);
    DrainChunksOne(crc, stream);
    RepliesUnpack(registry, id, parts);
    JoinsBack(id, parts, UnpackEach(registry, ps, false).value);
    OneString(Some(BYTESTRING), []);
  }

  /** A text reply, one line for each packet. */
  function Lines(parts: seq<string>): string {
    if parts == [] then [] else Lines(parts[..|parts| - 1]) + parts[|parts| - 1] + "\n"
  }

  function AsciiParts(parts: seq<string>): (bs: seq<bytes>)
    requires forall i :: 0 <= i < |parts| ==> IsAscii(parts[i])
    ensures |bs| == |parts|
    ensures forall i :: 0 <= i < |parts| ==> bs[i] == EncodeAscii(parts[i])
  {
    seq(|parts|, i requires 0 <= i < |parts| => EncodeAscii(parts[i]))
  }

  lemma TextGetterUnpacks(registry: Registry, id: byte, s: string)
    requires IsStringGetter(registry, id, None) && IsAscii(s)
    ensures Unpacked(registry, [id] + EncodeAscii(s), false) == Ok(Msg(id, [Text(s)]))
  {
    assert ([id] + EncodeAscii(s))[1..] == EncodeAscii(s);
    OneString(None, EncodeAscii(s));
    AsciiRoundTrip(s);
    assert [Blob(EncodeAscii(s))][0 := Text(s)] == [Text(s)];
    assert DecodeString([Blob(EncodeAscii(s))], 0, false) == Ok([Text(s)]);
  }

  lemma {:induction false} TextRepliesUnpack(registry: Registry, id: byte, parts: seq<string>)
    requires IsStringGetter(registry, id, None) && forall i :: 0 <= i < |parts| ==> IsAscii(parts[i])
    ensures var r := UnpackEach(registry, Replies(id, AsciiParts(parts)), false);
      r.Ok? && forall i :: 0 <= i < |parts| ==> r.value[i] == Msg(id, [Text(parts[i])])
    decreases |parts|
  {
    if parts != [] {
      var n := |parts| - 1;
      TextRepliesUnpack(registry, id, parts[..n]);
      assert Replies(id, AsciiParts(parts))[..n] == Replies(id, AsciiParts(parts[..n]));
      TextGetterUnpacks(registry, id, parts[n]);
    }
  }

  lemma {:induction false} JoinsLines(id: byte, parts: seq<string>, msgs: seq<Msg>)
    requires |msgs| == |parts| && forall i :: 0 <= i < |parts| ==> msgs[i] == Msg(id, [Text(parts[i])])
    ensures JoinText(id, msgs, 0) == Ok(Lines(parts))
    decreases |parts|
  {
    if parts != [] {
      var n := |parts| - 1;
      JoinsLines(id, parts[..n], msgs[..n]);
    }
  }

  /** A terminal reply of any number of ASCII packets decodes to its lines. */
  lemma {:induction false} TextReplyDecodes(crc: Checker, registry: Registry, id: byte, parts: seq<string>)
    requires IsStringGetter(registry, id, None) && parts != []
    requires forall i :: 0 <= i < |parts| ==> IsAscii(parts[i]) && |parts[i]| < 65535
    ensures var d := Drain(crc, Stream(Packets(crc, Replies(id, AsciiParts(parts)))));
      && d.rest == []
      && Combined(registry, d.frames, true) == Ok(Joined(Text(Lines(parts))))
  {
    var ps := Replies(id, AsciiParts(parts));
    var stream := Stream(Packets(crc, ps));
    ConcatOne(stream);
    StreamRoundTrip(crc, ps, [stream]);
    DrainChunksOne(crc, stream);
    TextRepliesUnpack(registry, id, parts);
    JoinsLines(id, parts, UnpackEach(registry, ps, false).value);
    OneString(None, []);
  }

  lemma {:induction false} DrainChunksOne(crc: Checker, b: bytes)
    ensures DrainChunks(crc, [], [b]) == Drain(crc, b)
  {
    assert [] + b == b;
    assert [b][1..] == [];
  }

  // ----- encode ------------------------------------------------------------------------------

  datatype EncodeError = Packing(e: Error) | Framing(f: FrameError)

  function Encode(crc: Checker, id: byte, fields: seq<Field>, values: seq<Value>, canId: Option<int>)
    : Result<bytes, EncodeError>
    requires |values| == |fields|
  {
    match Packed(id, fields, values, canId)
    case Err(e) => Err(Packing(e))
    case Ok(payload) =>
      match Frame(crc, payload)
      case Err(f) => Err(Framing(f))
      case Ok(packet) => Ok(packet)
  }

  /** The strings, or the bytes, at one position of a list of messages. */
  function Texts(vss: seq<seq<Value>>, sf: nat): (ts: seq<string>)
    ensures |ts| == |vss|
  {
    seq(|vss|, i requires 0 <= i < |vss| => if sf < |vss[i]| && vss[i][sf].Text? then vss[i][sf].s else "")
  }

  function Blobs(vss: seq<seq<Value>>, sf: nat): (bs: seq<bytes>)
    ensures |bs| == |vss|
  {
    seq(|vss|, i requires 0 <= i < |vss| => if sf < |vss[i]| && vss[i][sf].Blob? then vss[i][sf].b else [])
  }

  predicate Shaped(fields: seq<Field>, vss: seq<seq<Value>>) {
    forall i :: 0 <= i < |vss| ==> |vss[i]| == |fields|
  }

  /** The field list of this direction is one of the class's own: only then is a string
      field looked for. */
  predicate LooksForString(t: MsgType, recv: bool) {
    recv ==> t.recv.Some?
  }

  /** What some messages of one class decode to. Without a string field there can be only
      one of them, and it comes back field by field where the field is restorable. With one
      there is only that string: the lines of text, or the bytes if its scalar says so; any
      other scalar is an error. */
  ghost predicate DecodesTo(fields: seq<Field>, vss: seq<seq<Value>>, id: byte, joins: bool, r: Result<Decoded, Error>)
    requires Shaped(fields, vss)
  {
    match if joins then StringField(fields) else None
    case None =>
      if |vss| != 1 then r == Err(ValueError)
      else
        && r.Ok? && r.value.Single? && r.value.msg.id == id && |r.value.msg.values| == |fields|
        && forall k :: 0 <= k < |fields| ==>
             (Same(r.value.msg.values[k], vss[0][k]) <==> Restorable(fields, k, vss[0][k]))
    case Some(sf) =>
      match fields[sf].scalar
      case None =>
        && (forall i :: 0 <= i < |vss| ==> vss[i][sf].Text?)
        && r == Ok(Joined(Text(Lines(Texts(vss, sf)))))
      case Some(s) =>
        if s != BYTESTRING then r == Err(UnboundLocalError)
        else (forall i :: 0 <= i < |vss| ==> vss[i][sf].Blob?) && r == Ok(Joined(Blob(Concat(Blobs(vss, sf)))))
  }

  ghost predicate AllEncoded(crc: Checker, id: byte, fields: seq<Field>, vss: seq<seq<Value>>, packets: seq<bytes>)
    requires Shaped(fields, vss) && |packets| == |vss|
  {
    forall i :: 0 <= i < |vss| ==> Encode(crc, id, fields, vss[i], None) == Ok(packets[i])
  }

  ghost predicate AllPacked(id: byte, fields: seq<Field>, vss: seq<seq<Value>>, payloads: seq<bytes>)
    requires Shaped(fields, vss)
  {
    |payloads| == |vss| && forall i :: 0 <= i < |vss| ==> Packed(id, fields, vss[i], None) == Ok(payloads[i])
  }

  lemma OneEncoded(crc: Checker, id: byte, fields: seq<Field>, values: seq<Value>, packet: bytes)
    requires |values| == |fields| && Encode(crc, id, fields, values, None) == Ok(packet)
    ensures Packed(id, fields, values, None).Ok?
    ensures var payload := Packed(id, fields, values, None).value;
      Sendable(payload) && packet == Framed(crc, payload)
  {
  }

  lemma MorePackets(crc: Checker, first: bytes, rest: seq<bytes>)
    requires Sendable(first) && forall i :: 0 <= i < |rest| ==> Sendable(rest[i])
    ensures Stream(Packets(crc, [first] + rest)) == Framed(crc, first) + Stream(Packets(crc, rest))
  {
    assert Packets(crc, [first] + rest)[1..] == Packets(crc, rest);
  }

  /** Encoded packets back to back are the stream of the packed payloads. */
  lemma {:induction false} EncodedStream(crc: Checker, id: byte, fields: seq<Field>, vss: seq<seq<Value>>,
                                         packets: seq<bytes>) returns (payloads: seq<bytes>)
    requires Shaped(fields, vss) && |packets| == |vss| && AllEncoded(crc, id, fields, vss, packets)
    ensures AllPacked(id, fields, vss, payloads) && forall i :: 0 <= i < |payloads| ==> Sendable(payloads[i])
    ensures Concat(packets) == Stream(Packets(crc, payloads))
    decreases |vss|
  {
    if vss == [] {
      payloads := [];
    } else {
      OneEncoded(crc, id, fields, vss[0], packets[0]);
      var rest := EncodedStream(crc, id, fields, vss[1..], packets[1..]);
      var first := Packed(id, fields, vss[0], None).value;
      payloads := [first] + rest;
      MorePackets(crc, first, rest);
      assert forall i :: 0 < i < |vss| ==> vss[i] == vss[1..][i - 1];
    }
  }

  lemma {:induction false} PackedUnpacks(registry: Registry, id: byte, fields: seq<Field>, values: seq<Value>,
                                         recv: bool, payload: bytes)
    requires |values| == |fields| && id in registry && Chosen(registry[id], !recv) == Some(fields)
    requires Packed(id, fields, values, None) == Ok(payload)
    ensures var r := Unpacked(registry, payload, !recv);
      && r.Ok? && r.value.id == id && |r.value.values| == |fields|
      && (forall k :: 0 <= k < |fields| ==>
            (Same(r.value.values[k], values[k]) <==> Restorable(fields, k, values[k])))
      && (StringField(fields).Some? ==> var sf := StringField(fields).value; r.value.values[sf] == values[sf])
    ensures StringField(fields).Some? ==> var sf := StringField(fields).value;
      if fields[sf].scalar == Some(BYTESTRING) then values[sf].Blob? else values[sf].Text?
  {
    RoundTrip(registry, id, fields, values, !recv, payload);
    if StringField(fields).Some? {
      PackedKind(id, fields, values, StringField(fields).value, payload);
    }
  }

  lemma {:induction false} EachUnpacks(registry: Registry, id: byte, fields: seq<Field>, vss: seq<seq<Value>>,
                                       recv: bool, payloads: seq<bytes>)
    requires Shaped(fields, vss) && id in registry && Chosen(registry[id], !recv) == Some(fields)
    requires AllPacked(id, fields, vss, payloads)
    ensures UnpackEach(registry, payloads, !recv).Ok?
    decreases |payloads|
  {
    if payloads != [] {
      var n := |payloads| - 1;
      EachUnpacks(registry, id, fields, vss[..n], recv, payloads[..n]);
      PackedUnpacks(registry, id, fields, vss[n], recv, payloads[n]);
    }
  }

  /** Messages whose strings are those of the values. */
  ghost predicate Carries(msgs: seq<Msg>, id: byte, sf: nat, vss: seq<seq<Value>>) {
    |msgs| == |vss|
    && forall i :: 0 <= i < |vss| ==> HasField(msgs[i], id, sf) && sf < |vss[i]| && msgs[i].values[sf] == vss[i][sf]
  }

  lemma {:induction false} JoinsTexts(id: byte, msgs: seq<Msg>, sf: nat, vss: seq<seq<Value>>)
    requires Carries(msgs, id, sf, vss) && forall i :: 0 <= i < |vss| ==> vss[i][sf].Text?
    ensures JoinText(id, msgs, sf) == Ok(Lines(Texts(vss, sf)))
    decreases |vss|
  {
    if vss != [] {
      var n := |vss| - 1;
      JoinsTexts(id, msgs[..n], sf, vss[..n]);
      assert Texts(vss, sf)[..n] == Texts(vss[..n], sf);
    }
  }

  lemma {:induction false} JoinsBlobs(id: byte, msgs: seq<Msg>, sf: nat, vss: seq<seq<Value>>)
    requires Carries(msgs, id, sf, vss) && forall i :: 0 <= i < |vss| ==> vss[i][sf].Blob?
    ensures JoinBytes(id, msgs, sf) == Ok(Concat(Blobs(vss, sf)))
    decreases |vss|
  {
    if vss != [] {
      var n := |vss| - 1;
      var bs := Blobs(vss, sf);
      JoinsBlobs(id, msgs[..n], sf, vss[..n]);
      assert bs[..n] == Blobs(vss[..n], sf) && bs == bs[..n] + [bs[n]];
      ConcatAppend(bs[..n], [bs[n]]);
      ConcatOne(bs[n]);
    }
  }

  /** Packed payloads of one class decode to what they were packed from. */
  lemma PackedDecode(registry: Registry, id: byte, fields: seq<Field>, vss: seq<seq<Value>>, recv: bool,
                     payloads: seq<bytes>)
    requires vss != [] && Shaped(fields, vss) && id in registry && Chosen(registry[id], !recv) == Some(fields)
    requires AllPacked(id, fields, vss, payloads)
    ensures DecodesTo(fields, vss, id, LooksForString(registry[id], recv), Combined(registry, payloads, recv))
  {
    EachUnpacks(registry, id, fields, vss, recv, payloads);
    var msgs := UnpackEach(registry, payloads, !recv).value;
    forall i | 0 <= i < |vss|
      ensures msgs[i].id == id && |msgs[i].values| == |fields|
    {
      PackedUnpacks(registry, id, fields, vss[i], recv, payloads[i]);
    }
    if LooksForString(registry[id], recv) && StringField(fields).Some? {
      StringsDecode(registry, id, fields, vss, recv, payloads, msgs);
    } else {
      assert JoinField(registry[id], recv) == None;
      PackedUnpacks(registry, id, fields, vss[0], recv, payloads[0]);
    }
  }

  lemma {:induction false} StringsDecode(registry: Registry, id: byte, fields: seq<Field>, vss: seq<seq<Value>>,
                                         recv: bool, payloads: seq<bytes>, msgs: seq<Msg>)
    requires vss != [] && Shaped(fields, vss) && id in registry && Chosen(registry[id], !recv) == Some(fields)
    requires LooksForString(registry[id], recv) && StringField(fields).Some?
    requires AllPacked(id, fields, vss, payloads) && UnpackEach(registry, payloads, !recv) == Ok(msgs)
    ensures DecodesTo(fields, vss, id, true, JoinMessages(registry, msgs, recv))
  {
    var sf := StringField(fields).value;
    forall i | 0 <= i < |vss|
      ensures HasField(msgs[i], id, sf) && msgs[i].values[sf] == vss[i][sf]
      ensures if fields[sf].scalar == Some(BYTESTRING) then vss[i][sf].Blob? else vss[i][sf].Text?
    {
      PackedUnpacks(registry, id, fields, vss[i], recv, payloads[i]);
    }
    if fields[sf].scalar == None {
      JoinsTexts(id, msgs, sf, vss);
    } else if fields[sf].scalar == Some(BYTESTRING) {
      JoinsBlobs(id, msgs, sf, vss);
    }
  }

  /** Decoding any number of encoded messages of one class, in either direction, uses up
      their packets and gives back what was encoded, as far as `DecodesTo` says. */
  lemma {:induction false} EncodeDecode(crc: Checker, registry: Registry, id: byte, fields: seq<Field>,
                                        vss: seq<seq<Value>>, recv: bool, packets: seq<bytes>)
    requires vss != [] && Shaped(fields, vss) && |packets| == |vss|
    requires id in registry && Chosen(registry[id], !recv) == Some(fields)
    requires AllEncoded(crc, id, fields, vss, packets)
    ensures var d := Drain(crc, Concat(packets));
      && d.rest == [] && |d.frames| == |vss|
      && DecodesTo(fields, vss, id, LooksForString(registry[id], recv), Combined(registry, d.frames, recv))
  {
    var payloads := EncodedStream(crc, id, fields, vss, packets);
    var stream := Stream(Packets(crc, payloads));
    ConcatOne(stream);
    StreamRoundTrip(crc, payloads, [stream]);
    DrainChunksOne(crc, stream);
    PackedDecode(registry, id, fields, vss, recv, payloads);
  }

  // ----- what cannot be decoded ------------------------------------------------------------------

  lemma {:induction false} UnpackEachStep(registry: Registry, frames: seq<bytes>, sendFields: bool, before: seq<bytes>,
                                          r: Result<seq<Msg>, Error>, last: Result<Msg, Error>)
    requires frames != [] && before == frames[..|frames| - 1]
    requires r == UnpackEach(registry, before, sendFields)
    requires last == Unpacked(registry, frames[|frames| - 1], sendFields)
    ensures UnpackEach(registry, frames, sendFields)
         == if r.Err? then r else if last.Err? then Err(last.error) else Ok(r.value + [last.value])
  {
  }

  /** The first frame that cannot be unpacked fails them all. */
  lemma {:induction false} FirstFailure(registry: Registry, frames: seq<bytes>, sendFields: bool, i: nat, e: Error)
    requires i < |frames| && Unpacked(registry, frames[i], sendFields) == Err(e)
    requires forall j :: 0 <= j < i ==> Unpacked(registry, frames[j], sendFields).Ok?
    ensures UnpackEach(registry, frames, sendFields) == Err(e)
    decreases |frames|
  {
    var n := |frames| - 1;
    var before := frames[..n];
    if i < n {
      FirstFailure(registry, before, sendFields, i, e);
    } else {
      AllUnpack(registry, before, sendFields);
    }
    UnpackEachStep(registry, frames, sendFields, before, UnpackEach(registry, before, sendFields),
                   Unpacked(registry, frames[n], sendFields));
  }

  lemma {:induction false} AllUnpack(registry: Registry, frames: seq<bytes>, sendFields: bool)
    requires forall j :: 0 <= j < |frames| ==> Unpacked(registry, frames[j], sendFields).Ok?
    ensures UnpackEach(registry, frames, sendFields).Ok?
    decreases |frames|
  {
    if frames != [] {
      var n := |frames| - 1;
      var before := frames[..n];
      AllUnpack(registry, before, sendFields);
      UnpackEachStep(registry, frames, sendFields, before, UnpackEach(registry, before, sendFields),
                     Unpacked(registry, frames[n], sendFields));
    }
  }

  /** Messages of one class with a string in this field, as text or as bytes. */
  predicate AllCarry(msgs: seq<Msg>, id: byte, sf: nat, text: bool) {
    forall j :: 0 <= j < |msgs| ==>
      HasField(msgs[j], id, sf) && if text then msgs[j].values[sf].Text? else msgs[j].values[sf].Blob?
  }

  /** A message of another class behind such messages. */
  lemma {:induction false} StrangerFails(id: byte, msgs: seq<Msg>, sf: nat, i: nat)
    requires i < |msgs| && msgs[i].id != id
    ensures AllCarry(msgs[..i], id, sf, true) ==> JoinText(id, msgs, sf) == Err(AttributeError)
    ensures AllCarry(msgs[..i], id, sf, false) ==> JoinBytes(id, msgs, sf) == Err(AttributeError)
    decreases |msgs|
  {
    var n := |msgs| - 1;
    if i < n {
      assert msgs[..n][..i] == msgs[..i];
      StrangerFails(id, msgs[..n], sf, i);
    } else {
      AllJoin(id, msgs[..n], sf);
    }
  }

  lemma {:induction false} AllJoin(id: byte, msgs: seq<Msg>, sf: nat)
    ensures AllCarry(msgs, id, sf, true) ==> JoinText(id, msgs, sf).Ok?
    ensures AllCarry(msgs, id, sf, false) ==> JoinBytes(id, msgs, sf).Ok?
    decreases |msgs|
  {
    if msgs != [] {
      var n := |msgs| - 1;
      assert forall j :: 0 <= j < n ==> msgs[..n][j] == msgs[j];
      AllJoin(id, msgs[..n], sf);
    }
  }

  predicate NoString(t: MsgType, recv: bool) {
    var fields := if recv then t.recv else t.send;
    fields.None? || StringCount(fields.value) == 0
  }

  /** What the frames unpack to, one by one. */
  ghost predicate UnpackTo(registry: Registry, frames: seq<bytes>, recv: bool, msgs: seq<Msg>) {
    |msgs| == |frames| && forall j :: 0 <= j < |frames| ==> Unpacked(registry, frames[j], !recv) == Ok(msgs[j])
  }

  lemma {:induction false} UnpackEachIs(registry: Registry, frames: seq<bytes>, recv: bool, msgs: seq<Msg>)
    requires UnpackTo(registry, frames, recv, msgs)
    ensures UnpackEach(registry, frames, !recv) == Ok(msgs)
  {
    AllUnpack(registry, frames, !recv);
    var r := UnpackEach(registry, frames, !recv).value;
    assert |r| == |msgs| && forall j :: 0 <= j < |frames| ==> r[j] == msgs[j];
    assert r == msgs;
  }

  /** No frame can be decoded around: the first that cannot be unpacked gives its error. */
  lemma UnpackFails(registry: Registry, frames: seq<bytes>, recv: bool, i: nat, e: Error)
    requires i < |frames| && Unpacked(registry, frames[i], !recv) == Err(e)
    requires forall j :: 0 <= j < i ==> Unpacked(registry, frames[j], !recv).Ok?
    ensures Combined(registry, frames, recv) == Err(e)
  {
    FirstFailure(registry, frames, !recv, i, e);
  }

  /** Several messages can only be put together by a string field of the first one's class. */
  lemma ManyFail(registry: Registry, frames: seq<bytes>, recv: bool, msgs: seq<Msg>)
    requires UnpackTo(registry, frames, recv, msgs) && |frames| > 1
    requires msgs[0].id in registry && NoString(registry[msgs[0].id], recv)
    ensures Combined(registry, frames, recv) == Err(ValueError)
  {
    UnpackEachIs(registry, frames, recv, msgs);
  }

  /** And not if a message of another class is among them. */
  lemma StrangerFailsAll(registry: Registry, frames: seq<bytes>, recv: bool, msgs: seq<Msg>, sf: nat,
                         scalar: Option<int>, i: nat)
    requires UnpackTo(registry, frames, recv, msgs) && i < |frames| && msgs[i].id != msgs[0].id
    requires msgs[0].id in registry && JoinField(registry[msgs[0].id], recv) == Some((sf, scalar))
    requires scalar in {None, Some(BYTESTRING)} && AllCarry(msgs[..i], msgs[0].id, sf, scalar == None)
    ensures Combined(registry, frames, recv) == Err(AttributeError)
  {
    UnpackEachIs(registry, frames, recv, msgs);
    StrangerFails(msgs[0].id, msgs, sf, i);
  }

  /** A packed string is text, unless its scalar says it is bytes. */
  lemma {:induction false} PackedKind(id: byte, fields: seq<Field>, values: seq<Value>, sf: nat, payload: bytes)
    requires |values| == |fields| && StringField(fields) == Some(sf) && Packed(id, fields, values, None) == Ok(payload)
    ensures if fields[sf].scalar == Some(BYTESTRING) then values[sf].Blob? else values[sf].Text?
  {
    var vals, n := PackedString(id, fields, values, sf, payload);
    ScalarOfString(fields, sf);
    if AsBytestring(fields, sf) {
      assert WireValue(fields, sf, values[sf]) == values[sf];
    }
  }

  lemma {:induction false} ScalarOfString(fields: seq<Field>, sf: nat)
    requires sf < |fields| && (Scalars(fields) == [] || |Scalars(fields)| == |fields|)
    ensures AsBytestring(fields, sf) <==> fields[sf].scalar == Some(BYTESTRING) && Scalars(fields) != []
    ensures Scalars(fields) == [] ==> fields[sf].scalar == None
  {
    if Scalars(fields) == [] {
      NoScalar(fields, sf);
    }
  }

  lemma {:induction false} NoScalar(fields: seq<Field>, k: nat)
    requires Scalars(fields) == [] && k < |fields|
    ensures fields[k].scalar == None
    decreases |fields|
  {
    if k > 0 {
      NoScalar(fields[1..], k - 1);
    }
  }

  lemma PacketDrains(crc: Checker, payload: bytes)
    requires Sendable(payload)
    ensures Drain(crc, Framed(crc, payload)) == Drained([payload], [])
  {
    var packet := Framed(crc, payload);
    FrameRoundTrip(crc, payload, [], Ignore);
    assert packet + [] == packet;
    assert packet[|packet|..] == [];
    DrainEmpty(crc);
  }

  /** A message is encoded exactly when it can be packed, to no more than 65535 bytes; a
      longer one is refused by the framing. */
  lemma EncodesIff(crc: Checker, id: byte, fields: seq<Field>, values: seq<Value>)
    requires |values| == |fields|
    ensures var packed := Packed(id, fields, values, None);
      && (Encode(crc, id, fields, values, None).Ok? <==>
            AllEncodable(fields, values) && (packed.Ok? ==> |packed.value| < 65536))
      && (packed.Ok? && |packed.value| >= 65536
          ==> Encode(crc, id, fields, values, None) == Err(Framing(PayloadTooLong)))
      && (packed.Err? ==> Encode(crc, id, fields, values, None) == Err(Packing(packed.error)))
  {
    PacksIff(id, fields, values);
  }

  // ----- asking for a getter message --------------------------------------------------------------

  /** encode_request: a packet of the header alone. */
  function EncodeRequest(crc: Checker, id: byte, canId: Option<int>): Result<bytes, EncodeError> {
    match PackedHeader(id, canId)
    case Err(e) => Err(Packing(e))
    case Ok(payload) =>
      match Frame(crc, payload)
      case Err(f) => Err(Framing(f))
      case Ok(packet) => Ok(packet)
  }

  /** A request drains to its command id, behind the forwarding prefix if there is a CAN
      id; it fails exactly when that id is not a byte. */
  lemma RequestDrains(crc: Checker, id: byte, canId: Option<int>)
    ensures EncodeRequest(crc, id, canId).Err? <==> canId.Some? && !(0 <= canId.value < 256)
    ensures EncodeRequest(crc, id, canId).Ok? ==>
      Drain(crc, EncodeRequest(crc, id, canId).value)
      == Drained([if canId.Some? then [FORWARD_CAN, canId.value as byte, id] else [id]], [])
  {
    if PackedHeader(id, canId).Ok? {
      PacketDrains(crc, PackedHeader(id, canId).value);
    }
  }
}
