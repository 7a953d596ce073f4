/** COMM payloads through the CAN tunnel: what the frames of encode_comm_frames
    leave behind in the receiver, in order and out of order. */
module Tunnel {
  import opened Wrappers
  import opened Bytes
  import opened PacketCodec
  import opened CanFrames
  import opened CanBus

  /** Deliver frames to _on_tunnel_frame one after another. */
  function Deliver(crc: Checker, s: TunnelState, fs: seq<VescFrame>): TunnelState {
    if fs == [] then s
    else
      var n := |fs| - 1;
      TunnelStep(crc, Deliver(crc, s, fs[..n]), PacketIdOf(fs[n].arbitrationId), fs[n].data)
  }

  lemma {:induction false} DeliverAppend(crc: Checker, s: TunnelState, a: seq<VescFrame>, b: seq<VescFrame>)
    ensures Deliver(crc, s, a + b) == Deliver(crc, Deliver(crc, s, a), b)
    decreases |b|
  {
    if b == [] {
      assert a + b == a;
    } else {
      var n := |b| - 1;
      DeliverAppend(crc, s, a, b[..n]);
      assert (a + b)[..|a + b| - 1] == a + b[..n];
    }
  }

  lemma {:induction false} DeliverOne(crc: Checker, s: TunnelState, f: VescFrame)
    ensures Deliver(crc, s, [f]) == TunnelStep(crc, s, PacketIdOf(f.arbitrationId), f.data)
  {
    assert [f][..0] == [];
  }

  /** A FILL frame writes its chunk at its offset and touches nothing else. */
  lemma FillWrites(crc: Checker, s: TunnelState, controllerId: byte, payload: bytes, i: nat)
    requires i < |payload| < 65536
    ensures var f := FillFrame(controllerId, payload, i);
      TunnelStep(crc, s, PacketIdOf(f.arbitrationId), f.data)
      == s.(buf := SliceAssign(s.buf, i, ChunkAt(payload, i)))
  {
    FillFrameShape(controllerId, payload, i);
  }

  /** The PROCESS frame hands over the front of the buffer if its checksum is right. */
  lemma ProcessReads(crc: Checker, s: TunnelState, controllerId: byte, sender: byte, flag: byte, payload: bytes)
    requires |payload| < 65536
    ensures var f := ProcessFrame(crc, controllerId, sender, flag, payload);
      var got := TakeUpTo(s.buf, |payload|);
      TunnelStep(crc, s, PacketIdOf(f.arbitrationId), f.data)
      == if crc(got) == crc(payload) then s.(reply := Some(Reply(sender, got)), event := true) else s
  {
    var f := ProcessFrame(crc, controllerId, sender, flag, payload);
    var length, sum := U16Bytes(|payload|), U16Bytes(crc(payload));
    assert f.data[0] == sender && f.data[2] == length[0] && f.data[3] == length[1];
    assert f.data[4] == sum[0] && f.data[5] == sum[1];
  }

  // ----- in order ------------------------------------------------------------------------

  lemma AssignExtends(buf: bytes, payload: bytes, i: nat, n: nat)
    requires i <= n <= |payload| && i <= |buf| && buf[..i] == payload[..i]
    ensures var r := SliceAssign(buf, i, payload[i..n]);
      |r| == (if n <= |buf| then |buf| else n) && r[..n] == payload[..n]
  {
    assert payload[..n] == payload[..i] + payload[i..n];
  }

  /** The chunk at i arrives in a buffer that holds everything before it. */
  lemma {:induction false} OneFill(crc: Checker, s: TunnelState, controllerId: byte, payload: bytes, i: nat)
    requires i < |payload| < 65536 && i <= |s.buf| && s.buf[..i] == payload[..i]
    ensures var t, n := Deliver(crc, s, [FillFrame(controllerId, payload, i)]), AfterChunk(payload, i);
      && t == s.(buf := t.buf) && |t.buf| == (if n <= |s.buf| then |s.buf| else n)
      && t.buf[..n] == payload[..n]
  {
    FillWrites(crc, s, controllerId, payload, i);
    AssignExtends(s.buf, payload, i, AfterChunk(payload, i));
    DeliverOne(crc, s, FillFrame(controllerId, payload, i));
  }

  lemma {:induction false} FillsSplit(crc: Checker, s: TunnelState, controllerId: byte, payload: bytes, i: nat)
    requires i < |payload| < 65536
    ensures Deliver(crc, s, Fills(controllerId, payload, i))
         == Deliver(crc, Deliver(crc, s, [FillFrame(controllerId, payload, i)]),
                    Fills(controllerId, payload, AfterChunk(payload, i)))
  {
    DeliverAppend(crc, s, [FillFrame(controllerId, payload, i)],
                  Fills(controllerId, payload, AfterChunk(payload, i)));
  }

  lemma {:induction false} NoFills(crc: Checker, s: TunnelState, controllerId: byte, payload: bytes)
    requires |payload| < 65536
    ensures Deliver(crc, s, Fills(controllerId, payload, |payload|)) == s && payload[..|payload|] == payload
  {
  }

  lemma {:induction false} FillsInOrder(crc: Checker, s: TunnelState, controllerId: byte, payload: bytes, i: nat)
    requires i <= |payload| < 65536 && i <= |s.buf| && s.buf[..i] == payload[..i]
    ensures var t := Deliver(crc, s, Fills(controllerId, payload, i));
      && t == s.(buf := t.buf) && |t.buf| == (if |payload| <= |s.buf| then |s.buf| else |payload|)
      && t.buf[..|payload|] == payload
    decreases |payload| - i
  {
    if i == |payload| {
      NoFills(crc, s, controllerId, payload);
    } else {
      OneFill(crc, s, controllerId, payload, i);
      FillsSplit(crc, s, controllerId, payload, i);
      FillsInOrder(crc, Deliver(crc, s, [FillFrame(controllerId, payload, i)]), controllerId, payload,
                   AfterChunk(payload, i));
    }
  }

  /** The round trip: any payload of 1 to 65535 bytes arrives whole, whatever the
      buffer held before and however short it was. */
  lemma {:induction false} InOrder(crc: Checker, s: TunnelState, controllerId: byte, sender: byte, flag: byte,
                                   payload: bytes)
    requires 0 < |payload| < 65536
    ensures var t := Deliver(crc, s, CommFrames(crc, controllerId, sender, flag, payload).value);
      t.reply == Some(Reply(sender, payload)) && t.event
  {
    if |payload| <= 6 {
      var f := ShortFrame(controllerId, sender, flag, payload);
      DeliverOne(crc, s, f);
      assert f.data[2..] == payload;
    } else {
      LongInOrder(crc, s, controllerId, sender, flag, payload);
    }
  }

  lemma {:induction false} LongInOrder(crc: Checker, s: TunnelState, controllerId: byte, sender: byte, flag: byte,
                                       payload: bytes)
    requires 6 < |payload| < 65536
    ensures var process := ProcessFrame(crc, controllerId, sender, flag, payload);
      var t := Deliver(crc, s, Fills(controllerId, payload, 0) + [process]);
      t.reply == Some(Reply(sender, payload)) && t.event
  {
    var fills, f := Fills(controllerId, payload, 0), ProcessFrame(crc, controllerId, sender, flag, payload);
    FillsInOrder(crc, s, controllerId, payload, 0);
    var t := Deliver(crc, s, fills);
    DeliverAppend(crc, s, fills, [f]);
    DeliverOne(crc, t, f);
    ProcessReads(crc, t, controllerId, sender, flag, payload);
  }

  // ----- out of order -------------------------------------------------------------------------

  /** The offset of the last chunk from i on. */
  function LastOffset(payload: bytes, i: nat): (k: nat)
    requires i < |payload|
    ensures i <= k < |payload|
    decreases |payload| - i
  {
    if AfterChunk(payload, i) == |payload| then i else LastOffset(payload, AfterChunk(payload, i))
  }

  /** The offsets of the chunks from i on that come before it. */
  function OffsetsBeforeLast(payload: bytes, i: nat): seq<nat>
    requires i < |payload|
    decreases |payload| - i
  {
    if AfterChunk(payload, i) == |payload| then [] else [i] + OffsetsBeforeLast(payload, AfterChunk(payload, i))
  }

  function Offsets(payload: bytes, i: nat): seq<nat>
    requires i < |payload|
  {
    OffsetsBeforeLast(payload, i) + [LastOffset(payload, i)]
  }

  predicate UpTo(ks: seq<nat>, n: nat) {
    forall k :: k in ks ==> k <= n
  }

  lemma {:induction false} OffsetsUpToLast(payload: bytes, i: nat)
    requires i < |payload|
    ensures UpTo(OffsetsBeforeLast(payload, i), LastOffset(payload, i))
    ensures UpTo(Offsets(payload, i), LastOffset(payload, i))
    decreases |payload| - i
  {
    if AfterChunk(payload, i) < |payload| {
      OffsetsUpToLast(payload, AfterChunk(payload, i));
    }
  }

  lemma OffsetsCons(payload: bytes, i: nat)
    requires i < |payload|
    ensures Offsets(payload, i)
         == [i] + if AfterChunk(payload, i) == |payload| then [] else Offsets(payload, AfterChunk(payload, i))
  {
  }

  /** Offsets of a payload, in any order. */
  predicate InPayload(payload: bytes, ks: seq<nat>) {
    forall k :: k in ks ==> k < |payload|
  }

  /** The FILL frames of some offsets. */
  function FillFrames(controllerId: byte, payload: bytes, ks: seq<nat>): seq<VescFrame>
    requires |payload| < 65536 && InPayload(payload, ks)
  {
    if ks == [] then []
    else
      assert ks[0] in ks && forall k :: k in ks[1..] ==> k in ks;
      [FillFrame(controllerId, payload, ks[0])] + FillFrames(controllerId, payload, ks[1..])
  }

  lemma {:induction false} FillFramesCons(controllerId: byte, payload: bytes, k: nat, ks: seq<nat>)
    requires k < |payload| < 65536 && InPayload(payload, ks)
    ensures InPayload(payload, [k] + ks)
    ensures FillFrames(controllerId, payload, [k] + ks)
         == [FillFrame(controllerId, payload, k)] + FillFrames(controllerId, payload, ks)
  {
    assert ([k] + ks)[1..] == ks;
  }

  lemma {:induction false} NothingBehind(controllerId: byte, payload: bytes)
    requires |payload| < 65536
    ensures Fills(controllerId, payload, |payload|) == []
  {
  }

  lemma {:induction false} FillsCons(controllerId: byte, payload: bytes, i: nat)
    requires i < |payload| < 65536
    ensures Fills(controllerId, payload, i)
         == [FillFrame(controllerId, payload, i)] + Fills(controllerId, payload, AfterChunk(payload, i))
  {
  }

  /** The encoder's frames are those of all offsets, in order. */
  lemma {:induction false} FillsAre(controllerId: byte, payload: bytes, i: nat)
    requires i < |payload| < 65536
    ensures InPayload(payload, Offsets(payload, i))
    ensures Fills(controllerId, payload, i) == FillFrames(controllerId, payload, Offsets(payload, i))
    decreases |payload| - i
  {
    var n := AfterChunk(payload, i);
    OffsetsCons(payload, i);
    FillsCons(controllerId, payload, i);
    if n < |payload| {
      FillsAre(controllerId, payload, n);
      FillFramesCons(controllerId, payload, i, Offsets(payload, n));
    } else {
      FillFramesCons(controllerId, payload, i, []);
      NothingBehind(controllerId, payload);
    }
  }

  /** The buffer after writing the chunks at these offsets, in this order. */
  function WriteAll(buf: bytes, payload: bytes, ks: seq<nat>): bytes
    requires InPayload(payload, ks)
    decreases |ks|
  {
    if ks == [] then buf
    else
      assert ks[0] in ks && forall k :: k in ks[1..] ==> k in ks;
      WriteAll(Written(buf, payload, ks[0]), payload, ks[1..])
  }

  function Written(buf: bytes, payload: bytes, k: nat): (r: bytes)
    requires k < |payload|
    ensures |r| >= |buf|
  {
    SliceAssign(buf, k, ChunkAt(payload, k))
  }

  lemma {:induction false} DeliverWrites(crc: Checker, s: TunnelState, controllerId: byte, payload: bytes, ks: seq<nat>)
    requires |payload| < 65536 && InPayload(payload, ks)
    ensures Deliver(crc, s, FillFrames(controllerId, payload, ks)) == s.(buf := WriteAll(s.buf, payload, ks))
    decreases |ks|
  {
    if ks != [] {
      assert ks[0] in ks && forall k :: k in ks[1..] ==> k in ks;
      var f := FillFrame(controllerId, payload, ks[0]);
      DeliverAppend(crc, s, [f], FillFrames(controllerId, payload, ks[1..]));
      DeliverOne(crc, s, f);
      FillWrites(crc, s, controllerId, payload, ks[0]);
      DeliverWrites(crc, Deliver(crc, s, [f]), controllerId, payload, ks[1..]);
    }
  }

  predicate Carries(payload: bytes, k: nat, j: nat) {
    k < |payload| && k <= j < AfterChunk(payload, k)
  }

  predicate InPlace(buf: bytes, payload: bytes, j: nat)
    requires j < |payload|
  {
    j < |buf| && buf[j] == payload[j]
  }

  lemma WrittenAt(buf: bytes, payload: bytes, k: nat, j: nat)
    requires k < |payload| && k <= |buf| && j < |payload|
    requires Carries(payload, k, j) || InPlace(buf, payload, j)
    ensures InPlace(Written(buf, payload, k), payload, j)
  {
  }

  /** No write undoes a byte that is already in place, and each puts its own in
      place, as long as its offset is not behind the end of the buffer. */
  lemma {:induction false} ByteArrives(buf: bytes, payload: bytes, ks: seq<nat>, j: nat)
    requires InPayload(payload, ks) && UpTo(ks, |buf|) && j < |payload|
    requires InPlace(buf, payload, j) || exists k :: k in ks && Carries(payload, k, j)
    ensures InPlace(WriteAll(buf, payload, ks), payload, j)
    decreases |ks|
  {
    if ks != [] {
      assert ks[0] in ks && forall k :: k in ks[1..] ==> k in ks;
      if InPlace(buf, payload, j) || Carries(payload, ks[0], j) {
        WrittenAt(buf, payload, ks[0], j);
      }
      ByteArrives(Written(buf, payload, ks[0]), payload, ks[1..], j);
    }
  }

  lemma {:induction false} SomeChunkCarries(payload: bytes, i: nat, j: nat) returns (k: nat)
    requires i <= j < |payload|
    ensures k in Offsets(payload, i) && Carries(payload, k, j)
    decreases |payload| - i
  {
    OffsetsCons(payload, i);
    if j < AfterChunk(payload, i) {
      k := i;
    } else {
      k := SomeChunkCarries(payload, AfterChunk(payload, i), j);
    }
  }

  /** A complete delivery in any order, with any repeats. */
  predicate AnyOrderOf(payload: bytes, ks: seq<nat>)
    requires payload != []
  {
    && InPayload(payload, ks)
    && (forall k :: k in ks ==> k in Offsets(payload, 0))
    && (forall k :: k in Offsets(payload, 0) ==> k in ks)
  }

  lemma {:induction false} AnyOrderBounds(payload: bytes, ks: seq<nat>)
    requires payload != [] && forall k :: k in ks ==> k in Offsets(payload, 0)
    ensures InPayload(payload, ks) && UpTo(ks, LastOffset(payload, 0))
  {
    OffsetsUpToLast(payload, 0);
    forall k | k in ks
      ensures k <= LastOffset(payload, 0)
    {
      assert k in Offsets(payload, 0);
    }
  }

  lemma {:induction false} WholePayload(buf: bytes, payload: bytes, ks: seq<nat>)
    requires payload != [] && AnyOrderOf(payload, ks)
    requires InPayload(payload, ks) && UpTo(ks, |buf|)
    ensures TakeUpTo(WriteAll(buf, payload, ks), |payload|) == payload
  {
    var r := WriteAll(buf, payload, ks);
    forall j | 0 <= j < |payload|
      ensures InPlace(r, payload, j)
    {
      var k := SomeChunkCarries(payload, 0, j);
      ByteArrives(buf, payload, ks, j);
    }
    SamePrefix(r, payload);
  }

  lemma SamePrefix(r: bytes, payload: bytes)
    requires forall j :: 0 <= j < |payload| ==> InPlace(r, payload, j)
    ensures TakeUpTo(r, |payload|) == payload
  {
    var got := TakeUpTo(r, |payload|);
    forall j | 0 <= j < |payload|
      ensures j < |got| && got[j] == payload[j]
    {
      assert InPlace(r, payload, j);
    }
    if payload != [] {
      assert got[|payload| - 1] == payload[|payload| - 1];
    }
  }

  /** The frames of a long payload with the FILLs delivered in order ks. */
  function Reordered(crc: Checker, controllerId: byte, sender: byte, flag: byte, payload: bytes, ks: seq<nat>)
    : seq<VescFrame>
    requires |payload| < 65536 && InPayload(payload, ks)
  {
    FillFrames(controllerId, payload, ks) + [ProcessFrame(crc, controllerId, sender, flag, payload)]
  }

  lemma {:induction false} ReorderedDelivers(crc: Checker, s: TunnelState, controllerId: byte, sender: byte,
                                             flag: byte, payload: bytes, ks: seq<nat>)
    requires |payload| < 65536 && InPayload(payload, ks)
    ensures var buf := WriteAll(s.buf, payload, ks);
      var got := TakeUpTo(buf, |payload|);
      Deliver(crc, s, Reordered(crc, controllerId, sender, flag, payload, ks))
      == if crc(got) == crc(payload) then TunnelState(buf, Some(Reply(sender, got)), true) else s.(buf := buf)
  {
    var fills, f := FillFrames(controllerId, payload, ks), ProcessFrame(crc, controllerId, sender, flag, payload);
    var t := Deliver(crc, s, fills);
    DeliverAppend(crc, s, fills, [f]);
    DeliverOne(crc, t, f);
    DeliverWrites(crc, s, controllerId, payload, ks);
    ProcessReads(crc, t, controllerId, sender, flag, payload);
  }

  /** Order and repeats do not matter when the last chunk starts within the buffer. */
  lemma {:induction false} AnyOrder(crc: Checker, s: TunnelState, controllerId: byte, sender: byte, flag: byte,
                                    payload: bytes, ks: seq<nat>)
    requires 6 < |payload| < 65536 && AnyOrderOf(payload, ks)
    requires LastOffset(payload, 0) <= |s.buf|
    ensures InPayload(payload, ks)
    ensures var t := Deliver(crc, s, Reordered(crc, controllerId, sender, flag, payload, ks));
      t.reply == Some(Reply(sender, payload)) && t.event
  {
    AnyOrderBounds(payload, ks);
    WholePayload(s.buf, payload, ks);
    ReorderedDelivers(crc, s, controllerId, sender, flag, payload, ks);
  }

  lemma {:induction false} LengthInOrder(buf: bytes, payload: bytes, i: nat)
    requires i < |payload| && i <= |buf|
    ensures InPayload(payload, OffsetsBeforeLast(payload, i))
    ensures |WriteAll(buf, payload, OffsetsBeforeLast(payload, i))|
         == if LastOffset(payload, i) <= |buf| then |buf| else LastOffset(payload, i)
    decreases |payload| - i
  {
    var n := AfterChunk(payload, i);
    if n < |payload| {
      var ks := OffsetsBeforeLast(payload, n);
      LengthInOrder(Written(buf, payload, i), payload, n);
      assert ([i] + ks)[1..] == ks;
    }
  }

  lemma {:induction false} LastFirstBuffer(buf: bytes, payload: bytes, ks: seq<nat>)
    requires payload != [] && LastOffset(payload, 0) > |buf|
    requires ks == [LastOffset(payload, 0)] + OffsetsBeforeLast(payload, 0)
    ensures AnyOrderOf(payload, ks) && InPayload(payload, ks)
    ensures |WriteAll(buf, payload, ks)| < |payload|
  {
    assert forall k :: k in ks <==> k in Offsets(payload, 0);
    AnyOrderBounds(payload, ks);
    LengthInOrder(Written(buf, payload, LastOffset(payload, 0)), payload, 0);
    assert ks[1..] == OffsetsBeforeLast(payload, 0);
  }

  /** Otherwise they do: when the last chunk starts behind the end of the buffer,
      delivering it first, and the others in order, loses the payload. What is
      handed over, if the checksum lets it through at all, is shorter. */
  lemma LastFirstLoses(crc: Checker, s: TunnelState, controllerId: byte, sender: byte, flag: byte, payload: bytes)
      returns (ks: seq<nat>)
    requires 6 < |payload| < 65536 && LastOffset(payload, 0) > |s.buf|
    ensures AnyOrderOf(payload, ks) && InPayload(payload, ks)
    ensures var t := Deliver(crc, s, Reordered(crc, controllerId, sender, flag, payload, ks));
      t.reply == s.reply || (t.reply.Some? && |t.reply.value.payload| < |payload|)
  {
    ks := [LastOffset(payload, 0)] + OffsetsBeforeLast(payload, 0);
    LastFirstBuffer(s.buf, payload, ks);
    ReorderedDelivers(crc, s, controllerId, sender, flag, payload, ks);
  }

  /** This delivery hands the payload over. */
  ghost predicate ArrivesWhole(crc: Checker, s: TunnelState, controllerId: byte, sender: byte, flag: byte,
                               payload: bytes, ks: seq<nat>)
    requires |payload| < 65536
  {
    && InPayload(payload, ks)
    && Deliver(crc, s, Reordered(crc, controllerId, sender, flag, payload, ks)).reply == Some(Reply(sender, payload))
  }

  /** Every order delivers the payload exactly when its last chunk starts within
      the buffer. */
  lemma {:induction false} OrderIrrelevantIff(crc: Checker, s: TunnelState, controllerId: byte, sender: byte,
                                              flag: byte, payload: bytes)
    requires 6 < |payload| < 65536 && s.reply != Some(Reply(sender, payload))
    ensures LastOffset(payload, 0) <= |s.buf| <==>
            forall ks :: AnyOrderOf(payload, ks) ==> ArrivesWhole(crc, s, controllerId, sender, flag, payload, ks)
  {
    if LastOffset(payload, 0) <= |s.buf| {
      forall ks | AnyOrderOf(payload, ks)
        ensures ArrivesWhole(crc, s, controllerId, sender, flag, payload, ks)
      {
        AnyOrder(crc, s, controllerId, sender, flag, payload, ks);
      }
    } else {
      var ks := LastFirstLoses(crc, s, controllerId, sender, flag, payload);
      assert !ArrivesWhole(crc, s, controllerId, sender, flag, payload, ks);
    }
  }

  // ----- which payloads those are ---------------------------------------------------------------

  lemma {:induction false} LastLongOffset(payload: bytes, i: nat)
    requires 259 <= i < |payload| && (i - 259) % 6 == 0
    ensures var k := LastOffset(payload, i); (k - 259) % 6 == 0 && k < |payload| <= k + 6
    decreases |payload| - i
  {
    if AfterChunk(payload, i) < |payload| {
      LastLongOffset(payload, i + 6);
    }
  }

  lemma {:induction false} PastShortOffsets(payload: bytes, i: nat)
    requires i <= 259 < |payload| && i % 7 == 0
    ensures LastOffset(payload, i) == LastOffset(payload, 259)
    decreases 259 - i
  {
    if i < 259 {
      PastShortOffsets(payload, i + 7);
    }
  }

  lemma {:induction false} LongPayload(payload: bytes, start: nat)
    requires start == 259 < |payload|
    ensures LastOffset(payload, start) <= 512 <==> |payload| <= 517
  {
    LastLongOffset(payload, start);
    SixApart(LastOffset(payload, start), |payload|);
  }

  lemma {:induction false} SameLastOffset(payload: bytes, first: nat, start: nat)
    requires first == 0 && start == 259 < |payload|
    ensures LastOffset(payload, first) == LastOffset(payload, start)
  {
    PastShortOffsets(payload, first);
  }

  lemma {:induction false} InitialBuffer(payload: bytes, first: nat, start: nat)
    requires payload != [] && first == 0 && start == 259
    ensures LastOffset(payload, first) <= 512 <==> |payload| <= 517
  {
    if start < |payload| {
      SameLastOffset(payload, first, start);
      LongPayload(payload, start);
    }
  }

  /** With the 512 bytes a bus starts with, order is irrelevant up to 517 bytes, and
      only up to there. */
  lemma {:induction false} FitsInitialBuffer(payload: bytes)
    requires payload != []
    ensures LastOffset(payload, 0) <= BUFFER_SIZE <==> |payload| <= 517
  {
    InitialBuffer(payload, 0, 259);
  }

  lemma SixApart(k: nat, n: nat)
    requires k >= 259 && (k - 259) % 6 == 0 && k < n <= k + 6
    ensures k <= 512 <==> n <= 517
  {
    var q := (k - 259) / 6;
    assert k == 259 + 6 * q;
  }

  // ----- through the bus ---------------------------------------------------------------------------

  /** The messages that carry these frames. */
  predicate Carried(fs: seq<VescFrame>, msgs: seq<CanMessage>) {
    |msgs| == |fs| && forall i :: 0 <= i < |fs| ==> CarriesFrame(msgs[i], fs[i])
  }

  predicate CarriesFrame(msg: CanMessage, f: VescFrame) {
    msg.extended && msg.arbitrationId == f.arbitrationId && msg.data == f.data
  }

  /** A tunnel frame to this host, by its numbers. */
  predicate ForHost(f: VescFrame) {
    ControllerIdOf(f.arbitrationId) == 254 && 5 <= PacketIdOf(f.arbitrationId) <= 8
  }

  predicate AllForHost(fs: seq<VescFrame>) {
    forall i :: 0 <= i < |fs| ==> ForHost(fs[i])
  }

  lemma BusStep(crc: Checker, s: BusState, msg: CanMessage, f: VescFrame)
    requires CarriesFrame(msg, f) && ForHost(f)
    ensures Receive(crc, s, msg) == s.(tunnel := TunnelStep(crc, s.tunnel, PacketIdOf(f.arbitrationId), f.data))
  {
  }

  /** What the bus makes of them is what the tunnel does. */
  lemma {:induction false} BusDelivers(crc: Checker, s: BusState, fs: seq<VescFrame>, msgs: seq<CanMessage>)
    requires Carried(fs, msgs) && AllForHost(fs)
    ensures ReceiveAll(crc, s, msgs) == s.(tunnel := Deliver(crc, s.tunnel, fs))
    decreases |fs|
  {
    if fs != [] {
      var n := |fs| - 1;
      BusDelivers(crc, s, fs[..n], msgs[..n]);
      BusStep(crc, ReceiveAll(crc, s, msgs[..n]), msgs[n], fs[n]);
    }
  }

  lemma {:induction false} FillsForHost(payload: bytes, i: nat)
    requires i <= |payload| < 65536
    ensures AllForHost(Fills(HOST_ID, payload, i))
    decreases |payload| - i
  {
    if i < |payload| {
      FillFrameShape(HOST_ID, payload, i);
      FillsForHost(payload, AfterChunk(payload, i));
    }
  }

  lemma {:induction false} FillFramesForHost(payload: bytes, ks: seq<nat>)
    requires |payload| < 65536 && InPayload(payload, ks)
    ensures AllForHost(FillFrames(HOST_ID, payload, ks))
    decreases |ks|
  {
    if ks != [] {
      assert ks[0] in ks && forall k :: k in ks[1..] ==> k in ks;
      FillFrameShape(HOST_ID, payload, ks[0]);
      FillFramesForHost(payload, ks[1..]);
    }
  }

  /** A whole reply to this host, received in order by a bus in any state: it is stored and
      announced, and nothing but the tunnel is touched. */
  lemma {:induction false} BusInOrder(crc: Checker, s: BusState, sender: byte, flag: byte, payload: bytes,
                                      msgs: seq<CanMessage>)
    requires 0 < |payload| < 65536
    requires Carried(CommFrames(crc, HOST_ID as int, sender as int, flag as int, payload).value, msgs)
    ensures var t := ReceiveAll(crc, s, msgs);
      t.tunnel.reply == Some(Reply(sender, payload)) && t.tunnel.event && t == s.(tunnel := t.tunnel)
  {
    var fs := CommFrames(crc, HOST_ID as int, sender as int, flag as int, payload).value;
    FillsForHost(payload, 0);
    assert AllForHost(fs);
    BusDelivers(crc, s, fs, msgs);
    InOrder(crc, s.tunnel, HOST_ID, sender, flag, payload);
  }

  lemma {:induction false} ReceiveAppend(crc: Checker, s: BusState, a: seq<CanMessage>, b: seq<CanMessage>)
    ensures ReceiveAll(crc, s, a + b) == ReceiveAll(crc, ReceiveAll(crc, s, a), b)
    decreases |b|
  {
    if b == [] {
      assert a + b == a;
    } else {
      var n := |b| - 1;
      ReceiveAppend(crc, s, a, b[..n]);
      assert (a + b)[..|a + b| - 1] == a + b[..n];
    }
  }

  /** In any run of the bus, whatever was received before, the FILL frames of a payload of up
      to 517 bytes to this host may come in any order and repeatedly. */
  lemma {:induction false} AnyOrderInAnyRun(crc: Checker, history: seq<CanMessage>, sender: byte, flag: byte,
                                            payload: bytes, ks: seq<nat>, msgs: seq<CanMessage>)
    requires 6 < |payload| <= 517 && AnyOrderOf(payload, ks)
    requires Carried(Reordered(crc, HOST_ID, sender, flag, payload, ks), msgs)
    ensures ReceiveAll(crc, InitialState(), history + msgs).tunnel.reply == Some(Reply(sender, payload))
  {
    var s := ReceiveAll(crc, InitialState(), history);
    BufferNeverShrinks(crc, InitialState(), history);
    FitsInitialBuffer(payload);
    AnyOrder(crc, s.tunnel, HOST_ID, sender, flag, payload, ks);
    FillFramesForHost(payload, ks);
    BusDelivers(crc, s, Reordered(crc, HOST_ID, sender, flag, payload, ks), msgs);
    ReceiveAppend(crc, InitialState(), history, msgs);
  }
}
