/**
  Packets on a byte stream: framing and unframing are inverse, and draining a
  stream of packets gives the same payloads however the bytes were cut into
  arrivals.
*/
module PacketStream {
  import opened Wrappers
  import opened Bytes
  import opened PacketCodec
  import opened PacketScan

  predicate Sendable(payload: bytes) {
    0 < |payload| < 65536
  }

  /** The packet of a sendable payload. */
  function Framed(crc: Checker, payload: bytes): (f: bytes)
    requires Sendable(payload)
    ensures Frame(crc, payload) == Ok(f)
    ensures |f| == (if |payload| < 256 then 2 else 3) + |payload| + FOOTER_SIZE
  {
    Frame(crc, payload).value
  }

  // ----- one packet ----------------------------------------------------------------

  lemma FramedParts(crc: Checker, payload: bytes)
    requires Sendable(payload)
    ensures var f := Framed(crc, payload);
      var h := if |payload| < 256 then 2 else 3;
      && f[0] == h && IsStart(f[0])
      && (h == 2 ==> f[1] == |payload|)
      && (h == 3 ==> U16(f[1], f[2]) == |payload|)
      && f[h..h + |payload|] == payload
      && U16(f[h + |payload|], f[h + |payload| + 1]) == crc(payload)
      && f[h + |payload| + 2] == TERMINATOR
  {
    var header, sum := FrameHeader(|payload|), U16Bytes(crc(payload));
    var f := Framed(crc, payload);
    assert f == header + payload + sum + [TERMINATOR];
    assert f[|header|..|header| + |payload|] == payload;
  }

  /** A packet at the front of a buffer, whatever follows it. */
  lemma FramedIsGood(crc: Checker, payload: bytes, rest: bytes)
    requires Sendable(payload)
    ensures var b := Framed(crc, payload) + rest;
      Good(crc, b, 0) && SizeAt(b, 0) == |Framed(crc, payload)| && PayloadAt(b, 0) == payload
  {
    FramedParts(crc, payload);
    var f := Framed(crc, payload);
    var b := f + rest;
    var h := if |payload| < 256 then 2 else 3;
    assert b[h..h + |payload|] == f[h..h + |payload|];
  }

  lemma FirstGoodHere(crc: Checker, b: bytes)
    requires Good(crc, b, 0)
    ensures Scan(crc, b) == Unframed(Some(PayloadAt(b, 0)), SizeAt(b, 0))
  {
  }

  /** Unframing a packet returns its payload and eats exactly its bytes. */
  lemma FrameRoundTrip(crc: Checker, payload: bytes, rest: bytes, errors: Errors)
    requires Sendable(payload)
    ensures Unframe(crc, Framed(crc, payload) + rest, errors) == Unframed(Some(payload), |Framed(crc, payload)|)
  {
    var b := Framed(crc, payload) + rest;
    FramedIsGood(crc, payload, rest);
    if errors.Ignore? {
      UnframeFindsFirst(crc, b);
      FirstGoodHere(crc, b);
    } else {
      StrictRaisesIffCorrupt(crc, b);
    }
  }

  lemma PartialIsIncomplete(crc: Checker, payload: bytes, n: nat)
    requires Sendable(payload) && 0 < n < |Framed(crc, payload)|
    ensures Incomplete(Framed(crc, payload)[..n], 0)
  {
    FramedParts(crc, payload);
  }

  /** Part of a packet is left alone until the rest arrives. */
  lemma PartialWaits(crc: Checker, payload: bytes, n: nat, errors: Errors)
    requires Sendable(payload) && n < |Framed(crc, payload)|
    ensures Unframe(crc, Framed(crc, payload)[..n], errors) == Unframed(None, 0)
  {
    var b := Framed(crc, payload)[..n];
    if n > 0 {
      PartialIsIncomplete(crc, payload, n);
    }
    if errors.Ignore? {
      UnframeFindsFirst(crc, b);
    } else {
      StrictRaisesIffCorrupt(crc, b);
    }
  }

  /** The packet at the front uses the header form `Frame` would have used. */
  predicate Canonical(b: bytes)
    requires HeaderFits(b, 0)
  {
    if b[0] == SHORT_START then LengthAt(b, 0) > 0 else LengthAt(b, 0) >= 256
  }

  /** The unpacker accepts packets the packer never makes; framing what it
      returned gives the bytes back exactly for the others. */
  lemma ReframeIff(crc: Checker, b: bytes)
    requires Good(crc, b, 0)
    ensures Frame(crc, PayloadAt(b, 0)) == Ok(b[..SizeAt(b, 0)]) <==> Canonical(b)
  {
    var p, n := PayloadAt(b, 0), SizeAt(b, 0);
    assert |p| == LengthAt(b, 0);
    if Canonical(b) {
      FramedParts(crc, p);
      GoodBytes(crc, b);
    } else if Sendable(p) {
      FramedParts(crc, p);
      assert Framed(crc, p)[0] != b[..n][0];
    }
  }

  /** A good packet in a form that `Frame` never makes: no payload at all, or a short
      payload behind a long header. Unframing either gives its payload. */
  lemma NonCanonicalAccepted(crc: Checker, b: bytes, payload: bytes)
    requires |payload| < 256
    requires var footer := U16Bytes(crc(payload)) + [TERMINATOR];
      || (payload == [] && b == [SHORT_START, 0] + footer)
      || b == [LONG_START, 0, |payload|] + payload + footer
    ensures Good(crc, b, 0) && !Canonical(b)
    ensures Unframe(crc, b, Ignore) == Unframed(Some(payload), |b|)
    ensures if payload == [] then Frame(crc, payload) == Err(EmptyPayload) else Frame(crc, payload) != Ok(b)
  {
    var h, n := b[0], |payload|;
    assert HeaderFits(b, 0) && LengthAt(b, 0) == n && Complete(b, 0);
    assert b[h..h + n] == payload;
    assert U16(b[h + n], b[h + n + 1]) == crc(payload);
    UnframeFindsFirst(crc, b);
    FirstGoodHere(crc, b);
    ReframeIff(crc, b);
    assert b[..|b|] == b;
  }

  lemma ThreeParts(b: bytes, h: nat, m: nat, n: nat)
    requires h <= m <= n <= |b|
    ensures b[..n] == b[..h] + b[h..m] + b[m..n]
  {
  }

  lemma GoodHeader(crc: Checker, b: bytes)
    requires Good(crc, b, 0) && Canonical(b)
    ensures Sendable(PayloadAt(b, 0)) && b[..b[0]] == Framed(crc, PayloadAt(b, 0))[..b[0]]
  {
    var p := PayloadAt(b, 0);
    var f := Framed(crc, p);
    FramedParts(crc, p);
    if b[0] == 3 {
      U16Injective(b[1], b[2], f[1], f[2]);
    }
  }

  lemma GoodFooter(crc: Checker, b: bytes)
    requires Good(crc, b, 0) && Canonical(b)
    ensures Sendable(PayloadAt(b, 0)) && |Framed(crc, PayloadAt(b, 0))| == SizeAt(b, 0)
    ensures var n := SizeAt(b, 0); b[n - 3..n] == Framed(crc, PayloadAt(b, 0))[n - 3..n]
  {
    var n := SizeAt(b, 0);
    var f := Framed(crc, PayloadAt(b, 0));
    FramedParts(crc, PayloadAt(b, 0));
    U16Injective(b[n - 3], b[n - 2], f[n - 3], f[n - 2]);
  }

  lemma GoodBytes(crc: Checker, b: bytes)
    requires Good(crc, b, 0) && Canonical(b)
    ensures b[..SizeAt(b, 0)] == Framed(crc, PayloadAt(b, 0))
  {
    var p, n, h := PayloadAt(b, 0), SizeAt(b, 0), b[0];
    var f := Framed(crc, p);
    GoodHeader(crc, b);
    GoodFooter(crc, b);
    FramedParts(crc, p);
    ThreeParts(b, h, n - 3, n);
    ThreeParts(f, h, n - 3, n);
    assert f[..n] == f;
  }

  lemma U16Injective(a: byte, b: byte, c: byte, d: byte)
    ensures U16(a, b) == U16(c, d) ==> a == c && b == d
  {
  }

  /** A payload and the bytes that carry it. */
  datatype Packet = Packet(payload: bytes, wire: bytes)

  /** Where the packet ends can be told from its own bytes: whatever follows it
      is left alone, and any proper part of it waits. */
  ghost predicate Delimits(crc: Checker, p: Packet) {
    && p.wire != []
    && (forall t: bytes :: Unframe(crc, p.wire + t, Ignore) == Unframed(Some(p.payload), |p.wire|))
    && (forall n :: 0 <= n < |p.wire| ==> Unframe(crc, p.wire[..n], Ignore) == Unframed(None, 0))
  }

  lemma FramedDelimits(crc: Checker, payload: bytes)
    requires Sendable(payload)
    ensures Delimits(crc, Packet(payload, Framed(crc, payload)))
  {
    var f := Framed(crc, payload);
    forall t: bytes
      ensures Unframe(crc, f + t, Ignore) == Unframed(Some(payload), |f|)
    {
      FrameRoundTrip(crc, payload, t, Ignore);
    }
    forall n | 0 <= n < |f|
      ensures Unframe(crc, f[..n], Ignore) == Unframed(None, 0)
    {
      PartialWaits(crc, payload, n, Ignore);
    }
  }

  /** The packets of a list of payloads. */
  function Packets(crc: Checker, ps: seq<bytes>): (pks: seq<Packet>)
    requires forall i :: 0 <= i < |ps| ==> Sendable(ps[i])
    ensures |pks| == |ps|
    ensures forall i :: 0 <= i < |ps| ==> pks[i].payload == ps[i]
  {
    seq(|ps|, i requires 0 <= i < |ps| => Packet(ps[i], Framed(crc, ps[i])))
  }

  lemma PacketsDelimit(crc: Checker, ps: seq<bytes>)
    requires forall i :: 0 <= i < |ps| ==> Sendable(ps[i])
    ensures AllDelimit(crc, Packets(crc, ps))
  {
    forall i | 0 <= i < |ps|
      ensures Delimits(crc, Packets(crc, ps)[i])
    {
      FramedDelimits(crc, ps[i]);
    }
  }

  // ----- draining a stream of packets ----------------------------------------------------

  datatype Drained = Drained(frames: seq<bytes>, rest: bytes)

  function Prepend(frames: seq<bytes>, d: Drained): Drained {
    Drained(frames + d.frames, d.rest)
  }

  lemma PrependTwice(a: seq<bytes>, b: seq<bytes>, d: Drained)
    ensures Prepend(a, Prepend(b, d)) == Prepend(a + b, d)
  {
  }

  /** Unframe until nothing more can be decided, as the readers do. */
  function Drain(crc: Checker, b: bytes): Drained
    decreases |b|
  {
    ConsumedZero(crc, b);
    var r := Unframe(crc, b, Ignore);
    if r.consumed == 0 then Drained([], b)
    else
      var d := Drain(crc, b[r.consumed..]);
      if r.payload.None? then d else Prepend([r.payload.value], d)
  }

  /** Draining after each arrival. */
  function DrainChunks(crc: Checker, pending: bytes, chunks: seq<bytes>): Drained
    decreases |chunks|
  {
    if chunks == [] then Drained([], pending)
    else
      var d := Drain(crc, pending + chunks[0]);
      Prepend(d.frames, DrainChunks(crc, d.rest, chunks[1..]))
  }

  ghost predicate AllDelimit(crc: Checker, pks: seq<Packet>) {
    forall i :: 0 <= i < |pks| ==> Delimits(crc, pks[i])
  }

  /** Packets back to back. */
  function Stream(pks: seq<Packet>): bytes {
    if pks == [] then [] else pks[0].wire + Stream(pks[1..])
  }

  function Payloads(pks: seq<Packet>): (ps: seq<bytes>)
    ensures |ps| == |pks|
    ensures forall i :: 0 <= i < |pks| ==> ps[i] == pks[i].payload
  {
    if pks == [] then [] else [pks[0].payload] + Payloads(pks[1..])
  }

  /** What the first n bytes of a stream hold: the complete packets, and the
      beginning of the next. */
  function Delivered(pks: seq<Packet>, n: nat): Drained
    requires n <= |Stream(pks)|
  {
    if pks == [] || n < |pks[0].wire| then Drained([], Stream(pks)[..n])
    else Prepend([pks[0].payload], Delivered(pks[1..], n - |pks[0].wire|))
  }

  lemma {:induction false} DrainOne(crc: Checker, p: Packet, t: bytes)
    requires Delimits(crc, p)
    ensures Drain(crc, p.wire + t) == Prepend([p.payload], Drain(crc, t))
  {
    var b := p.wire + t;
    assert Unframe(crc, b, Ignore) == Unframed(Some(p.payload), |p.wire|);
    assert b[|p.wire|..] == t;
  }

  lemma DrainPartial(crc: Checker, p: Packet, n: nat)
    requires Delimits(crc, p) && n < |p.wire|
    ensures Drain(crc, p.wire[..n]) == Drained([], p.wire[..n])
  {
    assert Unframe(crc, p.wire[..n], Ignore) == Unframed(None, 0);
  }

  lemma DrainEmpty(crc: Checker)
    ensures Drain(crc, []) == Drained([], [])
  {
    ConsumedZero(crc, []);
  }

  lemma {:induction false} DrainDelivers(crc: Checker, pks: seq<Packet>, n: nat)
    requires AllDelimit(crc, pks) && n <= |Stream(pks)|
    ensures Drain(crc, Stream(pks)[..n]) == Delivered(pks, n)
    decreases |pks|
  {
    if pks == [] {
      DrainEmpty(crc);
    } else {
      var f := pks[0].wire;
      if n < |f| {
        assert Stream(pks)[..n] == f[..n];
        DrainPartial(crc, pks[0], n);
      } else {
        var t := Stream(pks[1..])[..n - |f|];
        assert Stream(pks)[..n] == f + t;
        DrainOne(crc, pks[0], t);
        DrainDelivers(crc, pks[1..], n - |f|);
      }
    }
  }

  lemma {:induction false} StreamAppend(a: seq<Packet>, b: seq<Packet>)
    ensures Stream(a + b) == Stream(a) + Stream(b)
    decreases |a|
  {
    if a == [] {
      assert a + b == b;
    } else {
      assert (a + b)[1..] == a[1..] + b;
      StreamAppend(a[1..], b);
    }
  }

  /** Bytes that hold no complete packet. */
  predicate Waiting(pks: seq<Packet>, pending: bytes) {
    if pks == [] then pending == [] else |pending| < |pks[0].wire|
  }

  /** What was delivered is a prefix of the payloads, and what is left over is a
      proper prefix of the next packet. */
  lemma {:induction false} DeliveredShape(pks: seq<Packet>, n: nat) returns (done: seq<Packet>, todo: seq<Packet>)
    requires n <= |Stream(pks)|
    ensures pks == done + todo
    ensures Delivered(pks, n).frames == Payloads(done)
    ensures Stream(pks)[..n] == Stream(done) + Delivered(pks, n).rest
    ensures Delivered(pks, n).rest <= Stream(todo)
    ensures Waiting(todo, Delivered(pks, n).rest)
    decreases |pks|
  {
    if pks == [] || n < |pks[0].wire| {
      done, todo := [], pks;
    } else {
      var m := n - |pks[0].wire|;
      StreamTake(pks, n);
      DeliveredTake(pks, n, m);
      var done', todo' := DeliveredShape(pks[1..], m);
      done, todo := [pks[0]] + done', todo';
      DeliveredShapeCons(pks[0], done', Delivered(pks[1..], m), Stream(pks[1..])[..m]);
      assert pks == [pks[0]] + pks[1..];
    }
  }

  lemma {:induction false} StreamTake(pks: seq<Packet>, n: nat)
    requires pks != [] && |pks[0].wire| <= n <= |Stream(pks)|
    ensures n - |pks[0].wire| <= |Stream(pks[1..])|
    ensures Stream(pks)[..n] == pks[0].wire + Stream(pks[1..])[..n - |pks[0].wire|]
  {
  }

  lemma {:induction false} StreamCons(p: Packet, t: seq<Packet>)
    ensures Stream([p] + t) == p.wire + Stream(t)
    ensures Payloads([p] + t) == [p.payload] + Payloads(t)
  {
    assert ([p] + t)[1..] == t;
  }

  lemma {:induction false} DeliveredTake(pks: seq<Packet>, n: nat, m: nat)
    requires pks != [] && n == |pks[0].wire| + m && n <= |Stream(pks)| && m <= |Stream(pks[1..])|
    ensures Delivered(pks, n) == Prepend([pks[0].payload], Delivered(pks[1..], m))
  {
  }

  /** One more packet in front of what was delivered. */
  lemma {:induction false} DeliveredShapeCons(p: Packet, done: seq<Packet>, d: Drained, now: bytes)
    requires d.frames == Payloads(done) && now == Stream(done) + d.rest
    ensures Prepend([p.payload], d) == Drained(Payloads([p] + done), d.rest)
    ensures p.wire + now == Stream([p] + done) + d.rest
  {
    StreamCons(p, done);
  }

  /** Delivery in two instalments. */
  lemma {:induction false} DeliveredLater(done: seq<Packet>, todo: seq<Packet>, m: nat)
    requires m <= |Stream(todo)|
    ensures |Stream(done)| + m <= |Stream(done + todo)|
    ensures Delivered(done + todo, |Stream(done)| + m) == Prepend(Payloads(done), Delivered(todo, m))
    decreases |done|
  {
    if done == [] {
      assert done + todo == todo;
    } else {
      var pks, later := done + todo, done[1..] + todo;
      assert pks == [done[0]] + later && pks[1..] == later;
      StreamCons(done[0], later);
      DeliveredLater(done[1..], todo, m);
      DeliveredTake(pks, |Stream(done)| + m, |Stream(done[1..])| + m);
      PrependTwice([done[0].payload], Payloads(done[1..]), Delivered(todo, m));
    }
  }

  /** If now + later is a prefix of head + tail and now is head + rest, then
      rest + later is a prefix of tail. */
  lemma CancelHead(head: bytes, tail: bytes, now: bytes, later: bytes, rest: bytes)
    requires now + later <= head + tail && now == head + rest
    ensures rest + later <= tail
  {
    var all := now + later;
    assert all[|head|..] == rest + later;
    assert (head + tail)[|head|..] == tail;
    assert all[|head|..] == (head + tail)[..|all|][|head|..];
  }

  /** The next arrival completes the packets `done` and leaves `rest`. */
  lemma NextArrival(crc: Checker, pks: seq<Packet>, now: bytes, later: bytes)
      returns (done: seq<Packet>, todo: seq<Packet>, rest: bytes)
    requires AllDelimit(crc, pks) && now + later <= Stream(pks)
    ensures pks == done + todo && Drain(crc, now) == Drained(Payloads(done), rest)
    ensures now == Stream(done) + rest && rest + later <= Stream(todo)
    ensures Waiting(todo, rest) && AllDelimit(crc, todo)
  {
    assert now <= now + later;
    assert now == Stream(pks)[..|now|];
    DrainDelivers(crc, pks, |now|);
    done, todo := DeliveredShape(pks, |now|);
    rest := Delivered(pks, |now|).rest;
    StreamAppend(done, todo);
    CancelHead(Stream(done), Stream(todo), now, later, rest);
    forall i | 0 <= i < |todo|
      ensures Delimits(crc, todo[i])
    {
      assert todo[i] == pks[|done| + i];
    }
  }

  lemma {:induction false} DeliveredAtRest(pks: seq<Packet>, rest: bytes)
    requires rest <= Stream(pks) && Waiting(pks, rest)
    ensures Delivered(pks, |rest|) == Drained([], rest)
  {
  }

  lemma {:induction false} DrainChunksStep(crc: Checker, pending: bytes, chunks: seq<bytes>, frames: seq<bytes>,
                                           rest: bytes)
    requires chunks != [] && Drain(crc, pending + chunks[0]) == Drained(frames, rest)
    ensures DrainChunks(crc, pending, chunks) == Prepend(frames, DrainChunks(crc, rest, chunks[1..]))
  {
  }

  lemma {:induction false} Instalment(pks: seq<Packet>, done: seq<Packet>, todo: seq<Packet>, m: nat, n: nat)
    requires pks == done + todo && m <= |Stream(todo)| && n == |Stream(done)| + m
    ensures n <= |Stream(pks)|
    ensures Delivered(pks, n) == Prepend(Payloads(done), Delivered(todo, m))
  {
    DeliveredLater(done, todo, m);
  }

  /** However a prefix of a stream is cut into arrivals, draining after each of
      them gives every complete packet once, in order, and keeps the beginning
      of the next one. */
  lemma {:induction false} ChunkingIrrelevant(crc: Checker, pks: seq<Packet>, pending: bytes, chunks: seq<bytes>)
    requires AllDelimit(crc, pks) && Waiting(pks, pending)
    requires pending + Concat(chunks) <= Stream(pks)
    ensures DrainChunks(crc, pending, chunks) == Delivered(pks, |pending + Concat(chunks)|)
    decreases |chunks|
  {
    var all := pending + Concat(chunks);
    if chunks == [] {
      assert all == pending;
      DeliveredAtRest(pks, pending);
    } else {
      var now, later := pending + chunks[0], Concat(chunks[1..]);
      assert all == now + later;
      var done, todo, rest := NextArrival(crc, pks, now, later);
      ChunkingIrrelevant(crc, todo, rest, chunks[1..]);
      DrainChunksStep(crc, pending, chunks, Payloads(done), rest);
      Instalment(pks, done, todo, |rest + later|, |all|);
    }
  }

  lemma {:induction false} PayloadsAre(pks: seq<Packet>, ps: seq<bytes>)
    requires |pks| == |ps| && forall i :: 0 <= i < |ps| ==> pks[i].payload == ps[i]
    ensures Payloads(pks) == ps
  {
  }

  lemma {:induction false} StreamAtLeast(pks: seq<Packet>, k: nat)
    requires k < |pks|
    ensures |Stream(pks)| >= |Stream(pks[..k])| + |pks[k].wire|
  {
    assert pks[..k] + pks[k..] == pks;
    StreamAppend(pks[..k], pks[k..]);
  }

  lemma {:induction false} DrainedFromNothing(crc: Checker, pks: seq<Packet>, chunks: seq<bytes>)
    requires AllDelimit(crc, pks) && Concat(chunks) <= Stream(pks)
    ensures DrainChunks(crc, [], chunks) == Delivered(pks, |Concat(chunks)|)
  {
    assert [] + Concat(chunks) == Concat(chunks);
    ChunkingIrrelevant(crc, pks, [], chunks);
  }

  /** What a cut prefix of a stream of packets drains to. */
  lemma DrainedSplit(crc: Checker, pks: seq<Packet>, chunks: seq<bytes>)
      returns (done: seq<Packet>, todo: seq<Packet>, rest: bytes)
    requires AllDelimit(crc, pks) && Concat(chunks) <= Stream(pks)
    ensures pks == done + todo && Waiting(todo, rest)
    ensures DrainChunks(crc, [], chunks) == Drained(Payloads(done), rest)
    ensures Stream(done) + rest == Concat(chunks)
  {
    var n := |Concat(chunks)|;
    DrainedFromNothing(crc, pks, chunks);
    done, todo := DeliveredShape(pks, n);
    rest := Delivered(pks, n).rest;
  }

  lemma PacketsPrefix(crc: Checker, ps: seq<bytes>, k: nat)
    requires k <= |ps| && forall i :: 0 <= i < |ps| ==> Sendable(ps[i])
    ensures Packets(crc, ps[..k]) == Packets(crc, ps)[..k]
  {
  }

  /** Sent payloads against drained payloads: any cutting of any prefix of the
      frames of `ps` gives back the first k of them, the leftover bytes are what
      was received behind them, and they are less than the next frame. */
  lemma ChunkedDrain(crc: Checker, ps: seq<bytes>, chunks: seq<bytes>) returns (k: nat)
    requires forall i :: 0 <= i < |ps| ==> Sendable(ps[i])
    requires Concat(chunks) <= Stream(Packets(crc, ps))
    ensures k <= |ps|
    ensures var d := DrainChunks(crc, [], chunks);
      && d.frames == ps[..k]
      && Stream(Packets(crc, ps[..k])) + d.rest == Concat(chunks)
      && (if k == |ps| then d.rest == [] else |d.rest| < |Framed(crc, ps[k])|)
  {
    var pks := Packets(crc, ps);
    PacketsDelimit(crc, ps);
    var done, todo, rest := DrainedSplit(crc, pks, chunks);
    k := |done|;
    assert done == pks[..k];
    PacketsPrefix(crc, ps, k);
    PayloadsAre(done, ps[..k]);
    assert k < |ps| ==> todo[0] == pks[k];
  }

  /** The round trip of the whole stream. */
  lemma {:induction false} StreamRoundTrip(crc: Checker, ps: seq<bytes>, chunks: seq<bytes>)
    requires forall i :: 0 <= i < |ps| ==> Sendable(ps[i])
    requires Concat(chunks) == Stream(Packets(crc, ps))
    ensures DrainChunks(crc, [], chunks) == Drained(ps, [])
  {
    var k := ChunkedDrain(crc, ps, chunks);
    PacketsPrefix(crc, ps, k);
    if k < |ps| {
      StreamAtLeast(Packets(crc, ps), k);
    }
    assert ps[..|ps|] == ps;
  }
}
