/**
  Noise in front of a stream of packets: whether the readers find the packets then
  depends on how the bytes are cut, unless the first packet holds nothing that looks
  like a packet of its own.
*/
module PacketNoise {
  import opened Wrappers
  import opened Bytes
  import opened PacketCodec
  import opened PacketScan
  import opened PacketStream

  /** Bytes that start no packet. */
  predicate Noise(g: bytes) {
    forall i :: 0 <= i < |g| ==> !IsStart(g[i])
  }

  ghost predicate CompleteBehind(b: bytes) {
    exists k :: 0 < k < |b| && Complete(b, k)
  }

  /** Some candidate behind the front is complete before the whole packet is. */
  ghost predicate HoldsCandidate(f: bytes)
    requires f != []
  {
    CompleteBehind(f[..|f| - 1])
  }

  // ----- candidates behind noise -----------------------------------------------------

  /** Candidates of s, found at |g| bytes further on. */
  lemma ShiftedCandidate(crc: Checker, g: bytes, s: bytes, i: nat)
    ensures Complete(g + s, |g| + i) <==> Complete(s, i)
    ensures Complete(s, i) ==> PayloadAt(g + s, |g| + i) == PayloadAt(s, i) && SizeAt(g + s, |g| + i) == SizeAt(s, i)
    ensures Good(crc, g + s, |g| + i) <==> Good(crc, s, i)
    ensures Incomplete(g + s, |g| + i) <==> Incomplete(s, i)
  {
    var b, m := g + s, |g|;
    if HeaderFits(s, i) {
      assert b[m + i] == s[i] && b[m + i + 1] == s[i + 1];
      if Complete(s, i) {
        var h, n := s[i], LengthAt(s, i);
        assert b[m + i + h..m + i + h + n] == s[i + h..i + h + n];
      }
    }
  }

  /** A candidate is complete as soon as its last byte is there. */
  lemma CompleteLater(s: bytes, t: bytes, i: nat)
    requires Complete(s, i) && s <= t
    ensures Complete(t, i) && SizeAt(t, i) == SizeAt(s, i)
  {
  }

  /** The beginning of a packet that holds no other is one pending candidate and others
      pending behind it. */
  lemma OnlyPending(crc: Checker, payload: bytes, n: nat, i: nat)
    requires Sendable(payload) && !HoldsCandidate(Framed(crc, payload)) && 0 < n < |Framed(crc, payload)|
    requires i < n && IsStart(Framed(crc, payload)[i])
    ensures Incomplete(Framed(crc, payload)[..n], i)
  {
    var f := Framed(crc, payload);
    if i == 0 {
      PartialIsIncomplete(crc, payload, n);
    } else if Complete(f[..n], i) {
      CompleteLater(f[..n], f[..|f| - 1], i);
    }
  }

  // ----- a packet that holds no other ---------------------------------------------------

  lemma NoisePartial(crc: Checker, g: bytes, payload: bytes, n: nat)
    requires Noise(g) && g != [] && Sendable(payload) && !HoldsCandidate(Framed(crc, payload))
    requires 0 < n < |Framed(crc, payload)|
    ensures Unframe(crc, g + Framed(crc, payload)[..n], Ignore) == Unframed(None, |g|)
  {
    var s := Framed(crc, payload)[..n];
    var b := g + s;
    forall j | 0 <= j < |b| && IsStart(b[j])
      ensures j >= |g| && Incomplete(b, j)
    {
      OnlyPending(crc, payload, n, j - |g|);
      ShiftedCandidate(crc, g, s, j - |g|);
    }
    FramedParts(crc, payload);
    assert b[|g|] == s[0];
    AllPending(crc, b, |g|);
  }

  /** Every candidate is pending, the first of them behind the front: the scan drops the
      bytes in front of it. */
  lemma AllPending(crc: Checker, b: bytes, f: nat)
    requires 0 < f < |b| && Incomplete(b, f)
    requires forall j :: 0 <= j < |b| && IsStart(b[j]) ==> j >= f && Incomplete(b, j)
    ensures Unframe(crc, b, Ignore) == Unframed(None, f)
  {
    assert !IsStart(b[0]) && Corrupt(crc, b, 0);
    assert FirstGood(crc, b, 0) == |b|;
    assert IsFirstPending(b, f);
    assert !CorruptBehind(crc, b, f);
    PendingRetainedIff(crc, b, f);
  }

  lemma NoiseAlone(crc: Checker, g: bytes)
    requires Noise(g) && g != []
    ensures Unframe(crc, g, Ignore) == Unframed(None, |g|)
  {
    assert !IsStart(g[0]) && Corrupt(crc, g, 0);
    assert FirstGood(crc, g, 0) == |g|;
    assert Next(g, 0) == |g|;
    assert Dropped(crc, g, |g|) == 0;
    ScanFails(crc, g);
  }

  /** A good packet behind noise is found wherever it is. */
  lemma NoiseGood(crc: Checker, g: bytes, s: bytes)
    requires Noise(g) && Good(crc, s, 0)
    ensures Unframe(crc, g + s, Ignore) == Unframed(Some(PayloadAt(s, 0)), |g| + SizeAt(s, 0))
  {
    var b, m := g + s, |g|;
    ShiftedCandidate(crc, g, s, 0);
    assert forall k :: 0 <= k < m ==> b[k] == g[k];
    FirstGoodSkips(crc, b, 0, m);
    UnframeFindsFirst(crc, b);
  }

  lemma {:induction false} DrainStep(crc: Checker, b: bytes, found: Option<bytes>, n: nat, rest: bytes)
    requires 0 < n <= |b| && b[n..] == rest && Unframe(crc, b, Ignore) == Unframed(found, n)
    ensures Drain(crc, b) == if found.None? then Drain(crc, rest) else Prepend([found.value], Drain(crc, rest))
  {
  }

  lemma {:induction false} NoiseAloneDrains(crc: Checker, g: bytes)
    requires Noise(g)
    ensures Drain(crc, g) == Drained([], [])
  {
    DrainEmpty(crc);
    if g != [] {
      NoiseAlone(crc, g);
      DrainStep(crc, g, None, |g|, []);
    }
  }

  lemma {:induction false} NoiseThenPart(crc: Checker, g: bytes, payload: bytes, n: nat)
    requires Noise(g) && g != [] && Sendable(payload) && !HoldsCandidate(Framed(crc, payload))
    requires 0 < n < |Framed(crc, payload)|
    ensures Drain(crc, g + Framed(crc, payload)[..n]) == Drain(crc, Framed(crc, payload)[..n])
  {
    var s := Framed(crc, payload)[..n];
    NoisePartial(crc, g, payload, n);
    assert (g + s)[|g|..] == s;
    DrainStep(crc, g + s, None, |g|, s);
  }

  lemma {:induction false} NoiseThenWhole(crc: Checker, g: bytes, payload: bytes, t: bytes)
    requires Noise(g) && Sendable(payload)
    ensures Drain(crc, g + (Framed(crc, payload) + t)) == Drain(crc, Framed(crc, payload) + t)
         == Prepend([payload], Drain(crc, t))
  {
    var f := Framed(crc, payload);
    var b := g + (f + t);
    FramedIsGood(crc, payload, t);
    NoiseGood(crc, g, f + t);
    assert b[|g| + |f|..] == t;
    DrainStep(crc, b, Some(payload), |g| + |f|, t);
    FramedDelimits(crc, payload);
    DrainOne(crc, Packet(payload, f), t);
  }

  /** Noise leaves no trace in front of such a packet, of part of it, or of more. */
  lemma {:induction false} NoiseDrains(crc: Checker, g: bytes, payload: bytes, s: bytes)
    requires Noise(g) && Sendable(payload) && !HoldsCandidate(Framed(crc, payload))
    requires s <= Framed(crc, payload) || Framed(crc, payload) <= s
    ensures Drain(crc, g + s) == Drain(crc, s)
  {
    var f := Framed(crc, payload);
    if g == [] {
      assert g + s == s;
    } else if s == [] {
      assert g + s == g;
      NoiseAloneDrains(crc, g);
      DrainEmpty(crc);
    } else if |s| < |f| {
      assert s == f[..|s|];
      NoiseThenPart(crc, g, payload, |s|);
    } else {
      assert s == f + s[|f|..];
      NoiseThenWhole(crc, g, payload, s[|f|..]);
    }
  }

  lemma {:induction false} SameFirstDrain(crc: Checker, a: seq<bytes>, b: seq<bytes>)
    requires a != [] && b != [] && a[1..] == b[1..] && Drain(crc, a[0]) == Drain(crc, b[0])
    ensures DrainChunks(crc, [], a) == DrainChunks(crc, [], b)
  {
    assert [] + a[0] == a[0] && [] + b[0] == b[0];
  }

  lemma BehindNoise(g: bytes, now: bytes, later: bytes, stream: bytes)
    requires |g| <= |now| && now + later <= g + stream
    ensures now == g + now[|g|..] && now[|g|..] + later <= stream && now[|g|..] <= stream
  {
    var all := now + later;
    assert now == all[..|now|];
    assert now[..|g|] == (g + stream)[..|g|] == g;
    CancelHead(g, stream, now, later, now[|g|..]);
    assert now[|g|..] <= now[|g|..] + later;
  }

  lemma WithinNoise(g: bytes, now: bytes, later: bytes, stream: bytes)
    requires |now| <= |g| <= |now + later| && now + later <= g + stream
    ensures now == g[..|now|] && |g| - |now| <= |later| && later <= g[|now|..] + stream
  {
    var all, behind := now + later, g[|now|..];
    assert now == all[..|now|] == (g + stream)[..|now|] == g[..|now|];
    assert g == now + behind;
    assert g + stream == now + (behind + stream);
    CancelHead(now, behind + stream, now, later, []);
    assert [] + later == later;
  }

  /** An arrival of nothing but noise leaves nothing. */
  lemma AllNoise(crc: Checker, g: bytes, n: nat)
    requires Noise(g) && n <= |g|
    ensures Drain(crc, g[..n]) == Drained([], []) && Noise(g[n..])
  {
    NoiseAloneDrains(crc, g[..n]);
  }

  lemma {:induction false} ConcatCons(s: bytes, later: seq<bytes>)
    ensures Concat([s] + later) == s + Concat(later)
  {
    assert ([s] + later)[1..] == later;
  }

  lemma {:induction false} SameFirstArrival(crc: Checker, pks: seq<Packet>, s: bytes, chunks: seq<bytes>, n: nat)
    requires AllDelimit(crc, pks) && chunks != [] && s + Concat(chunks[1..]) <= Stream(pks)
    requires Drain(crc, chunks[0]) == Drain(crc, s) && n == |s| + |Concat(chunks[1..])|
    ensures DrainChunks(crc, [], chunks) == Delivered(pks, n)
  {
    var others := [s] + chunks[1..];
    ConcatCons(s, chunks[1..]);
    SameFirstDrain(crc, chunks, others);
    DrainedFromNothing(crc, pks, others);
  }

  /** The first packet of the stream carries the payload p and holds no candidate. */
  ghost predicate ClearStart(crc: Checker, pks: seq<Packet>, p: bytes) {
    && AllDelimit(crc, pks) && pks != [] && Sendable(p)
    && pks[0] == Packet(p, Framed(crc, p)) && !HoldsCandidate(pks[0].wire)
  }

  /** What has arrived of a stream is part of its first packet, or more. */
  lemma {:induction false} FirstPacket(pks: seq<Packet>, s: bytes)
    requires pks != [] && s <= Stream(pks)
    ensures s <= pks[0].wire || pks[0].wire <= s
  {
    var f, stream := pks[0].wire, Stream(pks);
    assert f <= stream;
    if |s| <= |f| {
      assert s == stream[..|s|] == f[..|s|];
    } else {
      assert f == stream[..|f|] == s[..|f|];
    }
  }

  /** The first arrival with something behind the noise. */
  lemma NoiseEnds(crc: Checker, pks: seq<Packet>, p: bytes, g: bytes, now: bytes, later: bytes)
      returns (s: bytes)
    requires ClearStart(crc, pks, p) && Noise(g) && |g| <= |now| && now + later <= g + Stream(pks)
    ensures now == g + s && s + later <= Stream(pks) && Drain(crc, now) == Drain(crc, s)
  {
    s := now[|g|..];
    BehindNoise(g, now, later, Stream(pks));
    FirstPacket(pks, s);
    NoiseDrains(crc, g, p, s);
  }

  lemma {:induction false} NothingDrained(crc: Checker, chunks: seq<bytes>)
    requires chunks != [] && Drain(crc, chunks[0]) == Drained([], [])
    ensures DrainChunks(crc, [], chunks) == DrainChunks(crc, [], chunks[1..])
  {
    var d := DrainChunks(crc, [], chunks[1..]);
    assert [] + chunks[0] == chunks[0] && [] + d.frames == d.frames;
    DrainChunksStep(crc, [], chunks, [], []);
  }

  /** Noise, then n bytes of packets the first of which holds no candidate: the cutting
      does not matter. */
  lemma {:induction false} NoiseDoesNoHarm(crc: Checker, pks: seq<Packet>, p: bytes, g: bytes, chunks: seq<bytes>,
                                           n: nat)
    requires ClearStart(crc, pks, p) && Noise(g)
    requires |Concat(chunks)| == |g| + n && Concat(chunks) <= g + Stream(pks)
    ensures DrainChunks(crc, [], chunks) == Delivered(pks, n)
    decreases |chunks|
  {
    if chunks == [] {
      assert g + Stream(pks) == Stream(pks);
      DrainedFromNothing(crc, pks, chunks);
    } else {
      var now, later := chunks[0], Concat(chunks[1..]);
      assert Concat(chunks) == now + later;
      if |g| <= |now| {
        var s := NoiseEnds(crc, pks, p, g, now, later);
        SameFirstArrival(crc, pks, s, chunks, n);
      } else {
        WithinNoise(g, now, later, Stream(pks));
        AllNoise(crc, g, |now|);
        NoiseDoesNoHarm(crc, pks, p, g[|now|..], chunks[1..], n);
        NothingDrained(crc, chunks);
      }
    }
  }

  // ----- a packet that holds another ------------------------------------------------------

  /** What is unframed takes no fewer bytes than its own packet. */
  lemma {:induction false} PayloadsTakeRoom(crc: Checker, b: bytes, p: bytes)
    requires Sendable(p) && Unframe(crc, b, Ignore).Unframed? && Unframe(crc, b, Ignore).payload == Some(p)
    ensures FirstGood(crc, b, 0) + |Framed(crc, p)| <= Unframe(crc, b, Ignore).consumed <= |b|
  {
    UnframeFindsFirst(crc, b);
  }

  lemma {:induction false} TooShort(crc: Checker, b: bytes, p: bytes)
    requires Sendable(p) && |b| < |Framed(crc, p)|
    ensures p !in Drain(crc, b).frames && |Drain(crc, b).rest| <= |b|
    decreases |b|
  {
    ConsumedZero(crc, b);
    var r := Unframe(crc, b, Ignore);
    if r.consumed > 0 {
      TooShort(crc, b[r.consumed..], p);
      if r.payload == Some(p) {
        PayloadsTakeRoom(crc, b, p);
      }
    }
  }

  /** All but the last byte of the packet, behind noise: its start is lost, and it is not
      found in what follows it. */
  lemma StartIsLost(crc: Checker, g: bytes, p: bytes, b: bytes)
    requires g != [] && Noise(g) && Sendable(p) && HoldsCandidate(Framed(crc, p))
    requires b == g + Framed(crc, p)[..|Framed(crc, p)| - 1]
    ensures var r := Unframe(crc, b, Ignore);
      r.Unframed? && |g| < r.consumed <= |b| && r.payload != Some(p)
  {
    var f := Framed(crc, p);
    var s := f[..|f| - 1];
    var k :| 0 < k < |s| && Complete(s, k);
    ShiftedCandidate(crc, g, s, k);
    ShiftedCandidate(crc, g, s, 0);
    PartialIsIncomplete(crc, p, |f| - 1);
    ConsumedZero(crc, b);
    assert forall j :: 0 <= j < |g| ==> b[j] == g[j];
    assert IsFirstPending(b, |g|);
    RetainedIff(crc, b, |g|);
    assert Good(crc, b, |g| + k) || CorruptBehind(crc, b, |g|);
    if Unframe(crc, b, Ignore).payload == Some(p) {
      PayloadsTakeRoom(crc, b, p);
      UnframeFindsFirst(crc, b);
    }
  }

  lemma NeverFound(crc: Checker, g: bytes, p: bytes) returns (chunks: seq<bytes>)
    requires g != [] && Noise(g) && Sendable(p) && HoldsCandidate(Framed(crc, p))
    ensures Concat(chunks) == g + Framed(crc, p) && p !in DrainChunks(crc, [], chunks).frames
  {
    var f := Framed(crc, p);
    var m := |f| - 1;
    var b := g + f[..m];
    chunks := [b, f[m..]];
    StartIsLost(crc, g, p, b);
    var r := Unframe(crc, b, Ignore);
    TooShort(crc, b[r.consumed..], p);
    var d := Drain(crc, b);
    assert p !in d.frames && |d.rest| + 1 < |f|;
    TooShort(crc, d.rest + f[m..], p);
    TwoChunks(crc, b, f[m..], d);
    assert b + f[m..] == g + f;
  }

  lemma {:induction false} TwoChunks(crc: Checker, a: bytes, b: bytes, d: Drained)
    requires d == Drain(crc, a)
    ensures Concat([a, b]) == a + b
    ensures DrainChunks(crc, [], [a, b]).frames == d.frames + Drain(crc, d.rest + b).frames
  {
    assert [a, b][1..] == [b] && [b][1..] == [];
    assert [] + a == a;
    assert Concat([b]) == b + Concat([]);
    DrainChunksStep(crc, [], [a, b], d.frames, d.rest);
    var e := Drain(crc, d.rest + b);
    DrainChunksStep(crc, d.rest, [b], e.frames, e.rest);
  }

  // ----- when the cutting matters -----------------------------------------------------------

  /** However noise and part of the stream behind it are cut into arrivals, what is drained
      is what the part holds. */
  ghost predicate CutsAlike(crc: Checker, g: bytes, ps: seq<bytes>)
    requires forall i :: 0 <= i < |ps| ==> Sendable(ps[i])
  {
    var pks := Packets(crc, ps);
    forall chunks: seq<bytes> ::
      |g| <= |Concat(chunks)| && Concat(chunks) <= g + Stream(pks)
      ==> DrainChunks(crc, [], chunks) == Delivered(pks, |Concat(chunks)| - |g|)
  }

  lemma {:induction false} FirstDelivered(pks: seq<Packet>)
    requires pks != []
    ensures |pks[0].wire| <= |Stream(pks)| && pks[0].payload in Delivered(pks, |pks[0].wire|).frames
  {
    var d := Delivered(pks[1..], 0);
    assert Delivered(pks, |pks[0].wire|) == Prepend([pks[0].payload], d);
    assert ([pks[0].payload] + d.frames)[0] == pks[0].payload;
  }

  lemma CutMatters(crc: Checker, g: bytes, ps: seq<bytes>)
    requires g != [] && Noise(g) && ps != [] && forall i :: 0 <= i < |ps| ==> Sendable(ps[i])
    requires HoldsCandidate(Framed(crc, ps[0]))
    ensures !CutsAlike(crc, g, ps)
  {
    var pks := Packets(crc, ps);
    var chunks := NeverFound(crc, g, ps[0]);
    assert Concat(chunks) <= g + Stream(pks);
    FirstDelivered(pks);
    assert ps[0] in Delivered(pks, |Concat(chunks)| - |g|).frames;
  }

  lemma CutIrrelevant(crc: Checker, g: bytes, ps: seq<bytes>)
    requires Noise(g) && ps != [] && forall i :: 0 <= i < |ps| ==> Sendable(ps[i])
    requires !HoldsCandidate(Framed(crc, ps[0]))
    ensures CutsAlike(crc, g, ps)
  {
    var pks := Packets(crc, ps);
    PacketsDelimit(crc, ps);
    forall chunks: seq<bytes> | |g| <= |Concat(chunks)| && Concat(chunks) <= g + Stream(pks)
      ensures DrainChunks(crc, [], chunks) == Delivered(pks, |Concat(chunks)| - |g|)
    {
      NoiseDoesNoHarm(crc, pks, ps[0], g, chunks, |Concat(chunks)| - |g|);
    }
  }

  /** With noise in front, the cutting is irrelevant exactly when the first packet holds no
      candidate that is complete before it. */
  lemma NoiseHarmlessIff(crc: Checker, g: bytes, ps: seq<bytes>)
    requires g != [] && Noise(g) && ps != [] && forall i :: 0 <= i < |ps| ==> Sendable(ps[i])
    ensures CutsAlike(crc, g, ps) <==> !HoldsCandidate(Framed(crc, ps[0]))
  {
    if HoldsCandidate(Framed(crc, ps[0])) {
      CutMatters(crc, g, ps);
    } else {
      CutIrrelevant(crc, g, ps);
    }
  }

  lemma FrontOf(crc: Checker, payload: bytes)
    requires payload == [2, 0, 0, 0, 9] + seq(15, _ => 0)
    ensures Framed(crc, payload)[..7] == [2, 20, 2, 0, 0, 0, 9] && |Framed(crc, payload)| == 25
  {
    var f := Framed(crc, payload);
    FramedParts(crc, payload);
    assert f[2..22][..5] == payload[..5] == [2, 0, 0, 0, 9];
    assert f[..7] == f[..2] + f[2..22][..5];
  }

  lemma {:induction false} LostDrains(crc: Checker, b: bytes)
    requires b == [1, 2, 20, 2, 0, 0, 0, 9]
    ensures Drain(crc, b) == Drained([], [])
  {
    PendingPacketLost(crc);
    DrainStep(crc, b, None, 6, [0, 9]);
    NoiseAloneDrains(crc, [0, 9]);
  }

  /** A packet behind one byte of noise: in one arrival it is found, but of an arrival of
      its first seven bytes nothing is kept. */
  lemma CutLosesPacket(crc: Checker, payload: bytes)
    requires payload == [2, 0, 0, 0, 9] + seq(15, _ => 0)
    ensures HoldsCandidate(Framed(crc, payload))
    ensures Drain(crc, [1] + Framed(crc, payload)) == Drained([payload], [])
    ensures Drain(crc, [1] + Framed(crc, payload)[..7]) == Drained([], [])
  {
    var f := Framed(crc, payload);
    FrontOf(crc, payload);
    var part := f[..24];
    assert part[2] == f[..7][2] && part[3] == f[..7][3];
    assert Complete(part, 2);
    LostDrains(crc, [1] + f[..7]);
    NoiseThenWhole(crc, [1], payload, []);
    assert f + [] == f;
    DrainEmpty(crc);
  }
}
