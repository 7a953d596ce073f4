/** Reading a response from the transport (VESC.read). */
module VescRead {
  import opened Wrappers
  import opened Bytes
  import opened PacketCodec
  import opened PacketScan
  import opened PacketStream

  /** One pass of the polling loop: the bytes waiting on the port, and whether
      the line had been quiet for longer than the timeout. */
  datatype Poll = Poll(waiting: bytes, quiet: bool)

  datatype ReadResult =
    | Response(frame: Option<bytes>)  // the payload handed to VESCMessage.unpack, if any
    | Text(collected: bytes)          // what a string response hands to decode
    | IndexError                      // an empty payload was asked for its command id

  /** What the caller asked for. */
  datatype Request = Request(expectString: bool, expectAnything: bool, expectedId: Option<byte>)

  predicate Matches(frame: bytes, expectedId: Option<byte>) {
    match expectedId
    case None => true
    case Some(id) => frame != [] && frame[0] == id
  }

  /** The newest matching frame. */
  function LastMatch(frames: seq<bytes>, expectedId: Option<byte>): (r: Option<bytes>)
    ensures r.None? <==> forall i :: 0 <= i < |frames| ==> !Matches(frames[i], expectedId)
    ensures r.Some? ==> Matches(r.value, expectedId)
    ensures r.Some? ==> exists j :: 0 <= j < |frames| && frames[j] == r.value
                                 && forall i :: j < i < |frames| ==> !Matches(frames[i], expectedId)
  {
    if frames == [] then None
    else
      var n := |frames| - 1;
      if Matches(frames[n], expectedId) then Some(frames[n]) else LastMatch(frames[..n], expectedId)
  }

  /** The bytes of each arrival. */
  function Arrivals(polls: seq<Poll>): seq<bytes> {
    if polls == [] then []
    else
      var n := |polls| - 1;
      Arrivals(polls[..n]) + if polls[n].waiting == [] then [] else [polls[n].waiting]
  }

  predicate Crashes(frames: seq<bytes>, expectedId: Option<byte>) {
    expectedId.Some? && [] in frames
  }

  /** What the read has in hand after some polls. */
  function Held(crc: Checker, polls: seq<Poll>, request: Request): Drained {
    if request.expectString then Drained([], Concat(Arrivals(polls)))
    else DrainChunks(crc, [], Arrivals(polls))
  }

  /** The read ends at the last of these polls. */
  predicate Stops(crc: Checker, polls: seq<Poll>, request: Request)
    requires polls != []
  {
    var held := Held(crc, polls, request);
    var found := LastMatch(held.frames, request.expectedId);
    var last := polls[|polls| - 1];
    if last.waiting != [] then
      Crashes(held.frames, request.expectedId) || (!request.expectString && found.Some? && held.rest == [])
    else if held.rest == [] && !request.expectAnything && found.None? then true
    else Arrivals(polls) != [] && last.quiet
  }

  /** The answer when the read ends after these polls. */
  function Answer(crc: Checker, polls: seq<Poll>, request: Request): ReadResult {
    var held := Held(crc, polls, request);
    if Crashes(held.frames, request.expectedId) then IndexError
    else if !request.expectString then Response(LastMatch(held.frames, request.expectedId))
    else if polls != [] && polls[|polls| - 1].waiting == [] && held.rest == [] && !request.expectAnything then
      Response(None)
    else Text(held.rest)
  }

  lemma ArrivalsSnoc(polls: seq<Poll>, n: nat)
    requires n < |polls|
    ensures Arrivals(polls[..n + 1])
         == Arrivals(polls[..n]) + if polls[n].waiting == [] then [] else [polls[n].waiting]
  {
    assert polls[..n + 1][..n] == polls[..n];
  }

  lemma {:induction false} DrainChunksSnoc(crc: Checker, pending: bytes, chunks: seq<bytes>, c: bytes)
    ensures var d := DrainChunks(crc, pending, chunks);
      DrainChunks(crc, pending, chunks + [c]) == Prepend(d.frames, Drain(crc, d.rest + c))
    decreases |chunks|
  {
    if chunks == [] {
      assert (chunks + [c])[1..] == [];
      var d := Drain(crc, pending + c);
      assert DrainChunks(crc, d.rest, []) == Drained([], d.rest);
    } else {
      var d := Drain(crc, pending + chunks[0]);
      assert (chunks + [c])[1..] == chunks[1..] + [c];
      DrainChunksSnoc(crc, d.rest, chunks[1..], c);
      var e := DrainChunks(crc, d.rest, chunks[1..]);
      PrependTwice(d.frames, e.frames, Drain(crc, e.rest + c));
    }
  }

  lemma {:induction false} LastMatchSnoc(frames: seq<bytes>, f: bytes, expectedId: Option<byte>)
    ensures LastMatch(frames + [f], expectedId)
         == if Matches(f, expectedId) then Some(f) else LastMatch(frames, expectedId)
  {
    assert (frames + [f])[..|frames|] == frames;
  }

  /** Drain the buffer, keeping the newest matching frame. */
  method DrainBuffer(crc: Checker, buffer: bytes, found: Option<bytes>, expectedId: Option<byte>,
                     ghost before: seq<bytes>)
      returns (payload: bytes, newest: Option<bytes>, crashed: bool)
    requires found == LastMatch(before, expectedId) && !Crashes(before, expectedId)
    ensures var d := Drain(crc, buffer);
      && crashed == Crashes(before + d.frames, expectedId)
      && (!crashed ==> payload == d.rest && newest == LastMatch(before + d.frames, expectedId))
  {
    payload, newest, crashed := buffer, found, false;
    ghost var seen: seq<bytes> := [];
    assert before + seen == before;
    while true
      invariant Drain(crc, buffer) == Prepend(seen, Drain(crc, payload))
      invariant newest == LastMatch(before + seen, expectedId) && !Crashes(before + seen, expectedId)
      decreases |payload|
    {
      ConsumedZero(crc, payload);
      var r := Unframe(crc, payload, Ignore);
      if r.consumed == 0 {
        break;
      }
      payload := payload[r.consumed..];
      if r.payload.Some? {
        var frame := r.payload.value;
        PrependTwice(seen, [frame], Drain(crc, payload));
        LastMatchSnoc(before + seen, frame, expectedId);
        assert before + (seen + [frame]) == before + seen + [frame];
        seen := seen + [frame];
        if expectedId.Some? && frame == [] {
          crashed := true;
          assert frame in before + Drain(crc, buffer).frames by {
            assert Drain(crc, buffer).frames[|seen| - 1] == frame;
          }
          return;
        }
        if expectedId.None? || frame[0] == expectedId.value {
          newest := Some(frame);
        }
      }
    }
    assert Drain(crc, buffer) == Drained(seen, payload);
  }

  /** Loop state after the first i polls. */
  ghost predicate Holds(crc: Checker, polls: seq<Poll>, i: nat, request: Request,
                        payload: bytes, newest: Option<bytes>, heard: bool)
    requires i <= |polls|
  {
    var held := Held(crc, polls[..i], request);
    && payload == held.rest
    && newest == LastMatch(held.frames, request.expectedId)
    && !Crashes(held.frames, request.expectedId)
    && (heard <==> Arrivals(polls[..i]) != [])
  }

  lemma HeldQuiet(crc: Checker, polls: seq<Poll>, i: nat, request: Request)
    requires i < |polls| && polls[i].waiting == []
    ensures Held(crc, polls[..i + 1], request) == Held(crc, polls[..i], request)
    ensures Arrivals(polls[..i + 1]) == Arrivals(polls[..i])
  {
    ArrivalsSnoc(polls, i);
    assert Arrivals(polls[..i]) + [] == Arrivals(polls[..i]);
  }

  lemma HeldText(crc: Checker, polls: seq<Poll>, i: nat, request: Request)
    requires i < |polls| && polls[i].waiting != [] && request.expectString
    ensures Held(crc, polls[..i + 1], request)
         == Drained([], Held(crc, polls[..i], request).rest + polls[i].waiting)
    ensures Arrivals(polls[..i + 1]) != []
  {
    var w := polls[i].waiting;
    ArrivalsSnoc(polls, i);
    ConcatAppend(Arrivals(polls[..i]), [w]);
    assert Concat([w]) == w + Concat([]) == w;
  }

  lemma HeldFrames(crc: Checker, polls: seq<Poll>, i: nat, request: Request)
    requires i < |polls| && polls[i].waiting != [] && !request.expectString
    ensures var held := Held(crc, polls[..i], request);
      Held(crc, polls[..i + 1], request) == Prepend(held.frames, Drain(crc, held.rest + polls[i].waiting))
    ensures Arrivals(polls[..i + 1]) != []
  {
    ArrivalsSnoc(polls, i);
    DrainChunksSnoc(crc, [], Arrivals(polls[..i]), polls[i].waiting);
  }

  /** One poll, as the loop body handles it. */
  method HandlePoll(crc: Checker, ghost polls: seq<Poll>, ghost i: nat, poll: Poll, request: Request,
                    payload: bytes, newest: Option<bytes>, heard: bool)
      returns (payload': bytes, newest': Option<bytes>, heard': bool, result: Option<ReadResult>)
    requires i < |polls| && poll == polls[i] && Holds(crc, polls, i, request, payload, newest, heard)
    ensures result.Some? <==> Stops(crc, polls[..i + 1], request)
    ensures result.Some? ==> result.value == Answer(crc, polls[..i + 1], request)
    ensures result.None? ==> Holds(crc, polls, i + 1, request, payload', newest', heard')
  {
    payload', newest', heard', result := payload, newest, heard, None;
    ghost var now := polls[..i + 1];
    assert now[|now| - 1] == poll;
    if poll.waiting != [] {
      heard' := true;
      if request.expectString {
        HeldText(crc, polls, i, request);
        payload' := payload + poll.waiting;
      } else {
        HeldFrames(crc, polls, i, request);
        ghost var before := Held(crc, polls[..i], request).frames;
        var crashed;
        payload', newest', crashed := DrainBuffer(crc, payload + poll.waiting, newest, request.expectedId, before);
        if crashed {
          result := Some(IndexError);
        } else if newest'.Some? && payload' == [] {
          result := Some(Response(newest'));
        }
      }
    } else {
      HeldQuiet(crc, polls, i, request);
      if payload == [] && !request.expectAnything && newest.None? {
        result := Some(Response(None));
      } else if heard && poll.quiet {
        result := Some(if request.expectString then Text(payload) else Response(newest));
      }
    }
  }

  /** How many polls the read takes, from poll i on: up to the first one that stops
      it, or all of them, which end at the deadline. */
  function PollsTaken(crc: Checker, polls: seq<Poll>, request: Request, i: nat): (n: nat)
    requires i <= |polls|
    ensures i <= n <= |polls|
    ensures forall m :: i < m < n ==> !Stops(crc, polls[..m], request)
    ensures n < |polls| ==> i < n && Stops(crc, polls[..n], request)
    decreases |polls| - i
  {
    if i == |polls| then i
    else if Stops(crc, polls[..i + 1], request) then i + 1
    else PollsTaken(crc, polls, request, i + 1)
  }

  /** The polling loop: it ends at the first poll that stops it, or at the deadline,
      and answers from exactly what had arrived by then. */
  method Read(crc: Checker, polls: seq<Poll>, request: Request) returns (result: ReadResult)
    ensures result == Answer(crc, polls[..PollsTaken(crc, polls, request, 0)], request)
  {
    var payload: bytes, newest: Option<bytes>, heard := [], None, false;
    var i := 0;
    assert polls[..0] == [];
    while i < |polls|
      invariant 0 <= i <= |polls|
      invariant PollsTaken(crc, polls, request, 0) == PollsTaken(crc, polls, request, i)
      invariant i > 0 ==> !Stops(crc, polls[..i], request)
      invariant Holds(crc, polls, i, request, payload, newest, heard)
    {
      var answer;
      payload, newest, heard, answer := HandlePoll(crc, polls, i, polls[i], request, payload, newest, heard);
      i := i + 1;
      if answer.Some? {
        return answer.value;
      }
    }
    FinalAnswer(crc, polls, request, payload, newest, heard);
    result := if request.expectString then Text(payload) else Response(newest);
  }

  lemma FinalAnswer(crc: Checker, polls: seq<Poll>, request: Request, payload: bytes,
                    newest: Option<bytes>, heard: bool)
    requires Holds(crc, polls, |polls|, request, payload, newest, heard)
    requires polls != [] ==> !Stops(crc, polls[..|polls|], request)
    ensures Answer(crc, polls[..|polls|], request) == if request.expectString then Text(payload) else Response(newest)
  {
    var all := polls[..|polls|];
    var held := Held(crc, all, request);
    assert all == polls;
    if polls != [] {
      var last := polls[|polls| - 1];
      if last.waiting == [] && held.rest == [] && !request.expectAnything {
        assert LastMatch(held.frames, request.expectedId).Some?;
      }
    }
  }

  lemma NoEmptyFrames(ps: seq<bytes>, k: nat)
    requires k <= |ps| && forall i :: 0 <= i < |ps| ==> Sendable(ps[i])
    ensures [] !in ps[..k]
  {
    assert forall i :: 0 <= i < k ==> ps[..k][i] == ps[i] && ps[i] != [];
  }

  /** When what arrives is (a prefix of) well-formed frames cut anywhere, the answer is
      the newest matching payload among the k frames that had arrived in full, and None
      when none of them matches. Nothing else that arrived was enough for another frame. */
  lemma NewestOfArrivals(crc: Checker, ps: seq<bytes>, polls: seq<Poll>, request: Request) returns (k: nat)
    requires forall i :: 0 <= i < |ps| ==> Sendable(ps[i])
    requires Concat(Arrivals(polls)) <= Stream(Packets(crc, ps))
    requires !request.expectString
    ensures k <= |ps|
    ensures Held(crc, polls, request).frames == ps[..k]
    ensures Answer(crc, polls, request) == Response(LastMatch(ps[..k], request.expectedId))
    ensures var rest := Held(crc, polls, request).rest;
      && Stream(Packets(crc, ps[..k])) + rest == Concat(Arrivals(polls))
      && (if k == |ps| then rest == [] else |rest| < |Framed(crc, ps[k])|)
  {
    k := ChunkedDrain(crc, ps, Arrivals(polls));
    NoEmptyFrames(ps, k);
  }

  lemma {:induction false} ArrivalsPrefix(polls: seq<Poll>, n: nat)
    requires n <= |polls|
    ensures Concat(Arrivals(polls[..n])) <= Concat(Arrivals(polls))
    decreases |polls|
  {
    if n == |polls| {
      assert polls[..n] == polls;
    } else {
      var last := |polls| - 1;
      ArrivalsPrefix(polls[..last], n);
      assert polls[..last][..n] == polls[..n];
      ConcatAppend(Arrivals(polls[..last]), if polls[last].waiting == [] then [] else [polls[last].waiting]);
    }
  }

  /** Payload p is the newest of these that carries the id, if one is asked for. */
  ghost predicate IsNewest(ps: seq<bytes>, expectedId: Option<byte>, p: bytes) {
    exists j :: 0 <= j < |ps| && ps[j] == p && (expectedId.Some? ==> p != [] && p[0] == expectedId.value)
      && forall i :: j < i < |ps| ==> expectedId.Some? && (ps[i] == [] || ps[i][0] != expectedId.value)
  }

  lemma {:induction false} LastMatchIs(ps: seq<bytes>, expectedId: Option<byte>)
    ensures match LastMatch(ps, expectedId)
            case Some(p) => IsNewest(ps, expectedId, p)
            case None => forall i :: 0 <= i < |ps| ==> expectedId.Some? && (ps[i] == [] || ps[i][0] != expectedId.value)
  {
  }

  /** What a read of one frame returns, given the k payloads it saw: the newest that matches,
      and None exactly when none does. */
  ghost predicate ReturnsNewest(ps: seq<bytes>, expectedId: Option<byte>, r: ReadResult) {
    match r
    case Response(Some(p)) => IsNewest(ps, expectedId, p)
    case Response(None) =>
      forall i :: 0 <= i < |ps| ==> expectedId.Some? && (ps[i] == [] || ps[i][0] != expectedId.value)
    case _ => false
  }

  /** These bytes hold the first k frames in full, and less than one more. */
  predicate HoldsFrames(crc: Checker, ps: seq<bytes>, all: bytes, k: nat)
    requires k <= |ps| && forall i :: 0 <= i < |ps| ==> Sendable(ps[i])
  {
    && Stream(Packets(crc, ps[..k])) <= all
    && var more := |all| - |Stream(Packets(crc, ps[..k]))|;
       if k == |ps| then more == 0 else more < |Framed(crc, ps[k])|
  }

  lemma NewestReturned(crc: Checker, ps: seq<bytes>, taken: seq<Poll>, request: Request) returns (k: nat)
    requires forall i :: 0 <= i < |ps| ==> Sendable(ps[i])
    requires Concat(Arrivals(taken)) <= Stream(Packets(crc, ps)) && !request.expectString
    ensures k <= |ps| && HoldsFrames(crc, ps, AllBytes(taken), k)
    ensures ReturnsNewest(ps[..k], request.expectedId, Answer(crc, taken, request))
  {
    ArrivalsAre(taken);
    k := NewestOfArrivals(crc, ps, taken, request);
    LastMatchIs(ps[..k], request.expectedId);
  }

  /** What `Read` returns, for any arrival schedule of well-formed frames: the newest
      matching payload among the k frames that had arrived in full when it ended, and
      None exactly when none of them matches. */
  lemma NewestMatchWins(crc: Checker, ps: seq<bytes>, polls: seq<Poll>, request: Request) returns (k: nat)
    requires forall i :: 0 <= i < |ps| ==> Sendable(ps[i])
    requires Concat(Arrivals(polls)) <= Stream(Packets(crc, ps)) && !request.expectString
    ensures var taken := polls[..PollsTaken(crc, polls, request, 0)];
      && k <= |ps| && HoldsFrames(crc, ps, AllBytes(taken), k)
      && ReturnsNewest(ps[..k], request.expectedId, Answer(crc, taken, request))
  {
    var n := PollsTaken(crc, polls, request, 0);
    ArrivalsPrefix(polls, n);
    k := NewestReturned(crc, ps, polls[..n], request);
  }

  /** A read that stops on an arrival has nothing left in its buffer, so every
      frame that had begun to arrive was counted: no fresher frame was waiting
      right behind the one returned. */
  lemma {:induction false} StopsOnWholeBurst(crc: Checker, ps: seq<bytes>, polls: seq<Poll>, request: Request)
    requires forall i :: 0 <= i < |ps| ==> Sendable(ps[i])
    requires Concat(Arrivals(polls)) <= Stream(Packets(crc, ps))
    requires !request.expectString && polls != [] && polls[|polls| - 1].waiting != []
    ensures Stops(crc, polls, request) <==>
            exists k: nat :: k <= |ps| && Stream(Packets(crc, ps[..k])) == Concat(Arrivals(polls))
                     && LastMatch(ps[..k], request.expectedId).Some?
  {
    var k := NewestOfArrivals(crc, ps, polls, request);
    var held := Held(crc, polls, request);
    forall m: nat | m <= |ps| && Stream(Packets(crc, ps[..m])) == Concat(Arrivals(polls))
      ensures m == k && held.rest == []
    {
      OneCount(crc, ps, m, k, held.rest);
    }
    NoEmptyFrames(ps, k);
  }

  lemma LongerStream(crc: Checker, ps: seq<bytes>, k: nat, m: nat)
    requires k < m <= |ps| && forall i :: 0 <= i < |ps| ==> Sendable(ps[i])
    ensures |Stream(Packets(crc, ps[..m]))| >= |Stream(Packets(crc, ps[..k]))| + |Framed(crc, ps[k])|
  {
    var pks := Packets(crc, ps[..m]);
    assert ps[..m][..k] == ps[..k];
    PacketsPrefix(crc, ps[..m], k);
    StreamAtLeast(pks, k);
  }

  // ----- string responses and the quiet rule -------------------------------------------------

  /** Everything that waited on the port, in order. */
  function AllBytes(polls: seq<Poll>): bytes {
    if polls == [] then [] else AllBytes(polls[..|polls| - 1]) + polls[|polls| - 1].waiting
  }

  lemma {:induction false} OneMoreArrival(before: seq<bytes>, w: bytes)
    ensures Concat(before + if w == [] then [] else [w]) == Concat(before) + w
  {
    if w == [] {
      assert before + [] == before && Concat(before) + w == Concat(before);
    } else {
      ConcatAppend(before, [w]);
      assert Concat([w]) == w + Concat([]) == w;
    }
  }

  lemma SilentSnoc(polls: seq<Poll>)
    requires polls != []
    ensures Silent(polls) <==> Silent(polls[..|polls| - 1]) && polls[|polls| - 1].waiting == []
  {
    assert forall i :: 0 <= i < |polls| - 1 ==> polls[..|polls| - 1][i] == polls[i];
  }

  lemma {:induction false} ArrivalsAre(polls: seq<Poll>)
    ensures Concat(Arrivals(polls)) == AllBytes(polls)
    ensures Arrivals(polls) == [] <==> Silent(polls)
    ensures AllBytes(polls) == [] <==> Silent(polls)
    decreases |polls|
  {
    if polls != [] {
      var n := |polls| - 1;
      ArrivalsAre(polls[..n]);
      OneMoreArrival(Arrivals(polls[..n]), polls[n].waiting);
      SilentSnoc(polls);
    }
  }

  /** Nothing arrived. */
  predicate Silent(polls: seq<Poll>) {
    forall i :: 0 <= i < |polls| ==> polls[i].waiting == []
  }

  /** The last of these polls finds nothing on a line that has gone quiet behind an
      arrival. */
  predicate GoneQuiet(polls: seq<Poll>) {
    polls != [] && !Silent(polls) && polls[|polls| - 1].waiting == [] && polls[|polls| - 1].quiet
  }

  /** When a read of a string is over before its deadline. */
  lemma StringStopsIff(crc: Checker, polls: seq<Poll>, request: Request)
    requires polls != [] && request.expectString
    ensures Stops(crc, polls, request) <==> GoneQuiet(polls) || (!request.expectAnything && Silent(polls))
  {
    ArrivalsAre(polls);
    assert !Crashes([], request.expectedId);
    assert Silent(polls) ==> polls[|polls| - 1].waiting == [];
  }

  /** What a read of a string is over with: all the bytes that had arrived. Only a probe
      that heard nothing gives no response at all. */
  lemma {:induction false} StringAnswer(crc: Checker, polls: seq<Poll>, request: Request)
    requires request.expectString
    ensures Answer(crc, polls, request)
         == if Silent(polls) && polls != [] && !request.expectAnything then Response(None) else Text(AllBytes(polls))
  {
    ArrivalsAre(polls);
    assert Silent(polls) && polls != [] ==> polls[|polls| - 1].waiting == [];
  }

  /** A read of a string, in terms of the n polls that it takes: it ends at the first one
      that finds the line quiet behind an arrival or, for a probe, at the first of all if
      that finds nothing; otherwise it takes all of them. It returns every byte that had
      arrived by then, and no response only to a probe that heard nothing. */
  lemma {:induction false} StringRead(crc: Checker, polls: seq<Poll>, request: Request, n: nat)
    requires request.expectString && n == PollsTaken(crc, polls, request, 0)
    ensures forall m :: 0 < m < n ==> !GoneQuiet(polls[..m])
    ensures n < |polls| ==> GoneQuiet(polls[..n]) || (!request.expectAnything && n == 1 && polls[0].waiting == [])
    ensures !request.expectAnything && n > 1 ==> polls[0].waiting != []
    ensures Answer(crc, polls[..n], request)
         == if !request.expectAnything && n > 0 && Silent(polls[..n]) then Response(None)
            else Text(AllBytes(polls[..n]))
  {
    forall m | 0 < m < n
      ensures !GoneQuiet(polls[..m]) && (!request.expectAnything ==> !Silent(polls[..m]))
    {
      StringStopsIff(crc, polls[..m], request);
    }
    if 0 < n < |polls| {
      StringStopsIff(crc, polls[..n], request);
    }
    if n > 1 {
      assert Silent(polls[..1]) <==> polls[0].waiting == [];
    }
    StringAnswer(crc, polls[..n], request);
  }

  /** What arrived is whole frames, k of them. */
  predicate WholeFrames(crc: Checker, ps: seq<bytes>, polls: seq<Poll>, k: nat)
    requires k <= |ps| && forall i :: 0 <= i < |ps| ==> Sendable(ps[i])
  {
    Stream(Packets(crc, ps[..k])) == AllBytes(polls)
  }

  /** The last of these polls ends a read of one frame: the line has gone quiet; or whole
      frames have arrived and either the last of them just did and one of them matches, or
      none does and nothing need be expected. */
  ghost predicate EndsFrameRead(crc: Checker, ps: seq<bytes>, polls: seq<Poll>, request: Request)
    requires polls != [] && forall i :: 0 <= i < |ps| ==> Sendable(ps[i])
  {
    || GoneQuiet(polls)
    || exists k: nat :: k <= |ps| && WholeFrames(crc, ps, polls, k)
         && if polls[|polls| - 1].waiting != [] then LastMatch(ps[..k], request.expectedId).Some?
            else !request.expectAnything && LastMatch(ps[..k], request.expectedId).None?
  }

  lemma {:induction false} FrameStopsIff(crc: Checker, ps: seq<bytes>, polls: seq<Poll>, request: Request)
    requires forall i :: 0 <= i < |ps| ==> Sendable(ps[i])
    requires Concat(Arrivals(polls)) <= Stream(Packets(crc, ps))
    requires !request.expectString && polls != []
    ensures Stops(crc, polls, request) <==> EndsFrameRead(crc, ps, polls, request)
  {
    ArrivalsAre(polls);
    if polls[|polls| - 1].waiting != [] {
      StopsOnWholeBurst(crc, ps, polls, request);
    } else {
      var k := NewestOfArrivals(crc, ps, polls, request);
      var held := Held(crc, polls, request);
      forall m: nat | m <= |ps| && WholeFrames(crc, ps, polls, m)
        ensures m == k && held.rest == []
      {
        OneCount(crc, ps, m, k, held.rest);
      }
      assert held.rest == [] ==> WholeFrames(crc, ps, polls, k);
    }
  }

  /** If m frames are k frames and less than one more, then they are those k. */
  lemma OneCount(crc: Checker, ps: seq<bytes>, m: nat, k: nat, rest: bytes)
    requires m <= |ps| && k <= |ps| && forall i :: 0 <= i < |ps| ==> Sendable(ps[i])
    requires Stream(Packets(crc, ps[..m])) == Stream(Packets(crc, ps[..k])) + rest
    requires if k == |ps| then rest == [] else |rest| < |Framed(crc, ps[k])|
    ensures m == k && rest == []
  {
    if m < k {
      LongerStream(crc, ps, m, k);
    } else if m > k {
      LongerStream(crc, ps, k, m);
    }
  }

  /** A read of one frame, for any arrival schedule of well-formed frames: it takes the polls
      up to the first that ends it, or all of them. */
  lemma {:induction false} FrameRead(crc: Checker, ps: seq<bytes>, polls: seq<Poll>, request: Request, n: nat)
    requires forall i :: 0 <= i < |ps| ==> Sendable(ps[i])
    requires Concat(Arrivals(polls)) <= Stream(Packets(crc, ps))
    requires !request.expectString && n == PollsTaken(crc, polls, request, 0)
    ensures forall m :: 0 < m < n ==> !EndsFrameRead(crc, ps, polls[..m], request)
    ensures n < |polls| ==> n > 0 && EndsFrameRead(crc, ps, polls[..n], request)
  {
    forall m | 0 < m <= n
      ensures Stops(crc, polls[..m], request) <==> EndsFrameRead(crc, ps, polls[..m], request)
    {
      ArrivalsPrefix(polls, m);
      FrameStopsIff(crc, ps, polls[..m], request);
    }
  }

  lemma QuietStops(crc: Checker, polls: seq<Poll>, request: Request)
    requires polls != [] && polls[|polls| - 1].waiting == [] && request.expectAnything
    ensures Stops(crc, polls, request) <==> GoneQuiet(polls)
  {
    ArrivalsAre(polls);
  }

  /** Whatever bytes arrive: a read that must hear something ends on a poll that finds
      nothing only when the line has gone quiet behind an arrival, and then at the first
      such poll. */
  lemma {:induction false} QuietRule(crc: Checker, polls: seq<Poll>, request: Request, n: nat)
    requires request.expectAnything && n == PollsTaken(crc, polls, request, 0)
    ensures forall m :: 0 < m < n ==> !GoneQuiet(polls[..m])
    ensures n < |polls| ==> n > 0 && (polls[n - 1].waiting != [] || GoneQuiet(polls[..n]))
  {
    forall m | 0 < m < n
      ensures !GoneQuiet(polls[..m])
    {
      if GoneQuiet(polls[..m]) {
        QuietStops(crc, polls[..m], request);
      }
    }
    if 0 < n < |polls| && polls[n - 1].waiting == [] {
      QuietStops(crc, polls[..n], request);
    }
  }

  /** Whatever bytes arrive: a read of one frame that must carry an id crashes exactly when an
      empty payload was drained from what it took. */
  lemma {:induction false} CrashesIff(crc: Checker, polls: seq<Poll>, request: Request, n: nat)
    requires n == PollsTaken(crc, polls, request, 0)
    ensures Answer(crc, polls[..n], request) == IndexError <==>
            && !request.expectString && request.expectedId.Some?
            && [] in DrainChunks(crc, [], Arrivals(polls[..n])).frames
  {
  }
}
