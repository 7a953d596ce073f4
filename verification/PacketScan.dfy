/**
  What the recovering scanner does, said of the whole buffer at once: it
  returns the first complete, valid packet, and when there is none it drops
  exactly the bytes that belong to corrupt candidates.
*/
module PacketScan {
  import opened Wrappers
  import opened Bytes
  import opened PacketCodec

  // ----- packets in place -----------------------------------------------------

  predicate HeaderFits(b: bytes, i: nat) {
    i < |b| && IsStart(b[i]) && i + b[i] <= |b|
  }

  function LengthAt(b: bytes, i: nat): nat
    requires HeaderFits(b, i)
  {
    if b[i] == SHORT_START then b[i + 1] else U16(b[i + 1], b[i + 2])
  }

  function SizeAt(b: bytes, i: nat): nat
    requires HeaderFits(b, i)
  {
    b[i] + LengthAt(b, i) + FOOTER_SIZE
  }

  /** The whole packet that starts at i has arrived. */
  predicate Complete(b: bytes, i: nat) {
    HeaderFits(b, i) && i + SizeAt(b, i) <= |b|
  }

  function PayloadAt(b: bytes, i: nat): bytes
    requires Complete(b, i)
  {
    b[i + b[i]..i + b[i] + LengthAt(b, i)]
  }

  /** A complete packet with matching checksum and terminator starts at i. */
  predicate Good(crc: Checker, b: bytes, i: nat) {
    && Complete(b, i)
    && var footer := i + SizeAt(b, i) - FOOTER_SIZE;
    && crc(PayloadAt(b, i)) == U16(b[footer], b[footer + 1])
    && b[footer + 2] == TERMINATOR
  }

  /** A packet may start at i, but its end has not arrived. */
  predicate Incomplete(b: bytes, i: nat) {
    i < |b| && IsStart(b[i]) && !Complete(b, i)
  }

  /** No packet can start at i, whatever arrives. */
  predicate Corrupt(crc: Checker, b: bytes, i: nat) {
    i < |b| && !Good(crc, b, i) && !Incomplete(b, i)
  }

  /** The first start byte after i, or the end of the buffer. */
  function Next(b: bytes, i: nat): (n: nat)
    requires i < |b|
    ensures i < n <= |b|
    ensures n < |b| ==> IsStart(b[n])
    ensures forall k :: i < k < n ==> !IsStart(b[k])
    decreases |b| - i
  {
    if i + 1 == |b| then |b| else if IsStart(b[i + 1]) then i + 1 else Next(b, i + 1)
  }

  // ----- the scanner on a suffix ------------------------------------------------

  lemma {:induction false} UnpackAt(crc: Checker, b: bytes, i: nat, errors: Errors, recoveryMode: bool)
    requires i < |b|
    ensures var r := Unpack(crc, b[i..], errors, recoveryMode);
      && (Good(crc, b, i) ==> r == Unframed(Some(PayloadAt(b, i)), SizeAt(b, i)))
      && (Incomplete(b, i) ==> r == OnIncomplete(crc, b[i..], errors, recoveryMode))
      && (Corrupt(crc, b, i) ==> r == OnCorrupt(crc, b[i..], errors))
  {
    var s := b[i..];
    if HeaderFits(b, i) {
      var header := Header(b[i], LengthAt(b, i));
      assert UnpackHeader(s) == Parsed(header);
      if Complete(b, i) {
        assert s[header.payloadIndex..header.payloadIndex + header.payloadLength] == PayloadAt(b, i);
        assert ValidPacket(crc, s, header) <==> Good(crc, b, i);
      }
    }
  }

  lemma {:induction false} NextAt(b: bytes, i: nat)
    requires i < |b|
    ensures NextPossiblePacketIndex(b[i..]) == if Next(b, i) == |b| then -1 else Next(b, i) - i
  {
    var s, n, m := b[i..], NextPossiblePacketIndex(b[i..]), Next(b, i);
    assert forall k :: 0 <= k < |s| ==> s[k] == b[i + k];
    assert m < |b| ==> IsStart(s[m - i]);
    assert n >= 0 ==> IsStart(b[i + n]);
  }

  /** The bytes dropped from i on: each corrupt candidate takes everything up to
      the next candidate with it, an incomplete one takes nothing. */
  function Dropped(crc: Checker, b: bytes, i: nat): nat
    decreases |b| - i
  {
    if i >= |b| then 0
    else (if Corrupt(crc, b, i) then Next(b, i) - i else 0) + Dropped(crc, b, Next(b, i))
  }

  /** The first index from i on where a good packet starts, or the end. */
  function FirstGood(crc: Checker, b: bytes, i: nat): (g: nat)
    requires i <= |b|
    ensures i <= g <= |b|
    ensures g < |b| ==> Good(crc, b, g)
    ensures forall k :: i <= k < g ==> !Good(crc, b, k)
    decreases |b| - i
  {
    if i == |b| || Good(crc, b, i) then i else FirstGood(crc, b, i + 1)
  }

  /** Nothing between two candidates starts a packet. */
  lemma {:induction false} FirstGoodSkips(crc: Checker, b: bytes, i: nat, n: nat)
    requires i <= n <= |b| && forall k :: i <= k < n ==> !IsStart(b[k])
    ensures FirstGood(crc, b, i) == FirstGood(crc, b, n)
    decreases n - i
  {
    if i < n {
      FirstGoodSkips(crc, b, i + 1, n);
    }
  }

  /** The outcome of scanning from k bytes further on, seen from here. */
  function Shifted(inner: Outcome, k: nat, consume: bool): Outcome {
    match inner
    case Raised => Raised
    case Unframed(None, c) => Unframed(None, if consume then c + k else c)
    case Unframed(Some(p), c) => Unframed(Some(p), c + k)
  }

  /** One step of recovery: go to the next candidate, or give up. */
  lemma {:induction false} RecoverStep(crc: Checker, b: bytes, i: nat, n: nat, consume: bool)
    requires i < |b| && n == Next(b, i)
    ensures RecoveryRecurse(crc, b[i..], Ignore, consume)
      == if n == |b| then Unframed(None, if consume then n - i else 0)
         else Shifted(Unpack(crc, b[n..], Ignore, true), n - i, consume)
  {
    NextAt(b, i);
    if n < |b| {
      assert b[i..][n - i..] == b[n..];
    }
  }

  /** What recovery from a candidate at i, itself not good, ends with. */
  function Recovered(crc: Checker, b: bytes, i: nat, consume: bool): Outcome
    requires i < |b|
  {
    var g := FirstGood(crc, b, i + 1);
    if g < |b| then Unframed(Some(PayloadAt(b, g)), g - i + SizeAt(b, g))
    else Unframed(None, (if consume then Next(b, i) - i else 0) + Dropped(crc, b, Next(b, i)))
  }

  /** What a candidate reached by recovery ends with. */
  function Candidate(crc: Checker, b: bytes, n: nat): Outcome
    requires n < |b|
  {
    if Good(crc, b, n) then Unframed(Some(PayloadAt(b, n)), SizeAt(b, n)) else Recovered(crc, b, n, Corrupt(crc, b, n))
  }

  lemma {:induction false} RecoveredNext(crc: Checker, b: bytes, i: nat, n: nat, consume: bool)
    requires i < |b| && n == Next(b, i)
    ensures Recovered(crc, b, i, consume)
      == if n == |b| then Unframed(None, if consume then n - i else 0)
         else Shifted(Candidate(crc, b, n), n - i, consume)
  {
    FirstGoodSkips(crc, b, i + 1, n);
  }

  lemma UnpackCandidate(crc: Checker, b: bytes, n: nat)
    requires n < |b| && IsStart(b[n])
    requires !Good(crc, b, n) ==>
      RecoveryRecurse(crc, b[n..], Ignore, Corrupt(crc, b, n)) == Recovered(crc, b, n, Corrupt(crc, b, n))
    ensures Unpack(crc, b[n..], Ignore, true) == Candidate(crc, b, n)
  {
    UnpackAt(crc, b, n, Ignore, true);
  }

  /** Recovery finds the first good packet behind i, or accounts for the drop. */
  lemma {:induction false} RecoverAt(crc: Checker, b: bytes, i: nat, consume: bool)
    requires i < |b|
    ensures RecoveryRecurse(crc, b[i..], Ignore, consume) == Recovered(crc, b, i, consume)
    decreases |b| - i
  {
    var n := Next(b, i);
    RecoverStep(crc, b, i, n, consume);
    RecoveredNext(crc, b, i, n, consume);
    if n < |b| {
      RecoverAt(crc, b, n, Corrupt(crc, b, n));
      UnpackCandidate(crc, b, n);
    }
  }

  /** What the scanner answers on a whole buffer. */
  function Scan(crc: Checker, b: bytes): Outcome {
    if b == [] || Incomplete(b, 0) then Unframed(None, 0)
    else
      var g := FirstGood(crc, b, 0);
      if g < |b| then Unframed(Some(PayloadAt(b, g)), g + SizeAt(b, g))
      else Unframed(None, Dropped(crc, b, 0))
  }

  lemma ScanAtZero(crc: Checker, b: bytes)
    requires b != [] && !Incomplete(b, 0)
    ensures Scan(crc, b)
         == if Good(crc, b, 0) then Unframed(Some(PayloadAt(b, 0)), SizeAt(b, 0)) else Recovered(crc, b, 0, true)
  {
  }

  /** The scanner is a linear search for the first good packet. */
  lemma UnframeFindsFirst(crc: Checker, b: bytes)
    ensures Unframe(crc, b, Ignore) == Scan(crc, b)
  {
    if b != [] {
      var r := Unpack(crc, b, Ignore, false);
      assert b[0..] == b;
      UnpackAt(crc, b, 0, Ignore, false);
      if Incomplete(b, 0) {
        assert r == Unframed(None, 0);
      } else {
        ScanAtZero(crc, b);
        RecoverAt(crc, b, 0, true);
        assert Corrupt(crc, b, 0) ==> r == OnCorrupt(crc, b, Ignore) == RecoveryRecurse(crc, b, Ignore, true);
        assert r == Scan(crc, b);
      }
      assert Unframe(crc, b, Ignore) == r;
    } else {
      assert UnpackHeader(b) == NeedMore;
      assert Unframe(crc, b, Ignore) == Unpack(crc, b, Ignore, false);
      assert Unpack(crc, b, Ignore, false) == OnIncomplete(crc, b, Ignore, false);
    }
  }

  // ----- how much a failed scan drops ------------------------------------------------

  /** The candidate byte j belongs to: the last start byte at or before it, or
      the front of the buffer. */
  function Owner(b: bytes, j: nat): (i: nat)
    requires j < |b|
    ensures i <= j
  {
    if j == 0 || IsStart(b[j]) then j else Owner(b, j - 1)
  }

  /** The positions from i on that belong to a corrupt candidate. */
  function CorruptlyOwned(crc: Checker, b: bytes, i: nat): set<nat> {
    set j: nat | i <= j < |b| && Corrupt(crc, b, Owner(b, j))
  }

  /** Everything up to the next candidate has the same owner. */
  lemma {:induction false} OwnerUntilNext(b: bytes, i: nat, j: nat)
    requires i < |b| && (i == 0 || IsStart(b[i])) && i <= j < Next(b, i)
    ensures Owner(b, j) == i
    decreases j
  {
    if j > i {
      OwnerUntilNext(b, i, j - 1);
    }
  }

  function Interval(i: nat, n: nat): (s: set<nat>)
    requires i <= n
    ensures forall j :: j in s <==> i <= j < n
    ensures |s| == n - i
    decreases n
  {
    if i == n then {} else Interval(i, n - 1) + {n - 1}
  }

  lemma {:induction false} CorruptlyOwnedStep(crc: Checker, b: bytes, i: nat)
    requires i < |b| && (i == 0 || IsStart(b[i]))
    ensures |CorruptlyOwned(crc, b, i)|
         == (if Corrupt(crc, b, i) then Next(b, i) - i else 0) + |CorruptlyOwned(crc, b, Next(b, i))|
  {
    var n := Next(b, i);
    var here, later := if Corrupt(crc, b, i) then Interval(i, n) else {}, CorruptlyOwned(crc, b, n);
    OwnedHere(crc, b, i, n);
    assert CorruptlyOwned(crc, b, i) == here + later;
    assert here !! later;
  }

  lemma {:induction false} OwnedHere(crc: Checker, b: bytes, i: nat, n: nat)
    requires i < |b| && (i == 0 || IsStart(b[i])) && n == Next(b, i)
    ensures forall j :: j in CorruptlyOwned(crc, b, i)
              <==> (Corrupt(crc, b, i) && j in Interval(i, n)) || j in CorruptlyOwned(crc, b, n)
  {
    forall j | j in Interval(i, n)
      ensures Owner(b, j) == i
    {
      OwnerUntilNext(b, i, j);
    }
  }

  lemma {:induction false} DroppedCounts(crc: Checker, b: bytes, i: nat)
    requires i <= |b| && (i == 0 || i == |b| || IsStart(b[i]))
    ensures Dropped(crc, b, i) == |CorruptlyOwned(crc, b, i)|
    decreases |b| - i
  {
    if i == |b| {
      assert CorruptlyOwned(crc, b, i) == {};
    } else {
      CorruptlyOwnedStep(crc, b, i);
      DroppedCounts(crc, b, Next(b, i));
    }
  }

  /** Something starts corrupt and nothing can be recovered. */
  ghost predicate Unrecoverable(crc: Checker, b: bytes) {
    b != [] && Corrupt(crc, b, 0) && FirstGood(crc, b, 0) == |b|
  }

  lemma {:induction false} ScanFails(crc: Checker, b: bytes)
    requires Unrecoverable(crc, b)
    ensures Unframe(crc, b, Ignore) == Unframed(None, Dropped(crc, b, 0))
  {
    UnframeFindsFirst(crc, b);
  }

  /** A failed scan drops exactly as many bytes as belong to corrupt candidates,
      wherever those bytes are. */
  lemma FailureDropsCorruptBytes(crc: Checker, b: bytes)
    requires Unrecoverable(crc, b)
    ensures Unframe(crc, b, Ignore) == Unframed(None, |CorruptlyOwned(crc, b, 0)|)
    ensures 0 < |CorruptlyOwned(crc, b, 0)| <= |b|
  {
    ScanFails(crc, b);
    DroppedCounts(crc, b, 0);
    DroppedBound(crc, b, 0);
    DroppedPositive(crc, b);
  }

  lemma {:induction false} DroppedPositive(crc: Checker, b: bytes)
    requires Unrecoverable(crc, b)
    ensures 0 < Dropped(crc, b, 0)
  {
  }

  lemma {:induction false} DroppedBound(crc: Checker, b: bytes, i: nat)
    requires i <= |b|
    ensures Dropped(crc, b, i) <= |b| - i
    decreases |b| - i
  {
    if i < |b| {
      DroppedBound(crc, b, Next(b, i));
    }
  }

  /** Nothing is dropped exactly when there is nothing to decide yet. */
  lemma ConsumedZero(crc: Checker, b: bytes)
    ensures Unframe(crc, b, Ignore).Unframed?
    ensures Unframe(crc, b, Ignore).consumed <= |b|
    ensures Unframe(crc, b, Ignore).consumed == 0 <==> b == [] || Incomplete(b, 0)
  {
    UnframeFindsFirst(crc, b);
    if b != [] && !Incomplete(b, 0) && FirstGood(crc, b, 0) == |b| {
      DroppedBound(crc, b, 0);
    }
  }

  // ----- when a pending packet survives ----------------------------------------------

  /** f is the first candidate whose packet is still arriving. */
  ghost predicate IsFirstPending(b: bytes, f: nat) {
    Incomplete(b, f) && forall k :: 0 <= k < f ==> !Incomplete(b, k)
  }

  /** Some candidate behind f looks corrupt. */
  ghost predicate CorruptBehind(crc: Checker, b: bytes, f: nat) {
    exists k :: f < k < |b| && IsStart(b[k]) && Corrupt(crc, b, k)
  }

  lemma {:induction false} DroppedUpTo(crc: Checker, b: bytes, i: nat, f: nat)
    requires FirstGood(crc, b, 0) == |b| && IsFirstPending(b, f)
    requires i <= f && (i == 0 || IsStart(b[i]))
    ensures Dropped(crc, b, i) == f - i + Dropped(crc, b, f)
    decreases f - i
  {
    if i < f {
      var n := Next(b, i);
      assert Corrupt(crc, b, i);
      DroppedUpTo(crc, b, n, f);
    }
  }

  lemma {:induction false} DroppedNothing(crc: Checker, b: bytes, i: nat)
    requires i <= |b|
    ensures Dropped(crc, b, i) == 0 <==> i == |b| || (!Corrupt(crc, b, i) && !CorruptBehind(crc, b, i))
    decreases |b| - i
  {
    if i < |b| {
      var n := Next(b, i);
      DroppedNothing(crc, b, n);
      if CorruptBehind(crc, b, i) {
        var k :| i < k < |b| && IsStart(b[k]) && Corrupt(crc, b, k);
        assert n <= k;
        assert n == k || CorruptBehind(crc, b, n);
      }
      if n < |b| && Corrupt(crc, b, n) {
        assert CorruptBehind(crc, b, i);
      }
      if CorruptBehind(crc, b, n) {
        var k :| n < k < |b| && IsStart(b[k]) && Corrupt(crc, b, k);
        assert CorruptBehind(crc, b, i);
      }
    }
  }

  /** The documentation says a packet still arriving is retained. A failed scan
      keeps the start of the first one exactly when no later candidate inside
      the buffer looks corrupt; otherwise it drops past that start. */
  lemma PendingRetainedIff(crc: Checker, b: bytes, f: nat)
    requires Unrecoverable(crc, b) && IsFirstPending(b, f)
    ensures var r := Unframe(crc, b, Ignore);
      r.Unframed? && r.payload == None && r.consumed >= f && (r.consumed == f <==> !CorruptBehind(crc, b, f))
  {
    ScanFails(crc, b);
    DroppedFromFront(crc, b, f);
  }

  /** A scan keeps the start of the first pending packet exactly when that packet is at
      the front; or a good packet is found that ends before it; or none is found and no
      candidate behind it looks corrupt. */
  lemma {:induction false} RetainedIff(crc: Checker, b: bytes, f: nat)
    requires IsFirstPending(b, f)
    ensures var r, g := Unframe(crc, b, Ignore), FirstGood(crc, b, 0);
      && r.Unframed?
      && (r.consumed <= f <==>
            || f == 0
            || (g < f && g + SizeAt(b, g) <= f)
            || (g == |b| && !CorruptBehind(crc, b, f)))
  {
    var g := FirstGood(crc, b, 0);
    UnframeFindsFirst(crc, b);
    if f > 0 && g == |b| {
      assert !Incomplete(b, 0);
      PendingRetainedIff(crc, b, f);
    }
  }

  lemma {:induction false} DroppedFromFront(crc: Checker, b: bytes, f: nat)
    requires Unrecoverable(crc, b) && IsFirstPending(b, f)
    ensures Dropped(crc, b, 0) >= f && (Dropped(crc, b, 0) == f <==> !CorruptBehind(crc, b, f))
  {
    DroppedUpTo(crc, b, 0, f);
    DroppedNothing(crc, b, f);
  }

  /** A concrete buffer that loses the start of a pending 20-byte packet. */
  lemma PendingPacketLost(crc: Checker)
    ensures var b: bytes := [1, 2, 20, 2, 0, 0, 0, 9];
      IsFirstPending(b, 1) && Unframe(crc, b, Ignore) == Unframed(None, 6)
  {
    var b: bytes := [1, 2, 20, 2, 0, 0, 0, 9];
    assert !Good(crc, b, 3) && Complete(b, 3);
    assert Corrupt(crc, b, 0) && Incomplete(b, 1) && Corrupt(crc, b, 3);
    assert FirstGood(crc, b, 4) == |b|;
    assert FirstGood(crc, b, 0) == |b|;
    assert Next(b, 3) == 8;
    assert Next(b, 1) == 3;
    assert Next(b, 0) == 1;
    assert Dropped(crc, b, 3) == 5;
    UnframeFindsFirst(crc, b);
  }

  // ----- strict mode -------------------------------------------------------------------

  /** With strict error handling nothing is skipped: the front of the buffer is
      a packet, is still arriving, or raises. */
  lemma StrictRaisesIffCorrupt(crc: Checker, b: bytes)
    ensures Unframe(crc, b, Strict)
      == if b == [] || Incomplete(b, 0) then Unframed(None, 0)
         else if Good(crc, b, 0) then Unframed(Some(PayloadAt(b, 0)), SizeAt(b, 0))
         else Raised
  {
    if b == [] {
      assert UnpackHeader(b) == NeedMore;
      assert Unpack(crc, b, Strict, false) == OnIncomplete(crc, b, Strict, false);
    } else {
      assert b[0..] == b;
      UnpackAt(crc, b, 0, Strict, false);
    }
  }
}
