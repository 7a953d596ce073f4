/** Damaged packets the codec can never accept. */
module PacketIntegrity {
  import opened Bytes
  import opened PacketCodec
  import opened PacketScan
  import opened PacketStream
  import Crc16
  import CrcTheory
  import CrcDetection

  /** What follows the header of a packet: payload, checksum and terminator. */
  function Body(crc: Checker, payload: bytes): (body: bytes)
    ensures |body| == |payload| + FOOTER_SIZE
    ensures Sendable(payload) ==> Framed(crc, payload) == FrameHeader(|payload|) + body
  {
    var body := payload + U16Bytes(crc(payload)) + [TERMINATOR];
    assert Sendable(payload) ==>
      FrameHeader(|payload|) + payload + U16Bytes(crc(payload)) + [TERMINATOR] == FrameHeader(|payload|) + body;
    body
  }

  /** The header of a packet with n bytes of payload, and something else behind it. */
  function Damaged(n: nat, hit: bytes): bytes
    requires 0 < n < 65536 && |hit| == n + FOOTER_SIZE
  {
    FrameHeader(n) + hit
  }

  lemma DamagedParts(n: nat, hit: bytes, rest: bytes)
    requires 0 < n < 65536 && |hit| == n + FOOTER_SIZE
    ensures var b := Damaged(n, hit) + rest;
      && Complete(b, 0) && PayloadAt(b, 0) == hit[..n]
      && var footer := SizeAt(b, 0) - FOOTER_SIZE;
      b[footer] == hit[n] && b[footer + 1] == hit[n + 1] && b[footer + 2] == hit[n + 2]
  {
    var b, h := Damaged(n, hit) + rest, |FrameHeader(n)|;
    assert b == FrameHeader(n) + (hit + rest);
    assert b[0] == h && HeaderFits(b, 0) && LengthAt(b, 0) == n;
    assert b[h..h + n] == hit[..n];
  }

  /** What stands behind the header could be n bytes of payload and their footer. */
  predicate Consistent(crc: Checker, n: nat, hit: bytes)
    requires |hit| == n + FOOTER_SIZE
  {
    hit[n + 2] == TERMINATOR && U16(hit[n], hit[n + 1]) == crc(hit[..n])
  }

  lemma DamagedIsCorrupt(crc: Checker, n: nat, hit: bytes, rest: bytes)
    requires 0 < n < 65536 && |hit| == n + FOOTER_SIZE && !Consistent(crc, n, hit)
    ensures Corrupt(crc, Damaged(n, hit) + rest, 0)
  {
    DamagedParts(n, hit, rest);
  }

  /** A checksum that fits its payload leaves no residue, so any damage to the two that
      leaves a residue is seen. */
  lemma ResidueTells(p: bytes, c: bytes, q: bytes, d: bytes)
    requires |c| == |d| == 2 && U16(c[0], c[1]) == Crc16.Checksum(p)
    requires Crc16.Checksum(p + c) != Crc16.Checksum(q + d)
    ensures U16(d[0], d[1]) != Crc16.Checksum(q)
  {
    assert c == [c[0], c[1]] && d == [d[0], d[1]];
    CrcDetection.ResidueIsZero(p, c[0], c[1]);
    CrcDetection.ResidueIsZero(q, d[0], d[1]);
  }

  /** A body that ends in the terminator: payload, checksum bytes, terminator. */
  lemma HitParts(hit: bytes, n: nat) returns (q: bytes, d: bytes)
    requires |hit| == n + FOOTER_SIZE && hit[n + 2] == TERMINATOR
    ensures hit == q + d + [TERMINATOR] && q == hit[..n] && d == [hit[n], hit[n + 1]]
  {
    q, d := hit[..n], hit[n..n + 2];
  }

  lemma BurstInFront(x: bytes, y: bytes, t: byte, s: nat)
    requires CrcDetection.DifferInBurst(x + [t], y + [t], s)
    ensures CrcDetection.DifferInBurst(x, y, s)
  {
    CrcDetection.BitsAppend(x, [t]);
    CrcDetection.BitsAppend(y, [t]);
    forall i | 0 <= i < 8 * |x| && !(s <= i < s + 16)
      ensures CrcTheory.Bits(x)[i] == CrcTheory.Bits(y)[i]
    {
      assert CrcTheory.Bits(x + [t])[i] == CrcTheory.Bits(y + [t])[i];
    }
  }

  lemma BurstSeen(p: bytes, sum: bytes, hit: bytes, s: nat)
    requires |sum| == 2 && U16(sum[0], sum[1]) == Crc16.Checksum(p)
    requires CrcDetection.DifferInBurst(p + sum + [TERMINATOR], hit, s)
    ensures !Consistent(Crc16.Checksum, |p|, hit)
  {
    if hit[|p| + 2] == TERMINATOR {
      var q, d := HitParts(hit, |p|);
      BurstInFront(p + sum, q + d, TERMINATOR, s);
      CrcDetection.BurstDetected(p + sum, q + d, s);
      ResidueTells(p, sum, q, d);
    }
  }

  /** A packet whose payload, checksum and terminator suffered a burst of up to 16 bits,
      wherever behind the header, is never accepted. */
  lemma BurstRejected(payload: bytes, hit: bytes, s: nat, rest: bytes)
    requires Sendable(payload) && CrcDetection.DifferInBurst(Body(Crc16.Checksum, payload), hit, s)
    ensures Corrupt(Crc16.Checksum, Damaged(|payload|, hit) + rest, 0)
  {
    BurstSeen(payload, U16Bytes(Crc16.Checksum(payload)), hit, s);
    DamagedIsCorrupt(Crc16.Checksum, |payload|, hit, rest);
  }

  ghost predicate OddDifference(x: bytes, y: bytes) {
    |x| == |y| && CrcDetection.Weight(CrcTheory.Add(CrcTheory.Bits(x), CrcTheory.Bits(y))) % 2 == 1
  }

  lemma {:induction false} OddAppend(a: CrcTheory.Poly, b: CrcTheory.Poly)
    ensures CrcDetection.Odd(a + b) == (CrcDetection.Odd(a) != CrcDetection.Odd(b))
  {
    if a == [] {
      assert a + b == b;
    } else {
      assert (a + b)[1..] == a[1..] + b;
      OddAppend(a[1..], b);
    }
  }

  lemma {:induction false} OddParity(x: bytes, y: bytes)
    requires |x| == |y|
    ensures OddDifference(x, y) <==> CrcDetection.Odd(CrcTheory.Bits(x)) != CrcDetection.Odd(CrcTheory.Bits(y))
  {
    CrcDetection.OddAdd(CrcTheory.Bits(x), CrcTheory.Bits(y));
    CrcDetection.OddWeight(CrcTheory.Add(CrcTheory.Bits(x), CrcTheory.Bits(y)));
  }

  lemma OddInFront(x: bytes, y: bytes, t: byte)
    requires OddDifference(x + [t], y + [t])
    ensures OddDifference(x, y)
  {
    OddParity(x + [t], y + [t]);
    CrcDetection.BitsAppend(x, [t]);
    CrcDetection.BitsAppend(y, [t]);
    OddAppend(CrcTheory.Bits(x), CrcTheory.Bits([t]));
    OddAppend(CrcTheory.Bits(y), CrcTheory.Bits([t]));
    OddParity(x, y);
  }

  lemma OddFlipsSeen(p: bytes, sum: bytes, hit: bytes)
    requires |sum| == 2 && U16(sum[0], sum[1]) == Crc16.Checksum(p)
    requires OddDifference(p + sum + [TERMINATOR], hit)
    ensures !Consistent(Crc16.Checksum, |p|, hit)
  {
    if hit[|p| + 2] == TERMINATOR {
      var q, d := HitParts(hit, |p|);
      OddInFront(p + sum, q + d, TERMINATOR);
      CrcDetection.OddErrorsDetected(p + sum, q + d);
      ResidueTells(p, sum, q, d);
    }
  }

  /** Nor is one with an odd number of flipped bits behind the header. */
  lemma OddFlipsRejected(payload: bytes, hit: bytes, rest: bytes)
    requires Sendable(payload) && OddDifference(Body(Crc16.Checksum, payload), hit)
    ensures Corrupt(Crc16.Checksum, Damaged(|payload|, hit) + rest, 0)
  {
    OddFlipsSeen(payload, U16Bytes(Crc16.Checksum(payload)), hit);
    DamagedIsCorrupt(Crc16.Checksum, |payload|, hit, rest);
  }

  // ----- the reference packet ----------------------------------------------------------

  lemma GoldenSteps()
    ensures Crc16.TableStep(0, 0x54) == 0x1A71
    ensures Crc16.TableStep(0x1A71, 0x65) == 0xFE78
    ensures Crc16.TableStep(0xFE78, 0x21) == 0x4292
  {
  }

  lemma {:induction false} RunCons(c: bv16, b: byte, rest: bytes)
    ensures Crc16.Run(c, [b] + rest) == Crc16.Run(Crc16.TableStep(c, b), rest)
  {
    assert ([b] + rest)[1..] == rest;
  }

  lemma GoldenChecksum()
    ensures Crc16.Checksum([0x54, 0x65, 0x21]) == 0x4292
  {
    GoldenSteps();
    RunCons(0, 0x54, [0x65, 0x21]);
    RunCons(0x1A71, 0x65, [0x21]);
    RunCons(0xFE78, 0x21, []);
    assert [0x54 as byte, 0x65, 0x21] == [0x54] + [0x65, 0x21];
    assert [0x65 as byte, 0x21] == [0x65] + [0x21] && [0x21 as byte] == [0x21] + [];
  }

  /** So the packet is the one the codec's tests take as known good: payload "Te!". */
  lemma GoldenPacket(crc: Checker, payload: bytes)
    requires payload == [0x54, 0x65, 0x21] && crc(payload) == 0x4292
    ensures Framed(crc, payload) == [2, 3, 0x54, 0x65, 0x21, 0x42, 0x92, 3]
  {
  }
}
