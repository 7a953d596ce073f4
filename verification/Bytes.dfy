/** Bytes and the big-endian integer fields every layer of the driver packs
    and unpacks (struct formats '>' and '!'). */
module Bytes {
  type byte = x: int | 0 <= x < 256
  type bytes = seq<byte>

  type u16 = x: int | 0 <= x < 65536

  /** 256^width: how many values fit in `width` bytes. */
  function Span(width: nat): (r: int)
    ensures r >= 1
  {
    if width == 0 then 1 else 256 * Span(width - 1)
  }

  function FromBigEndian(b: bytes): (n: nat)
    ensures n < Span(|b|)
  {
    if b == [] then 0 else 256 * FromBigEndian(b[..|b| - 1]) + b[|b| - 1]
  }

  function ToBigEndian(width: nat, n: nat): (b: bytes)
    ensures |b| == width
  {
    if width == 0 then [] else ToBigEndian(width - 1, n / 256) + [n % 256]
  }

  lemma {:induction false} BigEndianRoundTrip(width: nat, n: nat)
    requires n < Span(width)
    ensures FromBigEndian(ToBigEndian(width, n)) == n
  {
    if width > 0 {
      BigEndianRoundTrip(width - 1, n / 256);
      var b := ToBigEndian(width, n);
      assert b[..|b| - 1] == ToBigEndian(width - 1, n / 256);
    }
  }

  lemma {:induction false} BigEndianInverse(b: bytes)
    ensures ToBigEndian(|b|, FromBigEndian(b)) == b
  {
    if b != [] {
      var front, n := b[..|b| - 1], FromBigEndian(b);
      BigEndianInverse(front);
      assert n / 256 == FromBigEndian(front) && n % 256 == b[|b| - 1];
      assert ToBigEndian(|b|, n) == ToBigEndian(|front|, n / 256) + [n % 256];
    }
  }

  /** The most significant byte comes first: fields of one, two and four bytes. */
  lemma BigEndianFields(a: byte, b: byte, c: byte, d: byte)
    ensures FromBigEndian([a]) == a
    ensures FromBigEndian([a, b]) == 0x100 * a + b
    ensures FromBigEndian([a, b, c, d]) == 0x100_0000 * a + 0x1_0000 * b + 0x100 * c + d
    ensures FromSigned([a]) == if a < 0x80 then a else a - 0x100
    ensures FromSigned([a, b]) == if a < 0x80 then 0x100 * a + b else 0x100 * a + b - 0x1_0000
    ensures var n := 0x100_0000 * a + 0x1_0000 * b + 0x100 * c + d;
      FromSigned([a, b, c, d]) == if a < 0x80 then n else n - 0x1_0000_0000
  {
    FromBigEndianSnoc([], a);
    FromBigEndianSnoc([a], b);
    FromBigEndianSnoc([a, b], c);
    FromBigEndianSnoc([a, b, c], d);
    assert [] + [a] == [a] && [a] + [b] == [a, b] && [a, b] + [c] == [a, b, c] && [a, b, c] + [d] == [a, b, c, d];
    assert Span(0) == 1 && Span(1) == 0x100 && Span(2) == 0x1_0000 && Span(3) == 0x100_0000 && Span(4) == 0x1_0000_0000;
  }

  lemma {:induction false} FromBigEndianSnoc(b: bytes, x: byte)
    ensures FromBigEndian(b + [x]) == 256 * FromBigEndian(b) + x
  {
    assert (b + [x])[..|b|] == b;
  }

  /** Two's complement reading of a big-endian field. */
  function FromSigned(b: bytes): (v: int)
    ensures b != [] ==> -Span(|b|) <= 2 * v < Span(|b|)
  {
    var n := FromBigEndian(b);
    if 2 * n < Span(|b|) then n else n - Span(|b|)
  }

  predicate FitsSigned(width: nat, v: int) {
    -Span(width) <= 2 * v < Span(width)
  }

  function ToSigned(width: nat, v: int): (b: bytes)
    requires FitsSigned(width, v)
    ensures |b| == width
  {
    ToBigEndian(width, if v >= 0 then v else v + Span(width))
  }

  lemma SignedRoundTrip(width: nat, v: int)
    requires FitsSigned(width, v)
    ensures FromSigned(ToSigned(width, v)) == v
  {
    BigEndianRoundTrip(width, if v >= 0 then v else v + Span(width));
  }

  /** The two-byte case, written out: most fields on the wire are this wide. */
  function U16(hi: byte, lo: byte): (n: nat)
    ensures n < 65536
  {
    256 * hi + lo
  }

  function U16Bytes(n: nat): (b: bytes)
    requires n < 65536
    ensures |b| == 2 && U16(b[0], b[1]) == n
  {
    [n / 256, n % 256]
  }

  /** Concatenation of a list of byte strings (b''.join). */
  function Concat(parts: seq<bytes>): bytes {
    if parts == [] then [] else parts[0] + Concat(parts[1..])
  }

  lemma {:induction false} ConcatAppend(a: seq<bytes>, b: seq<bytes>)
    ensures Concat(a + b) == Concat(a) + Concat(b)
  {
    if a == [] {
      assert a + b == b;
    } else {
      assert (a + b)[1..] == a[1..] + b;
      ConcatAppend(a[1..], b);
    }
  }
}
