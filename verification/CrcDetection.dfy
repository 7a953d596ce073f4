/** What the checksum is for: which corruptions it can never miss. */
module CrcDetection {
  import opened Bytes
  import opened Crc16
  import opened CrcTheory

  // ----- the remainder, by its defining equation ---------------------------------

  /** The product of q and the generator x^16+x^12+x^5+1. */
  function Multiple(q: Poly): (p: Poly)
    ensures |p| == |q| + 16
    decreases |q|
  {
    if q == [] then Zeros(16)
    else
      var n := |q| - 1;
      Add(Multiple(q[..n]) + [false], Zeros(n) + if q[n] then [true] + GeneratorTail() else Zeros(17))
  }

  function Quotient(bits: Poly): (q: Poly)
    ensures |q| == |bits|
    decreases |bits|
  {
    if bits == [] then []
    else
      var n := |bits| - 1;
      Quotient(bits[..n]) + [Divide(Zeros(16), bits[..n])[0] != bits[n]]
  }

  /** One more quotient digit cancels the next message coefficient. */
  lemma CancelLeading(init: Poly, c: Poly, last: bool)
    requires |c| == 16
    ensures Add((init + c) + [false],
                Zeros(|init|) + if c[0] != last then [true] + GeneratorTail() else Zeros(17))
         == init + [last] + DivideStep(c, last)
  {
    var n, t := |init|, c[0] != last;
    var g := if t then [true] + GeneratorTail() else Zeros(17);
    var sum, goal := Add((init + c) + [false], Zeros(n) + g), init + [last] + DivideStep(c, last);
    var d := [t] + c[1..];
    assert d[1..] == c[1..];
    forall i | 0 <= i < n + 17
      ensures sum[i] == goal[i]
    {
      if i >= n {
        assert (Zeros(n) + g)[i] == g[i - n];
        assert ((init + c) + [false])[i] == if i - n < 16 then c[i - n] else false;
      }
    }
  }

  lemma {:induction false} MultipleSnoc(q: Poly, t: bool)
    ensures Multiple(q + [t])
         == Add(Multiple(q) + [false], Zeros(|q|) + if t then [true] + GeneratorTail() else Zeros(17))
  {
    var p := q + [t];
    assert p != [] && |p| - 1 == |q| && p[|q|] == t;
    assert p[..|p| - 1] == q;
  }

  lemma {:induction false} QuotientCorrect(bits: Poly)
    ensures Multiple(Quotient(bits)) == bits + Divide(Zeros(16), bits)
    decreases |bits|
  {
    if bits != [] {
      var n := |bits| - 1;
      var init, last := bits[..n], bits[n];
      var c := Divide(Zeros(16), init);
      QuotientCorrect(init);
      MultipleSnoc(Quotient(init), c[0] != last);
      CancelLeading(init, c, last);
      assert bits == init + [last];
      DivideSnoc(init, last);
    }
  }

  lemma {:induction false} DivideSnoc(init: Poly, last: bool)
    ensures Divide(Zeros(16), init + [last]) == DivideStep(Divide(Zeros(16), init), last)
  {
    DivideAppend(Zeros(16), init, [last]);
    assert [last][1..] == [];
  }

  /** The leading coefficients of a multiple determine its quotient. */
  lemma {:induction false} QuotientUnique(q: Poly, r: Poly)
    requires |q| == |r| && Multiple(q)[..|q|] == Multiple(r)[..|r|]
    ensures q == r
    decreases |q|
  {
    if q != [] {
      var n := |q| - 1;
      var mq, mr := Multiple(q[..n]), Multiple(r[..n]);
      forall i | 0 <= i < n
        ensures mq[i] == mr[i]
      {
        assert Multiple(q)[..|q|][i] == mq[i];
        assert Multiple(r)[..|r|][i] == mr[i];
      }
      assert mq[..n] == mr[..n];
      QuotientUnique(q[..n], r[..n]);
      assert Multiple(q)[..|q|][n] == (mq[n] != q[n]);
      assert Multiple(r)[..|r|][n] == (mr[n] != r[n]);
      assert q == q[..n] + [q[n]] && r == r[..n] + [r[n]];
    }
  }

  /** Message and remainder together are a multiple of the generator, and no
      other 16 coefficients make them one. */
  lemma {:induction false} CrcIsTheRemainder(data: bytes, r: Poly)
    requires |r| == 16
    ensures (exists q :: |q| == 8 * |data| && Multiple(q) == Bits(data) + r) <==> r == Coeffs(Crc(data))
  {
    var bits, c := Bits(data), Coeffs(Crc(data));
    CrcIsRemainder(data);
    QuotientCorrect(bits);
    assert Multiple(Quotient(bits)) == bits + c;
    forall q | |q| == 8 * |data| && Multiple(q) == bits + r
      ensures r == c
    {
      var w := Quotient(bits);
      assert Multiple(q)[..|q|] == bits == Multiple(w)[..|w|];
      QuotientUnique(q, w);
      assert r == Multiple(q)[|bits|..] == c;
    }
  }

  // ----- bursts --------------------------------------------------------------------

  lemma {:induction false} DivideInjective(a: Poly, b: Poly, bits: Poly)
    requires |a| == |b| == 16 && Divide(a, bits) == Divide(b, bits)
    ensures a == b
    decreases |bits|
  {
    if bits != [] {
      var a', b' := [a[0] != bits[0]] + a[1..], [b[0] != bits[0]] + b[1..];
      DivideInjective(DivideStep(a, bits[0]), DivideStep(b, bits[0]), bits[1..]);
      ShiftInjective(a', b');
      assert a'[0] == b'[0] && a'[1..] == b'[1..];
      assert a == [a[0]] + a[1..] && b == [b[0]] + b[1..];
    }
  }

  /** From one register value, two different windows of at most 16 bits lead to
      two different register values. */
  lemma {:induction false} WindowInjective(c: Poly, u: Poly, v: Poly)
    requires |c| == 16 && |u| == |v| <= 16 && Divide(c, u) == Divide(c, v)
    ensures u == v
  {
    var n := |u|;
    var x, y := Add(c, u + Zeros(16 - n)), Add(c, v + Zeros(16 - n));
    DivideIsShift(c, u);
    DivideIsShift(c, v);
    ShiftNInjective(x, y, n);
    forall i | 0 <= i < n
      ensures u[i] == v[i]
    {
      assert x[i] == (c[i] != u[i]) && y[i] == (c[i] != v[i]);
    }
  }

  function Bit(p: Poly, j: nat): nat
    requires j < |p|
  {
    if p[j] then 1 else 0
  }

  function ByteOf(p: Poly): nat
    requires |p| == 8
  {
    128 * Bit(p, 0) + 64 * Bit(p, 1) + 32 * Bit(p, 2) + 16 * Bit(p, 3)
    + 8 * Bit(p, 4) + 4 * Bit(p, 5) + 2 * Bit(p, 6) + Bit(p, 7)
  }

  lemma ByteValue(b: byte)
    ensures b == 128 * (b / 128 % 2) + 64 * (b / 64 % 2) + 32 * (b / 32 % 2) + 16 * (b / 16 % 2)
              + 8 * (b / 8 % 2) + 4 * (b / 4 % 2) + 2 * (b / 2 % 2) + b % 2
  {
    assert b / 4 == b / 2 / 2 && b / 8 == b / 4 / 2 && b / 16 == b / 8 / 2;
    assert b / 32 == b / 16 / 2 && b / 64 == b / 32 / 2 && b / 128 == b / 64 / 2;
  }

  lemma ByteOfBits(b: byte)
    ensures ByteOf(ByteBits(b)) == b
  {
    ByteValue(b);
    var p := ByteBits(b);
    assert Bit(p, 0) == b / 128 % 2 && Bit(p, 1) == b / 64 % 2 && Bit(p, 2) == b / 32 % 2;
    assert Bit(p, 3) == b / 16 % 2 && Bit(p, 4) == b / 8 % 2 && Bit(p, 5) == b / 4 % 2;
    assert Bit(p, 6) == b / 2 % 2 && Bit(p, 7) == b % 2;
  }

  lemma ByteBitsInjective(a: byte, b: byte)
    requires ByteBits(a) == ByteBits(b)
    ensures a == b
  {
    ByteOfBits(a);
    ByteOfBits(b);
  }

  lemma {:induction false} BitsInjective(p: bytes, q: bytes)
    requires |p| == |q| && Bits(p) == Bits(q)
    ensures p == q
  {
    if p != [] {
      assert Bits(p)[..8] == ByteBits(p[0]) && Bits(q)[..8] == ByteBits(q[0]);
      assert Bits(p)[8..] == Bits(p[1..]) && Bits(q)[8..] == Bits(q[1..]);
      ByteBitsInjective(p[0], q[0]);
      BitsInjective(p[1..], q[1..]);
    }
  }

  lemma {:induction false} ChecksumInjective(p: bytes, q: bytes)
    requires Checksum(p) == Checksum(q)
    ensures Divide(Zeros(16), Bits(p)) == Divide(Zeros(16), Bits(q))
  {
    WordOfInt(Crc(p), Crc(q));
    CrcIsRemainder(p);
    CrcIsRemainder(q);
  }

  lemma WordOfInt(a: bv16, b: bv16)
    requires a as int == b as int
    ensures a == b
  {
    assert (a as int) as bv16 == a;
    assert (b as int) as bv16 == b;
  }

  /** Equal outside the 16 bits that start at bit s. */
  ghost predicate DifferInBurst(p: bytes, q: bytes, s: nat) {
    && |p| == |q|
    && p != q
    && forall i :: 0 <= i < 8 * |p| && !(s <= i < s + 16) ==> Bits(p)[i] == Bits(q)[i]
  }

  /** Same remainder and same outside a window of 16 means the same message. */
  lemma {:induction false} WindowDecides(a: Poly, b: Poly, lo: nat, hi: nat)
    requires |a| == |b| && lo <= hi <= |a| && hi - lo <= 16
    requires a[..lo] == b[..lo] && a[hi..] == b[hi..]
    requires Divide(Zeros(16), a) == Divide(Zeros(16), b)
    ensures a[lo..hi] == b[lo..hi]
  {
    var c := Divide(Zeros(16), a[..lo]);
    SplitThree(a, lo, hi);
    SplitThree(b, lo, hi);
    DivideThree(a[..lo], a[lo..hi], a[hi..]);
    DivideThree(b[..lo], b[lo..hi], b[hi..]);
    DivideInjective(Divide(c, a[lo..hi]), Divide(c, b[lo..hi]), a[hi..]);
    WindowInjective(c, a[lo..hi], b[lo..hi]);
  }

  /** A burst of up to 16 bits anywhere in a message, of any length, changes its
      checksum. */
  lemma BurstDetected(p: bytes, q: bytes, s: nat)
    requires DifferInBurst(p, q, s)
    ensures Checksum(p) != Checksum(q)
  {
    if Checksum(p) == Checksum(q) {
      ChecksumInjective(p, q);
      var bp, bq := Bits(p), Bits(q);
      var n := |bp|;
      var lo := if s <= n then s else n;
      var hi := if s + 16 <= n then s + 16 else n;
      WindowDecides(bp, bq, lo, hi);
      forall i | 0 <= i < n
        ensures bp[i] == bq[i]
      {
        if lo <= i < hi {
          assert bp[lo..hi][i - lo] == bq[lo..hi][i - lo];
        }
      }
      BitsInjective(p, q);
    }
  }

  lemma {:induction false} DivideThree(a: Poly, b: Poly, c: Poly)
    ensures Divide(Zeros(16), a + b + c) == Divide(Divide(Divide(Zeros(16), a), b), c)
  {
    DivideAppend(Zeros(16), a + b, c);
    DivideAppend(Zeros(16), a, b);
  }

  lemma SplitThree(p: Poly, lo: nat, hi: nat)
    requires lo <= hi <= |p|
    ensures p == p[..lo] + p[lo..hi] + p[hi..]
  {
  }

  // ----- odd numbers of flipped bits --------------------------------------------------

  /** How many coefficients are one. */
  function Weight(p: Poly): nat {
    if p == [] then 0 else (if p[0] then 1 else 0) + Weight(p[1..])
  }

  predicate Odd(p: Poly) {
    if p == [] then false else p[0] != Odd(p[1..])
  }

  lemma {:induction false} OddWeight(p: Poly)
    ensures Odd(p) <==> Weight(p) % 2 == 1
  {
    if p != [] {
      OddWeight(p[1..]);
    }
  }

  lemma {:induction false} OddSnoc(p: Poly, b: bool)
    ensures Odd(p + [b]) == (Odd(p) != b)
  {
    if p == [] {
      assert (p + [b])[1..] == [];
    } else {
      assert (p + [b])[1..] == p[1..] + [b];
      OddSnoc(p[1..], b);
    }
  }

  lemma {:induction false} OddAdd(a: Poly, b: Poly)
    requires |a| == |b|
    ensures Odd(Add(a, b)) == (Odd(a) != Odd(b))
  {
    if a != [] {
      assert Add(a, b)[1..] == Add(a[1..], b[1..]);
      OddAdd(a[1..], b[1..]);
    }
  }

  /** Without its leading term the generator has three. */
  lemma TailOdd()
    ensures Odd(GeneratorTail())
  {
    var g := GeneratorTail();
    OddFrom(g, 0);
    assert g[0..] == g;
  }

  lemma {:induction false} OddFrom(g: Poly, i: nat)
    requires g == GeneratorTail() && i <= 16
    ensures Odd(g[i..]) == (i <= 3 || 10 < i <= 15)
    decreases 16 - i
  {
    if i < 16 {
      OddFrom(g, i + 1);
      assert g[i..][1..] == g[i + 1..];
    }
  }

  lemma {:induction false} OddShift(d: Poly)
    requires |d| == 16
    ensures Odd(Shift(d)) == Odd(d)
  {
    var up := d[1..] + [false];
    OddSnoc(d[1..], false);
    OddAdd(up, GeneratorTail());
    TailOdd();
  }

  /** The generator has an even number of terms, so dividing by it keeps parity. */
  lemma {:induction false} OddStep(c: Poly, bit: bool)
    requires |c| == 16
    ensures Odd(DivideStep(c, bit)) == (Odd(c) != bit)
  {
    var d := [c[0] != bit] + c[1..];
    assert d[1..] == c[1..];
    OddShift(d);
  }

  lemma {:induction false} OddDivide(c: Poly, bits: Poly)
    requires |c| == 16
    ensures Odd(Divide(c, bits)) == (Odd(c) != Odd(bits))
    decreases |bits|
  {
    if bits != [] {
      OddStep(c, bits[0]);
      OddDivide(DivideStep(c, bits[0]), bits[1..]);
    }
  }

  /** Any odd number of flipped bits, wherever they are, changes the checksum. */
  lemma {:induction false} OddErrorsDetected(p: bytes, q: bytes)
    requires |p| == |q| && Weight(Add(Bits(p), Bits(q))) % 2 == 1
    ensures Checksum(p) != Checksum(q)
  {
    if Checksum(p) == Checksum(q) {
      ChecksumInjective(p, q);
      OddDivide(Zeros(16), Bits(p));
      OddDivide(Zeros(16), Bits(q));
      OddAdd(Bits(p), Bits(q));
      OddWeight(Add(Bits(p), Bits(q)));
    }
  }

  // ----- the residue -----------------------------------------------------------------

  lemma {:induction false} BitsAppend(a: bytes, b: bytes)
    ensures Bits(a + b) == Bits(a) + Bits(b)
  {
    if a == [] {
      assert a + b == b;
    } else {
      assert (a + b)[1..] == a[1..] + b;
      BitsAppend(a[1..], b);
    }
  }

  lemma {:induction false} ZeroStaysZero(n: nat)
    ensures ShiftN(Zeros(16), n) == Zeros(16)
    decreases n
  {
    if n > 0 {
      assert Shift(Zeros(16)) == Zeros(16);
      ZeroStaysZero(n - 1);
    }
  }

  /** Dividing the register's own coefficients out of it leaves nothing, and
      only they do. */
  lemma {:induction false} ResidueOfWindow(c: Poly, w: Poly)
    requires |c| == |w| == 16
    ensures Divide(c, w) == Zeros(16) <==> w == c
  {
    DivideIsShift(c, w);
    ZeroStaysZero(16);
    assert w + Zeros(0) == w;
    if w == c {
      assert Add(c, w) == Zeros(16);
    }
    if Divide(c, w) == Zeros(16) {
      ShiftNInjective(Add(c, w), Zeros(16), 16);
      forall i | 0 <= i < 16
        ensures w[i] == c[i]
      {
        assert Add(c, w)[i] == false;
      }
    }
  }

  lemma BitsOfPair(hi: byte, lo: byte)
    ensures Bits([hi, lo]) == ByteBits(hi) + ByteBits(lo)
  {
    assert [hi, lo][1..] == [lo];
    assert Bits([lo]) == ByteBits(lo) + Bits([]);
  }

  lemma LowBitsOfByte(b: byte, w: bv16)
    requires w == b as bv16
    ensures !Coeff(w, 0)
    ensures !Coeff(w, 1)
    ensures !Coeff(w, 2)
    ensures !Coeff(w, 3)
    ensures !Coeff(w, 4)
    ensures !Coeff(w, 5)
    ensures !Coeff(w, 6)
    ensures !Coeff(w, 7)
    ensures Coeff(w, 8) == ByteBit(b, 0)
    ensures Coeff(w, 9) == ByteBit(b, 1)
    ensures Coeff(w, 10) == ByteBit(b, 2)
    ensures Coeff(w, 11) == ByteBit(b, 3)
    ensures Coeff(w, 12) == ByteBit(b, 4)
    ensures Coeff(w, 13) == ByteBit(b, 5)
    ensures Coeff(w, 14) == ByteBit(b, 6)
    ensures Coeff(w, 15) == ByteBit(b, 7)
  {
  }

  lemma CoeffsLow(b: byte)
    ensures Coeffs(b as bv16) == Zeros(8) + ByteBits(b)
  {
    LowBitsOfByte(b, b as bv16);
    SameSixteen(Coeffs(b as bv16), Zeros(8) + ByteBits(b));
  }

  lemma WordHalves(v: bv16)
    ensures (v >> 8) as int == v as int / 256
    ensures (v & 0xFF) as int == v as int % 256
    ensures (v >> 8) as int < 256 && (v & 0xFF) as int < 256
  {
    assert (v & 0xFF) as int == v as int - 256 * ((v >> 8) as int);
  }

  lemma JoinHalves(v: bv16)
    ensures v == (((v >> 8) << 8) ^ (v & 0xFF))
  {
  }

  lemma WordOfHalf(b: byte, h: bv16)
    requires b == h as int
    ensures b as bv16 == h
  {
    assert (h as int) as bv16 == h;
  }

  lemma WordOfPair(v: bv16, hi: byte, lo: byte, h: bv16, l: bv16)
    requires hi == v as int / 256 && lo == v as int % 256
    requires h == v >> 8 && l == v & 0xFF
    ensures hi as bv16 == h && lo as bv16 == l
  {
    WordHalves(v);
    WordOfHalf(hi, h);
    WordOfHalf(lo, l);
  }

  lemma SumOfHalves(v: bv16, t: bv16, l: bv16, a: Poly, b: Poly)
    requires v == t ^ l && |a| == |b| == 8
    requires Coeffs(t) == a + Zeros(8) && Coeffs(l) == Zeros(8) + b
    ensures Coeffs(v) == a + b
  {
    CoeffsXorIs(t, l, v);
    JoinPolys(a, b);
  }

  lemma CoeffsOfHalves(v: bv16, hi: byte, lo: byte, h: bv16, l: bv16)
    requires h == hi as bv16 && l == lo as bv16 && v == (h << 8) ^ l
    ensures Coeffs(v) == ByteBits(hi) + ByteBits(lo)
  {
    CoeffsByte(hi);
    CoeffsLow(lo);
    SumOfHalves(v, h << 8, l, ByteBits(hi), ByteBits(lo));
  }

  lemma JoinPolys(a: Poly, b: Poly)
    requires |a| == |b| == 8
    ensures Add(a + Zeros(8), Zeros(8) + b) == a + b
  {
  }

  /** The two bytes a checksum is sent as carry exactly its coefficients. */
  lemma CoeffsOfPair(v: bv16, hi: byte, lo: byte)
    requires hi == v as int / 256 && lo == v as int % 256
    ensures Coeffs(v) == ByteBits(hi) + ByteBits(lo)
  {
    WordOfPair(v, hi, lo, v >> 8, v & 0xFF);
    JoinHalves(v);
    CoeffsOfHalves(v, hi, lo, v >> 8, v & 0xFF);
  }

  /** A message followed by two bytes checks to zero exactly when those bytes are
      its checksum, high byte first. */
  lemma ResidueIsZero(data: bytes, hi: byte, lo: byte)
    ensures Checksum(data + [hi, lo]) == 0 <==> U16(hi, lo) == Checksum(data)
  {
    var v := Crc(data);
    var vh, vl := v as int / 256, v as int % 256;
    CoeffsOfPair(v, vh, vl);
    CrcIsRemainder(data);
    CrcIsRemainder(data + [hi, lo]);
    BitsAppend(data, [hi, lo]);
    BitsOfPair(hi, lo);
    DivideAppend(Zeros(16), Bits(data), Bits([hi, lo]));
    ResidueOfWindow(Coeffs(v), Bits([hi, lo]));
    ZeroChecksum(data + [hi, lo]);
    PairInjective(hi, lo, vh, vl);
  }

  lemma ZeroChecksum(data: bytes)
    ensures Checksum(data) == 0 <==> Coeffs(Crc(data)) == Zeros(16)
  {
    CoeffsZero();
    if Coeffs(Crc(data)) == Zeros(16) {
      CoeffsInjective(Crc(data), 0);
    }
    if Checksum(data) == 0 {
      WordOfInt(Crc(data), 0);
    }
  }

  lemma PairInjective(a: byte, b: byte, c: byte, d: byte)
    ensures ByteBits(a) + ByteBits(b) == ByteBits(c) + ByteBits(d) <==> a == c && b == d
  {
    var p, q := ByteBits(a) + ByteBits(b), ByteBits(c) + ByteBits(d);
    if p == q {
      assert ByteBits(a) == p[..8] == q[..8] == ByteBits(c);
      assert ByteBits(b) == p[8..] == q[8..] == ByteBits(d);
      ByteBitsInjective(a, c);
      ByteBitsInjective(b, d);
    }
  }
}
