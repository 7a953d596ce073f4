/**
  What the table-driven CRC computes: the remainder of the message polynomial
  modulo x^16+x^12+x^5+1, and what that buys: bursts of up to 16 bits and odd
  numbers of flipped bits always change it.
*/
module CrcTheory {
  import opened Bytes
  import opened Crc16

  // ----- the register as a machine word --------------------------------------

  /** One clock of the register: shift left, and subtract the generator when a
      one falls out. */
  function Clock(c: bv16): bv16 {
    if c & 0x8000 != 0 then (c << 1) ^ 0x1021 else c << 1
  }

  function Clock8(c: bv16): bv16 {
    Clock(Clock(Clock(Clock(Clock(Clock(Clock(Clock(c))))))))
  }

  // ----- the 256 table entries -----------------------------------------------

  function Entry(row: bv16, k: bv16): bv16 {
    Clock8((row << 12) | (k << 8))
  }

  ghost predicate Lists(row: seq<bv16>, f: bv16 -> bv16) {
    && |row| == 16
    && row[0] == f(0) && row[1] == f(1) && row[2] == f(2) && row[3] == f(3)
    && row[4] == f(4) && row[5] == f(5) && row[6] == f(6) && row[7] == f(7)
    && row[8] == f(8) && row[9] == f(9) && row[10] == f(10) && row[11] == f(11)
    && row[12] == f(12) && row[13] == f(13) && row[14] == f(14) && row[15] == f(15)
  }

  lemma Row0()
    ensures Lists(TABLE[0], k => Entry(0, k))
  {
  }

  lemma Row1()
    ensures Lists(TABLE[1], k => Entry(1, k))
  {
  }

  lemma Row2()
    ensures Lists(TABLE[2], k => Entry(2, k))
  {
  }

  lemma Row3()
    ensures Lists(TABLE[3], k => Entry(3, k))
  {
  }

  lemma Row4()
    ensures Lists(TABLE[4], k => Entry(4, k))
  {
  }

  lemma Row5()
    ensures Lists(TABLE[5], k => Entry(5, k))
  {
  }

  lemma Row6()
    ensures Lists(TABLE[6], k => Entry(6, k))
  {
  }

  lemma Row7()
    ensures Lists(TABLE[7], k => Entry(7, k))
  {
  }

  lemma Row8()
    ensures Lists(TABLE[8], k => Entry(8, k))
  {
  }

  lemma Row9()
    ensures Lists(TABLE[9], k => Entry(9, k))
  {
  }

  lemma Row10()
    ensures Lists(TABLE[10], k => Entry(10, k))
  {
  }

  lemma Row11()
    ensures Lists(TABLE[11], k => Entry(11, k))
  {
  }

  lemma Row12()
    ensures Lists(TABLE[12], k => Entry(12, k))
  {
  }

  lemma Row13()
    ensures Lists(TABLE[13], k => Entry(13, k))
  {
  }

  lemma Row14()
    ensures Lists(TABLE[14], k => Entry(14, k))
  {
  }

  lemma Row15()
    ensures Lists(TABLE[15], k => Entry(15, k))
  {
  }

  lemma RowLookup(row: seq<bv16>, x: bv16, f: bv16 -> bv16)
    requires Lists(row, f) && x < 16
    ensures row[x as int] == f(x)
  {
    if x == 0 {
      assert x as int == 0;
    } else if x == 1 {
      assert x as int == 1;
    } else if x == 2 {
      assert x as int == 2;
    } else if x == 3 {
      assert x as int == 3;
    } else if x == 4 {
      assert x as int == 4;
    } else if x == 5 {
      assert x as int == 5;
    } else if x == 6 {
      assert x as int == 6;
    } else if x == 7 {
      assert x as int == 7;
    } else if x == 8 {
      assert x as int == 8;
    } else if x == 9 {
      assert x as int == 9;
    } else if x == 10 {
      assert x as int == 10;
    } else if x == 11 {
      assert x as int == 11;
    } else if x == 12 {
      assert x as int == 12;
    } else if x == 13 {
      assert x as int == 13;
    } else if x == 14 {
      assert x as int == 14;
    } else {
      assert x == 15;
      assert x as int == 15;
    }
  }

  lemma TableRow(h: bv16)
    requires h < 16
    ensures Lists(TABLE[h as int], k => Entry(h, k))
  {
    if h == 0 {
      assert h as int == 0;
      Row0();
    } else if h == 1 {
      assert h as int == 1;
      Row1();
    } else if h == 2 {
      assert h as int == 2;
      Row2();
    } else if h == 3 {
      assert h as int == 3;
      Row3();
    } else if h == 4 {
      assert h as int == 4;
      Row4();
    } else if h == 5 {
      assert h as int == 5;
      Row5();
    } else if h == 6 {
      assert h as int == 6;
      Row6();
    } else if h == 7 {
      assert h as int == 7;
      Row7();
    } else if h == 8 {
      assert h as int == 8;
      Row8();
    } else if h == 9 {
      assert h as int == 9;
      Row9();
    } else if h == 10 {
      assert h as int == 10;
      Row10();
    } else if h == 11 {
      assert h as int == 11;
      Row11();
    } else if h == 12 {
      assert h as int == 12;
      Row12();
    } else if h == 13 {
      assert h as int == 13;
      Row13();
    } else if h == 14 {
      assert h as int == 14;
      Row14();
    } else {
      assert h == 15;
      assert h as int == 15;
      Row15();
    }
  }

  lemma SplitIndex(i: bv16)
    requires i < 256
    ensures ((i >> 4) << 12) | ((i & 0xF) << 8) == i << 8
    ensures i >> 4 < 16 && i & 0xF < 16
  {
  }

  /** Every table entry is its index pushed through eight clocks. */
  lemma TableEntryIsShift(i: bv16)
    requires i < 256
    ensures TableEntry(i) == Clock8(i << 8)
  {
    SplitIndex(i);
    TableEntryAt(i, i >> 4, i & 0xF);
  }

  lemma TableEntryAt(i: bv16, h: bv16, k: bv16)
    requires i < 256 && h < 16 && k < 16 && h == i >> 4 && k == i & 0xF
    ensures TableEntry(i) == Entry(h, k)
  {
    TableRow(h);
    RowLookup(TABLE[h as int], k, x => Entry(h, x));
  }

  // ----- the register as 16 coefficients ---------------------------------------

  /** A polynomial over GF(2), highest coefficient first. */
  type Poly = seq<bool>

  function Zeros(n: nat): (p: Poly)
    ensures |p| == n
  {
    seq(n, i => false)
  }

  /** Addition, which is also subtraction. */
  function Add(a: Poly, b: Poly): (p: Poly)
    requires |a| == |b|
    ensures |p| == |a|
  {
    seq(|a|, i requires 0 <= i < |a| => a[i] != b[i])
  }

  predicate InGeneratorTail(i: int) {
    i == 3 || i == 10 || i == 15
  }

  /** The generator without its leading term: x^12 + x^5 + 1. */
  function GeneratorTail(): (p: Poly)
    ensures |p| == 16
  {
    seq(16, i => InGeneratorTail(i))
  }

  /** Multiply by x and reduce modulo the generator. */
  function Shift(c: Poly): (p: Poly)
    requires |c| == 16
    ensures |p| == 16
  {
    var up := c[1..] + [false];
    if c[0] then Add(up, GeneratorTail()) else up
  }

  function ShiftN(c: Poly, n: nat): (p: Poly)
    requires |c| == 16
    ensures |p| == 16
    decreases n
  {
    if n == 0 then c else ShiftN(Shift(c), n - 1)
  }

  /** Long division, one message coefficient a step. */
  function DivideStep(c: Poly, bit: bool): (p: Poly)
    requires |c| == 16
    ensures |p| == 16
  {
    Shift([c[0] != bit] + c[1..])
  }

  function Divide(c: Poly, bits: Poly): (p: Poly)
    requires |c| == 16
    ensures |p| == 16
    decreases |bits|
  {
    if bits == [] then c else Divide(DivideStep(c, bits[0]), bits[1..])
  }

  lemma {:induction false} DivideAppend(c: Poly, a: Poly, b: Poly)
    requires |c| == 16
    ensures Divide(c, a + b) == Divide(Divide(c, a), b)
    decreases |a|
  {
    if a == [] {
      assert a + b == b;
    } else {
      assert (a + b)[1..] == a[1..] + b;
      DivideAppend(DivideStep(c, a[0]), a[1..], b);
    }
  }

  lemma ShiftLinear(a: Poly, b: Poly)
    requires |a| == |b| == 16
    ensures Shift(Add(a, b)) == Add(Shift(a), Shift(b))
  {
  }

  lemma {:induction false} ShiftNLinear(a: Poly, b: Poly, n: nat)
    requires |a| == |b| == 16
    ensures ShiftN(Add(a, b), n) == Add(ShiftN(a, n), ShiftN(b, n))
    decreases n
  {
    if n > 0 {
      ShiftLinear(a, b);
      ShiftNLinear(Shift(a), Shift(b), n - 1);
    }
  }

  /** The constant term of the generator makes the clock reversible. */
  lemma ShiftInjective(a: Poly, b: Poly)
    requires |a| == |b| == 16 && Shift(a) == Shift(b)
    ensures a == b
  {
    assert Shift(a)[15] == a[0] && Shift(b)[15] == b[0];
    forall i | 1 <= i < 16
      ensures a[i] == b[i]
    {
      assert Shift(a)[i - 1] == (a[i] != (a[0] && GeneratorTail()[i - 1]));
      assert Shift(b)[i - 1] == (b[i] != (b[0] && GeneratorTail()[i - 1]));
    }
  }

  lemma {:induction false} ShiftNInjective(a: Poly, b: Poly, n: nat)
    requires |a| == |b| == 16 && ShiftN(a, n) == ShiftN(b, n)
    ensures a == b
    decreases n
  {
    if n > 0 {
      ShiftNInjective(Shift(a), Shift(b), n - 1);
      ShiftInjective(a, b);
    }
  }

  /** Feeding at most 16 coefficients one at a time is the same as adding them
      all to the top of the register and clocking that often. */
  lemma {:induction false} DivideIsShift(c: Poly, bits: Poly)
    requires |c| == 16 && |bits| <= 16
    ensures Divide(c, bits) == ShiftN(Add(c, bits + Zeros(16 - |bits|)), |bits|)
    decreases |bits|
  {
    if bits == [] {
      assert Add(c, bits + Zeros(16)) == c;
    } else {
      var rest := bits[1..];
      var s := DivideStep(c, bits[0]);
      DivideIsShift(s, rest);
      assert Add(s, rest + Zeros(16 - |rest|)) == Shift(Add(c, bits + Zeros(16 - |bits|)));
    }
  }

  // ----- the two representations agree ------------------------------------------

  /** Coefficient i of a word, highest first. */
  predicate Coeff(v: bv16, i: nat)
    requires i < 16
  {
    if i == 0 then v & 0x8000 != 0
    else if i == 1 then v & 0x4000 != 0
    else if i == 2 then v & 0x2000 != 0
    else if i == 3 then v & 0x1000 != 0
    else if i == 4 then v & 0x0800 != 0
    else if i == 5 then v & 0x0400 != 0
    else if i == 6 then v & 0x0200 != 0
    else if i == 7 then v & 0x0100 != 0
    else if i == 8 then v & 0x0080 != 0
    else if i == 9 then v & 0x0040 != 0
    else if i == 10 then v & 0x0020 != 0
    else if i == 11 then v & 0x0010 != 0
    else if i == 12 then v & 0x0008 != 0
    else if i == 13 then v & 0x0004 != 0
    else if i == 14 then v & 0x0002 != 0
    else v & 0x0001 != 0
  }

  function Coeffs(v: bv16): (p: Poly)
    ensures |p| == 16
  {
    seq(16, i requires 0 <= i < 16 => Coeff(v, i))
  }

  /** Sixteen equal coefficients make equal polynomials. */
  lemma SameSixteen(p: Poly, q: Poly)
    requires |p| == |q| == 16
    requires p[0] == q[0] && p[1] == q[1] && p[2] == q[2] && p[3] == q[3]
    requires p[4] == q[4] && p[5] == q[5] && p[6] == q[6] && p[7] == q[7]
    requires p[8] == q[8] && p[9] == q[9] && p[10] == q[10] && p[11] == q[11]
    requires p[12] == q[12] && p[13] == q[13] && p[14] == q[14] && p[15] == q[15]
    ensures p == q
  {
    forall i | 0 <= i < 16
      ensures p[i] == q[i]
    {
      assert i == 0 || i == 1 || i == 2 || i == 3 || i == 4 || i == 5 || i == 6 || i == 7
          || i == 8 || i == 9 || i == 10 || i == 11 || i == 12 || i == 13 || i == 14 || i == 15;
    }
  }

  lemma ShiftBits(c: bv16, d: bv16)
    requires d == c << 1
    ensures Coeff(d, 0) == Coeff(c, 1) && Coeff(d, 1) == Coeff(c, 2)
    ensures Coeff(d, 2) == Coeff(c, 3) && Coeff(d, 3) == Coeff(c, 4)
    ensures Coeff(d, 4) == Coeff(c, 5) && Coeff(d, 5) == Coeff(c, 6)
    ensures Coeff(d, 6) == Coeff(c, 7) && Coeff(d, 7) == Coeff(c, 8)
    ensures Coeff(d, 8) == Coeff(c, 9) && Coeff(d, 9) == Coeff(c, 10)
    ensures Coeff(d, 10) == Coeff(c, 11) && Coeff(d, 11) == Coeff(c, 12)
    ensures Coeff(d, 12) == Coeff(c, 13) && Coeff(d, 13) == Coeff(c, 14)
    ensures Coeff(d, 14) == Coeff(c, 15) && Coeff(d, 15) == false
  {
  }

  lemma GeneratorBits()
    ensures !Coeff(0x1021, 0) && !Coeff(0x1021, 1) && !Coeff(0x1021, 2) && Coeff(0x1021, 3)
    ensures !Coeff(0x1021, 4) && !Coeff(0x1021, 5) && !Coeff(0x1021, 6) && !Coeff(0x1021, 7)
    ensures !Coeff(0x1021, 8) && !Coeff(0x1021, 9) && Coeff(0x1021, 10) && !Coeff(0x1021, 11)
    ensures !Coeff(0x1021, 12) && !Coeff(0x1021, 13) && !Coeff(0x1021, 14) && Coeff(0x1021, 15)
  {
  }

  lemma WordsAgree(a: bv16, b: bv16)
    requires Coeff(a, 0) == Coeff(b, 0) && Coeff(a, 1) == Coeff(b, 1)
    requires Coeff(a, 2) == Coeff(b, 2) && Coeff(a, 3) == Coeff(b, 3)
    requires Coeff(a, 4) == Coeff(b, 4) && Coeff(a, 5) == Coeff(b, 5)
    requires Coeff(a, 6) == Coeff(b, 6) && Coeff(a, 7) == Coeff(b, 7)
    requires Coeff(a, 8) == Coeff(b, 8) && Coeff(a, 9) == Coeff(b, 9)
    requires Coeff(a, 10) == Coeff(b, 10) && Coeff(a, 11) == Coeff(b, 11)
    requires Coeff(a, 12) == Coeff(b, 12) && Coeff(a, 13) == Coeff(b, 13)
    requires Coeff(a, 14) == Coeff(b, 14) && Coeff(a, 15) == Coeff(b, 15)
    ensures a == b
  {
  }

  lemma CoeffsInjective(a: bv16, b: bv16)
    requires Coeffs(a) == Coeffs(b)
    ensures a == b
  {
    var p, q := Coeffs(a), Coeffs(b);
    assert p[0] == q[0] && p[1] == q[1] && p[2] == q[2] && p[3] == q[3];
    assert p[4] == q[4] && p[5] == q[5] && p[6] == q[6] && p[7] == q[7];
    assert p[8] == q[8] && p[9] == q[9] && p[10] == q[10] && p[11] == q[11];
    assert p[12] == q[12] && p[13] == q[13] && p[14] == q[14] && p[15] == q[15];
    WordsAgree(a, b);
  }

  lemma CoeffsShiftLeft(c: bv16)
    ensures Coeffs(c << 1) == Coeffs(c)[1..] + [false]
  {
    ShiftBits(c, c << 1);
    SameSixteen(Coeffs(c << 1), Coeffs(c)[1..] + [false]);
  }

  lemma TopBitXor(a: bv16, b: bv16)
    ensures ((a ^ b) & 0x8000 != 0) == ((a & 0x8000 != 0) != (b & 0x8000 != 0))
  {
  }

  lemma TopCoeff(v: bv16)
    ensures Coeffs(v)[0] == (v & 0x8000 != 0)
  {
  }

  lemma TopCoeffXor(a: bv16, b: bv16)
    ensures Coeffs(a ^ b)[0] == (Coeffs(a)[0] != Coeffs(b)[0])
  {
    TopBitXor(a, b);
    TopCoeff(a);
    TopCoeff(b);
    TopCoeff(a ^ b);
  }

  lemma ShiftXor(a: bv16, b: bv16, s: bv16)
    requires s == a ^ b
    ensures s << 1 == (a << 1) ^ (b << 1)
  {
  }

  lemma ShiftCoeff(v: bv16, i: nat)
    requires 0 < i < 16
    ensures Coeffs(v)[i] == Coeffs(v << 1)[i - 1]
  {
    CoeffsShiftLeft(v);
  }

  /** Coefficient i of a sum, by moving it to the top. */
  lemma {:induction false} CoeffXor(a: bv16, b: bv16, s: bv16, i: nat)
    requires s == a ^ b && i < 16
    ensures Coeffs(s)[i] == (Coeffs(a)[i] != Coeffs(b)[i])
    decreases i
  {
    if i == 0 {
      TopCoeffXor(a, b);
    } else {
      ShiftXor(a, b, s);
      CoeffXor(a << 1, b << 1, s << 1, i - 1);
      ShiftCoeff(a, i);
      ShiftCoeff(b, i);
      ShiftCoeff(s, i);
    }
  }

  lemma CoeffsXor(a: bv16, b: bv16)
    ensures Coeffs(a ^ b) == Add(Coeffs(a), Coeffs(b))
  {
    var p, q := Coeffs(a ^ b), Add(Coeffs(a), Coeffs(b));
    forall i | 0 <= i < 16
      ensures p[i] == q[i]
    {
      CoeffXor(a, b, a ^ b, i);
    }
  }

  lemma CoeffsClock(c: bv16)
    ensures Coeffs(Clock(c)) == Shift(Coeffs(c))
  {
    CoeffsShiftLeft(c);
    CoeffsXor(c << 1, 0x1021);
    GeneratorBits();
    SameSixteen(Coeffs(0x1021), GeneratorTail());
  }

  /** Bit j of a byte, most significant first. */
  predicate ByteBit(b: byte, j: nat)
    requires j < 8
  {
    if j == 0 then b / 128 % 2 == 1
    else if j == 1 then b / 64 % 2 == 1
    else if j == 2 then b / 32 % 2 == 1
    else if j == 3 then b / 16 % 2 == 1
    else if j == 4 then b / 8 % 2 == 1
    else if j == 5 then b / 4 % 2 == 1
    else if j == 6 then b / 2 % 2 == 1
    else b % 2 == 1
  }

  function ByteBits(b: byte): (s: Poly)
    ensures |s| == 8
  {
    seq(8, j requires 0 <= j < 8 => ByteBit(b, j))
  }

  /** A message as its coefficients, most significant bit of each byte first. */
  function Bits(data: bytes): (s: Poly)
    ensures |s| == 8 * |data|
  {
    if data == [] then [] else ByteBits(data[0]) + Bits(data[1..])
  }

  lemma BitsOfByte(b: byte, top: bv16)
    requires top == (b as bv16) << 8
    ensures Coeff(top, 0) == ByteBit(b, 0)
    ensures Coeff(top, 1) == ByteBit(b, 1)
    ensures Coeff(top, 2) == ByteBit(b, 2)
    ensures Coeff(top, 3) == ByteBit(b, 3)
    ensures Coeff(top, 4) == ByteBit(b, 4)
    ensures Coeff(top, 5) == ByteBit(b, 5)
    ensures Coeff(top, 6) == ByteBit(b, 6)
    ensures Coeff(top, 7) == ByteBit(b, 7)
    ensures !Coeff(top, 8)
    ensures !Coeff(top, 9)
    ensures !Coeff(top, 10)
    ensures !Coeff(top, 11)
    ensures !Coeff(top, 12)
    ensures !Coeff(top, 13)
    ensures !Coeff(top, 14)
    ensures !Coeff(top, 15)
  {
  }

  lemma CoeffsByte(b: byte)
    ensures Coeffs((b as bv16) << 8) == ByteBits(b) + Zeros(8)
  {
    BitsOfByte(b, (b as bv16) << 8);
    SameSixteen(Coeffs((b as bv16) << 8), ByteBits(b) + Zeros(8));
  }

  // ----- the table is long division ------------------------------------------------

  lemma CoeffsClock8(c: bv16)
    ensures Coeffs(Clock8(c)) == ShiftN(Coeffs(c), 8)
  {
    var c1 := Clock(c);
    var c2 := Clock(c1);
    var c3 := Clock(c2);
    var c4 := Clock(c3);
    CoeffsClock4(c);
    CoeffsClock4(c4);
    ShiftNSplit(Coeffs(c), 4, 4);
  }

  lemma CoeffsClock4(c: bv16)
    ensures Coeffs(Clock(Clock(Clock(Clock(c))))) == ShiftN(Coeffs(c), 4)
  {
    var c1 := Clock(c);
    var c2 := Clock(c1);
    var c3 := Clock(c2);
    CoeffsClock(c);
    CoeffsClock(c1);
    CoeffsClock(c2);
    CoeffsClock(c3);
    var p := Coeffs(c);
    assert ShiftN(p, 4) == ShiftN(Shift(p), 3) == ShiftN(Shift(Shift(p)), 2) == Shift(Shift(Shift(Shift(p))));
  }

  lemma {:induction false} ShiftNSplit(c: Poly, m: nat, n: nat)
    requires |c| == 16
    ensures ShiftN(c, m + n) == ShiftN(ShiftN(c, m), n)
    decreases m
  {
    if m > 0 {
      ShiftNSplit(Shift(c), m - 1, n);
    }
  }

  lemma SplitRegister(c: bv16, b: bv16, i: bv16)
    requires b < 256 && i == ((c >> 8) ^ b) & 0xFF
    ensures (i << 8) ^ (c & 0xFF) == c ^ (b << 8)
  {
  }

  /** Eight clocks move a low byte up without ever reaching the generator. */
  lemma ClockLowByte(c: bv16)
    ensures Clock8(c & 0xFF) == c << 8
  {
  }

  lemma CoeffsEntry(i: bv16)
    requires i < 256
    ensures Coeffs(TableEntry(i)) == ShiftN(Coeffs(i << 8), 8)
  {
    TableEntryIsShift(i);
    CoeffsClock8(i << 8);
  }

  lemma CoeffsLowByte(c: bv16)
    ensures Coeffs(c << 8) == ShiftN(Coeffs(c & 0xFF), 8)
  {
    ClockLowByte(c);
    CoeffsClock8(c & 0xFF);
  }

  lemma TableStepXor(c: bv16, b: byte, e: bv16, l: bv16)
    requires e == TableEntry(((c >> 8) ^ (b as bv16)) & 0xFF) && l == c << 8
    ensures TableStep(c, b) == e ^ l
  {
  }

  lemma SumCoeffs(a: bv16, b: bv16, c: bv16, d: bv16)
    requires a ^ b == c ^ d
    ensures Add(Coeffs(a), Coeffs(b)) == Add(Coeffs(c), Coeffs(d))
  {
    CoeffsXor(a, b);
    CoeffsXor(c, d);
  }

  lemma CoeffsXorIs(a: bv16, b: bv16, s: bv16)
    requires s == a ^ b
    ensures Coeffs(s) == Add(Coeffs(a), Coeffs(b))
  {
    CoeffsXor(a, b);
  }

  lemma TableStepAdds(c: bv16, b: byte, i: bv16)
    requires i == ((c >> 8) ^ (b as bv16)) & 0xFF
    ensures Coeffs(TableStep(c, b)) == Add(Coeffs(TableEntry(i)), Coeffs(c << 8))
  {
    TableStepXor(c, b, TableEntry(i), c << 8);
    CoeffsXorIs(TableEntry(i), c << 8, TableStep(c, b));
  }

  lemma {:induction false} TableStepShifts(c: bv16, b: byte, i: bv16, hi: Poly, lo: Poly)
    requires i == ((c >> 8) ^ (b as bv16)) & 0xFF && hi == Coeffs(i << 8) && lo == Coeffs(c & 0xFF)
    ensures Coeffs(TableStep(c, b)) == Add(ShiftN(hi, 8), ShiftN(lo, 8))
  {
    TableStepAdds(c, b, i);
    CoeffsEntry(i);
    CoeffsLowByte(c);
  }

  lemma SplitSum(c: bv16, w: bv16, i: bv16, hi: bv16, lo: bv16, top: bv16)
    requires w < 256 && i == ((c >> 8) ^ w) & 0xFF
    requires hi == i << 8 && lo == c & 0xFF && top == w << 8
    ensures hi ^ lo == c ^ top
  {
    SplitRegister(c, w, i);
  }

  lemma SplitCoeffs(c: bv16, w: bv16, i: bv16, hi: bv16, lo: bv16, top: bv16)
    requires w < 256 && i == ((c >> 8) ^ w) & 0xFF
    requires hi == i << 8 && lo == c & 0xFF && top == w << 8
    ensures Add(Coeffs(hi), Coeffs(lo)) == Add(Coeffs(c), Coeffs(top))
  {
    SplitSum(c, w, i, hi, lo, top);
    SumCoeffs(hi, lo, c, top);
  }

  lemma ByteWord(b: byte)
    ensures (b as bv16) < 256
  {
  }

  lemma SplitByte(c: bv16, b: byte, w: bv16, i: bv16)
    requires w == b as bv16 && i == ((c >> 8) ^ w) & 0xFF
    ensures Add(Coeffs(i << 8), Coeffs(c & 0xFF)) == Add(Coeffs(c), Coeffs(w << 8))
  {
    ByteWord(b);
    SplitCoeffs(c, w, i, i << 8, c & 0xFF, w << 8);
  }

  lemma SplitByteCoeffs(c: bv16, b: byte, w: bv16, i: bv16)
    requires w == b as bv16 && i == ((c >> 8) ^ w) & 0xFF
    ensures Add(Coeffs(i << 8), Coeffs(c & 0xFF)) == Add(Coeffs(c), ByteBits(b) + Zeros(8))
  {
    SplitByte(c, b, w, i);
    CoeffsByte(b);
  }

  /** A lookup splits the register into a half that goes through the generator
      and a half that does not. */
  lemma TableStepParts(c: bv16, b: byte) returns (hi: Poly, lo: Poly)
    ensures |hi| == |lo| == 16
    ensures Coeffs(TableStep(c, b)) == Add(ShiftN(hi, 8), ShiftN(lo, 8))
    ensures Add(hi, lo) == Add(Coeffs(c), ByteBits(b) + Zeros(8))
  {
    var w := b as bv16;
    var i := ((c >> 8) ^ w) & 0xFF;
    hi, lo := Coeffs(i << 8), Coeffs(c & 0xFF);
    SplitByteCoeffs(c, b, w, i);
    TableStepShifts(c, b, i, Coeffs(i << 8), Coeffs(c & 0xFF));
  }

  /** One table lookup is eight steps of long division. */
  lemma TableStepDivides(c: bv16, b: byte)
    ensures Coeffs(TableStep(c, b)) == Divide(Coeffs(c), ByteBits(b))
  {
    var hi, lo := TableStepParts(c, b);
    ShiftNLinear(hi, lo, 8);
    DivideIsShift(Coeffs(c), ByteBits(b));
  }

  lemma {:induction false} RunDivides(c: bv16, data: bytes)
    ensures Coeffs(Run(c, data)) == Divide(Coeffs(c), Bits(data))
    decreases |data|
  {
    if data != [] {
      TableStepDivides(c, data[0]);
      RunDivides(TableStep(c, data[0]), data[1..]);
      DivideAppend(Coeffs(c), ByteBits(data[0]), Bits(data[1..]));
    }
  }

  lemma CoeffsZero()
    ensures Coeffs(0) == Zeros(16)
  {
    SameSixteen(Coeffs(0), Zeros(16));
  }

  /** The table-driven CRC is the remainder long division leaves. */
  lemma {:induction false} CrcIsRemainder(data: bytes)
    ensures Coeffs(Crc(data)) == Divide(Zeros(16), Bits(data))
  {
    CoeffsZero();
    RunDivides(0, data);
  }
}
