/** Configuration parameters: one value each, serialised by the parameter's kind. */
module ConfigParams {
  import opened Wrappers
  import opened Bytes
  import FloatCodec

  type Size = n: nat | n > 0 witness 1

  /** Param_Bool; Param_UInt8/16/32; Param_Int8/16/32; Param_Double16/32, a number
      rounded to a signed integer; Param_Double32_Auto. */
  datatype Kind = Boolean | Unsigned(width: Size) | Signed(width: Size) | Rounded(width: Size) | Auto

  datatype Value = NoValue | Bool(b: bool) | Int(i: int) | Real(r: real)

  datatype Error = ValueError | TypeError | AttributeError | IndexError

  function Width(k: Kind): nat {
    match k
    case Boolean => 1
    case Auto => 4
    case _ => k.width
  }

  /** The value as a number; True is 1 and False is 0. */
  function Number(v: Value): real
    requires v != NoValue
  {
    match v
    case Bool(b) => if b then 1.0 else 0.0
    case Int(i) => i as real
    case Real(r) => r
  }

  predicate Truthy(v: Value) {
    v != NoValue && Number(v) != 0.0
  }

  /** round(): to the nearest integer, halves to the even one. */
  function Round(x: real): int {
    var f := x.Floor;
    var d := x - f as real;
    if d < 0.5 || (d == 0.5 && f % 2 == 0) then f else f + 1
  }

  lemma RoundIsNearest(x: real)
    ensures -0.5 <= Round(x) as real - x <= 0.5
    ensures Round(x) as real - x == 0.5 || Round(x) as real - x == -0.5 ==> Round(x) % 2 == 0
    ensures Round(x) as real == x <==> x.Floor as real == x
  {
  }

  function Lowest(k: Kind): int {
    if k.Signed? || k.Rounded? then -(Span(k.width) / 2) else 0
  }

  function Highest(k: Kind): int {
    if k.Signed? || k.Rounded? then Span(k.width) / 2 - 1 else if k.Unsigned? then Span(k.width) - 1 else 0
  }

  predicate InRange(k: Kind, x: real) {
    Lowest(k) as real <= x <= Highest(k) as real
  }

  lemma InRangeFits(k: Kind, i: int)
    requires k.Signed? || k.Rounded?
    ensures InRange(k, i as real) <==> FitsSigned(k.width, i)
  {
    assert Span(k.width) == 256 * Span(k.width - 1);
  }

  function SignedBytes(k: Kind, i: int): bytes
    requires k.Signed? || k.Rounded?
    requires InRange(k, i as real)
  {
    InRangeFits(k, i);
    ToSigned(k.width, i)
  }

  function Whole(v: Value): int
    requires v.Bool? || v.Int?
  {
    match v
    case Bool(b) => if b then 1 else 0
    case Int(i) => i
  }

  /** Param_UInt8/16/32 and Param_Int8/16/32. */
  function SerialiseWhole(k: Kind, v: Value): Result<bytes, Error>
    requires k.Unsigned? || k.Signed?
  {
    if v == NoValue then Err(TypeError)
    else if !InRange(k, Number(v)) then Err(ValueError)
    else if v.Real? then Err(AttributeError)
    else if k.Unsigned? then Ok(ToBigEndian(k.width, Whole(v)))
    else Ok(SignedBytes(k, Whole(v)))
  }

  /** Param_Double16/32. */
  function SerialiseRounded(k: Kind, v: Value): Result<bytes, Error>
    requires k.Rounded?
  {
    if v == NoValue then Err(TypeError)
    else if InRange(k, Round(Number(v)) as real) then Ok(SignedBytes(k, Round(Number(v))))
    else Err(ValueError)
  }

  function SerialiseValue(k: Kind, v: Value): Result<bytes, Error> {
    match k
    case Boolean => Ok([if Truthy(v) then 1 else 0])
    case Unsigned(_) => SerialiseWhole(k, v)
    case Signed(_) => SerialiseWhole(k, v)
    case Rounded(_) => SerialiseRounded(k, v)
    case Auto => if v == NoValue then Err(TypeError) else Ok(ToBigEndian(4, FloatCodec.Serialise(Number(v))))
  }

  function DeserialiseValue(k: Kind, b: bytes): Result<Value, Error> {
    match k
    case Boolean => if |b| == 1 then Ok(Bool(b[0] != 0)) else Err(ValueError)
    case Unsigned(w) => if |b| == w then Ok(Int(FromBigEndian(b))) else Err(ValueError)
    case Signed(w) => if |b| == w then Ok(Int(FromSigned(b))) else Err(ValueError)
    case Rounded(w) => if |b| == w then Ok(Real(FromSigned(b) as real)) else Err(ValueError)
    case Auto => Ok(Real(FloatCodec.Deserialise(FromBigEndian(b))))
  }

  // ----- round trips ------------------------------------------------------------------

  /** What a value becomes in a parameter of this kind. */
  function Normalised(k: Kind, v: Value): Value {
    match k
    case Boolean => Bool(Truthy(v))
    case Unsigned(_) => if v.Bool? || v.Int? then Int(Whole(v)) else v
    case Signed(_) => if v.Bool? || v.Int? then Int(Whole(v)) else v
    case Rounded(_) => if v == NoValue then v else Real(Round(Number(v)) as real)
    case Auto => if v == NoValue then v else Real(FloatCodec.Deserialise(FloatCodec.Serialise(Number(v))))
  }

  lemma AutoWord(x: real)
    ensures FloatCodec.Serialise(x) < Span(4)
    ensures FromBigEndian(ToBigEndian(4, FloatCodec.Serialise(x))) == FloatCodec.Serialise(x)
  {
    var y := if FloatCodec.Abs(x) < FloatCodec.Tiny() then 0.0 else x;
    var (f, e) := FloatCodec.Frexp(y);
    if FloatCodec.Abs(f) >= 0.5 {
      FloatCodec.AssembledFields(f < 0.0, e + 126, FloatCodec.FractionBits(f));
    } else {
      FloatCodec.AssembledFields(f < 0.0, e, 0);
    }
    WordSpan();
    BigEndianRoundTrip(4, FloatCodec.Serialise(x));
  }

  lemma WordSpan()
    ensures Span(4) == 0x1_0000_0000
  {
    assert Span(1) == 256 && Span(2) == 65536 && Span(3) == 16777216;
  }

  /** Serialised bytes have the width of the kind and read back as the value
      normalised by the kind. */
  lemma ValueRoundTrip(k: Kind, v: Value)
    requires SerialiseValue(k, v).Ok?
    ensures var b := SerialiseValue(k, v).value;
      |b| == Width(k) && DeserialiseValue(k, b) == Ok(Normalised(k, v))
  {
    match k {
      case Boolean =>
      case Auto => AutoWord(Number(v));
      case Rounded(w) =>
        InRangeFits(k, Round(Number(v)));
        SignedRoundTrip(w, Round(Number(v)));
      case Signed(w) =>
        InRangeFits(k, Whole(v));
        SignedRoundTrip(w, Whole(v));
      case Unsigned(w) =>
        BigEndianRoundTrip(w, Whole(v));
    }
  }

  /** Which values are unchanged, apart from True, 1 and 1.0 being the same. */
  lemma NormalisedSameIff(k: Kind, v: Value)
    requires SerialiseValue(k, v).Ok? && v != NoValue
    ensures Number(Normalised(k, v)) == Number(v) <==>
      match k
      case Boolean => Number(v) == 0.0 || Number(v) == 1.0
      case Rounded(_) => Number(v).Floor as real == Number(v)
      case Auto =>
        var x := Number(v);
        x == 0.0 || (FloatCodec.Tiny() <= FloatCodec.Abs(x) < FloatCodec.Pow2(129) && FloatCodec.Has24Bits(x))
      case _ => true
  {
    if k.Rounded? {
      RoundIsNearest(Number(v));
    } else if k.Auto? {
      FloatCodec.NumberKeptIff(Number(v));
    }
  }

  /** Which values a kind takes: everything for a boolean, numbers in the range of the kind,
      whole ones where nothing is rounded. What rounds to a signed integer of the width runs
      from half below the least one to just under half above the greatest. */
  predicate Takes(k: Kind, v: Value) {
    match k
    case Boolean => true
    case Unsigned(w) => (v.Bool? || v.Int?) && 0.0 <= Number(v) < Span(w) as real
    case Signed(w) => (v.Bool? || v.Int?) && -(Span(w) as real) <= 2.0 * Number(v) < Span(w) as real
    case Rounded(w) => v != NoValue && -(Span(w) as real) - 1.0 <= 2.0 * Number(v) < Span(w) as real - 1.0
    case Auto => v != NoValue
  }

  lemma IntegerTakes(k: Kind, v: Value)
    requires k.Unsigned? || k.Signed?
    ensures SerialiseWhole(k, v).Ok? <==> Takes(k, v)
    ensures SerialiseWhole(k, v).Err? ==>
      SerialiseWhole(k, v).error
      == if v == NoValue then TypeError else if InRange(k, Number(v)) then AttributeError else ValueError
  {
    if v.Bool? || v.Int? {
      WholeInRange(k, v, Whole(v));
    }
  }

  lemma WholeInRange(k: Kind, v: Value, i: int)
    requires (k.Unsigned? || k.Signed?) && (v.Bool? || v.Int?) && i == Whole(v)
    ensures InRange(k, Number(v)) <==> Takes(k, v)
  {
    assert Number(v) == i as real;
    if k.Signed? {
      InRangeFits(k, i);
    } else {
      assert InRange(k, i as real) <==> 0 <= i <= Span(k.width) - 1;
    }
  }

  lemma RoundedTakes(k: Kind, v: Value)
    requires k.Rounded?
    ensures SerialiseRounded(k, v).Ok? <==> Takes(k, v)
    ensures SerialiseRounded(k, v).Err? ==>
      SerialiseRounded(k, v).error == if v == NoValue then TypeError else ValueError
  {
    SpanEven(k.width);
    if v != NoValue {
      RoundsInto(Number(v), Span(k.width) / 2);
    }
  }

  /** A value is serialised exactly when its kind takes it. A missing value is a TypeError, a
      number out of range a ValueError, and a fraction in range an AttributeError where
      nothing is rounded. */
  lemma SerialisesValueIff(k: Kind, v: Value)
    ensures SerialiseValue(k, v).Ok? <==> Takes(k, v)
    ensures SerialiseValue(k, v).Err? ==>
      SerialiseValue(k, v).error
      == if v == NoValue then TypeError else if !k.Rounded? && InRange(k, Number(v)) then AttributeError else ValueError
  {
    match k {
      case Unsigned(_) => IntegerTakes(k, v);
      case Signed(_) => IntegerTakes(k, v);
      case Rounded(_) => RoundedTakes(k, v);
      case _ =>
    }
  }

  lemma {:induction false} SpanEven(w: nat)
    requires w > 0
    ensures Span(w) / 2 * 2 == Span(w) && Span(w) / 2 % 2 == 0
  {
    var q := 64 * Span(w - 1);
    assert Span(w) == 4 * q;
  }

  /** Where a number is rounded into [-h, h - 1]. */
  lemma RoundsInto(x: real, h: int)
    requires h % 2 == 0
    ensures -h <= Round(x) <= h - 1 <==> -(2 * h) as real - 1.0 <= 2.0 * x < (2 * h) as real - 1.0
  {
    RoundIsNearest(x);
  }

  /** What the bytes say: 1 or 0 for a boolean, the number itself for the integer kinds, and
      one at most half away for the rounded kinds, the even one if there are two. */
  ghost predicate Says(k: Kind, v: Value, b: bytes) {
    match k
    case Boolean => b == [if v != NoValue && Number(v) != 0.0 then 1 else 0]
    case Unsigned(_) => v != NoValue && FromBigEndian(b) as real == Number(v)
    case Signed(_) => v != NoValue && FromSigned(b) as real == Number(v)
    case Rounded(_) =>
      && v != NoValue
      && var n := FromSigned(b);
      && -0.5 <= n as real - Number(v) <= 0.5
      && (n as real - Number(v) == 0.5 || n as real - Number(v) == -0.5 ==> n % 2 == 0)
    case Auto => v != NoValue && FromBigEndian(b) == FloatCodec.Serialise(Number(v))
  }

  lemma BytesSay(k: Kind, v: Value)
    requires SerialiseValue(k, v).Ok?
    ensures |SerialiseValue(k, v).value| == Width(k) && Says(k, v, SerialiseValue(k, v).value)
  {
    match k {
      case Boolean =>
      case Auto => AutoWord(Number(v));
      case Rounded(w) =>
        InRangeFits(k, Round(Number(v)));
        SignedRoundTrip(w, Round(Number(v)));
        RoundIsNearest(Number(v));
      case Signed(w) =>
        InRangeFits(k, Whole(v));
        SignedRoundTrip(w, Whole(v));
      case Unsigned(w) =>
        BigEndianRoundTrip(w, Whole(v));
    }
  }

  lemma FromSignedInverse(b: bytes)
    requires b != []
    ensures FitsSigned(|b|, FromSigned(b)) && ToSigned(|b|, FromSigned(b)) == b
  {
    BigEndianInverse(b);
  }

  /** Which bytes are written back unchanged: all of them, except a boolean that is
      not 0 or 1 and a float that is cut off as too small. */
  lemma {:induction false} BytesRoundTripIff(k: Kind, b: bytes)
    requires |b| == Width(k)
    ensures DeserialiseValue(k, b).Ok?
    ensures SerialiseValue(k, DeserialiseValue(k, b).value) == Ok(b) <==>
      match k
      case Boolean => b[0] <= 1
      case Auto => FromBigEndian(b) == 0
                || FloatCodec.Abs(FloatCodec.Deserialise(FromBigEndian(b))) >= FloatCodec.Tiny()
      case _ => true
  {
    if k.Boolean? {
      BooleanByte(b);
    } else if k.Auto? {
      AutoBytes(b);
    } else {
      IntegerBytes(k, b);
    }
  }

  lemma IntegerBytes(k: Kind, b: bytes)
    requires !k.Boolean? && !k.Auto? && |b| == Width(k)
    ensures DeserialiseValue(k, b).Ok? && SerialiseValue(k, DeserialiseValue(k, b).value) == Ok(b)
  {
    if k.Unsigned? {
      UnsignedBytes(k, b);
    } else if k.Signed? {
      SignedBytesBack(k, b);
    } else {
      RoundedBytes(k, b);
    }
  }

  lemma BooleanByte(b: bytes)
    requires |b| == 1
    ensures [if Truthy(Bool(b[0] != 0)) then 1 else 0] == b <==> b[0] <= 1
  {
    assert b == [b[0]];
  }

  lemma SignedBytesBack(k: Kind, b: bytes)
    requires k.Signed? && |b| == k.width
    ensures SerialiseWhole(k, Int(FromSigned(b))) == Ok(b)
  {
    FromSignedInverse(b);
    InRangeFits(k, FromSigned(b));
  }

  lemma {:induction false} UnsignedBytes(k: Kind, b: bytes)
    requires k.Unsigned? && |b| == k.width
    ensures SerialiseWhole(k, Int(FromBigEndian(b))) == Ok(b)
  {
    BigEndianInverse(b);
    assert FromBigEndian(b) <= Span(k.width) - 1;
  }

  lemma RoundedBytes(k: Kind, b: bytes)
    requires k.Rounded? && |b| == k.width
    ensures SerialiseRounded(k, Real(FromSigned(b) as real)) == Ok(b)
  {
    var i := FromSigned(b);
    FromSignedInverse(b);
    InRangeFits(k, i);
    RoundIsNearest(i as real);
    assert Round(i as real) == i;
  }

  lemma {:induction false} AutoBytes(b: bytes)
    requires |b| == 4
    ensures var w := FromBigEndian(b);
      ToBigEndian(4, FloatCodec.Serialise(FloatCodec.Deserialise(w))) == b <==>
      w == 0 || FloatCodec.Abs(FloatCodec.Deserialise(w)) >= FloatCodec.Tiny()
  {
    var w := FromBigEndian(b);
    WordSpan();
    FloatCodec.WordRoundTrip(w);
    BigEndianInverse(b);
    AutoWord(FloatCodec.Deserialise(w));
  }

  // ----- the parameter objects ------------------------------------------------------------

  /** What a parameter holds, as a value. */
  datatype Setting = Setting(name: string, kind: Kind, value: Value)

  class ConfigParam {
    const name: string
    const kind: Kind
    var value: Value

    constructor (name: string, kind: Kind)
      ensures this.name == name && this.kind == kind && value == NoValue
    {
      this.name, this.kind, value := name, kind, NoValue;
    }

    function Snapshot(): Setting
      reads this
    {
      Setting(name, kind, value)
    }

    method Deserialise(buffer: bytes) returns (error: Option<Error>)
      modifies this
      ensures match DeserialiseValue(kind, buffer)
              case Ok(v) => error == None && value == v
              case Err(e) => error == Some(e) && value == old(value)
    {
      match DeserialiseValue(kind, buffer) {
        case Ok(v) =>
          value := v;
          error := None;
        case Err(e) =>
          error := Some(e);
      }
    }

    function Serialise(): Result<bytes, Error>
      reads this
    {
      SerialiseValue(kind, value)
    }
  }
}
