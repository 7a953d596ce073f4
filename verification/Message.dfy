/**
  VESC messages: an id byte followed by fixed-width fields and at most one
  variable-length string, whose length is inferred from the size of the message.
*/
module Message {
  import opened Wrappers
  import opened Bytes

  /** struct format characters: B H I L, b h i, and the string field. */
  datatype Kind = Unsigned(width: nat) | Signed(width: nat) | Str

  datatype Field = Field(kind: Kind, scalar: Option<int>)

  datatype Value = Int(i: int) | Real(r: real) | Text(s: string) | Blob(b: bytes)

  datatype Error =
    | StructError | KeyError | AttributeError | TypeError | ValueError | IndexError | UnicodeError | UnboundLocalError

  /** A message class; at least one of the two field lists is there. */
  datatype MsgType = MsgType(send: Option<seq<Field>>, recv: Option<seq<Field>>)

  datatype Msg = Msg(id: byte, values: seq<Value>)

  type Registry = map<byte, MsgType>

  const FORWARD_CAN: byte := 34
  const BYTESTRING: int := -1

  // ----- struct.pack and struct.unpack_from ------------------------------------------

  /** Bytes a field takes, when the string field takes n. */
  function Width(k: Kind, n: nat): nat {
    if k.Str? then n else k.width
  }

  /** The 's' format: cut, or padded with zeros, to n bytes. */
  function Fit(b: bytes, n: nat): (r: bytes)
    ensures |r| == n
  {
    if |b| >= n then b[..n] else b + seq(n - |b|, _ => 0)
  }

  function PackOne(k: Kind, n: nat, v: Value): (r: Option<bytes>)
    ensures r.Some? ==> |r.value| == Width(k, n)
  {
    match (k, v)
    case (Unsigned(w), Int(i)) => if 0 <= i < Span(w) then Some(ToBigEndian(w, i)) else None
    case (Signed(w), Int(i)) => if FitsSigned(w, i) then Some(ToSigned(w, i)) else None
    case (Str, Blob(b)) => Some(Fit(b, n))
    case _ => None
  }

  function UnpackOne(k: Kind, b: bytes): Value {
    match k
    case Unsigned(_) => Int(FromBigEndian(b))
    case Signed(_) => Int(FromSigned(b))
    case Str => Blob(b)
  }

  lemma OneRoundTrip(k: Kind, n: nat, v: Value)
    requires PackOne(k, n, v).Some? && (k.Str? ==> |v.b| == n)
    ensures UnpackOne(k, PackOne(k, n, v).value) == v
  {
    match k {
      case Unsigned(w) => BigEndianRoundTrip(w, v.i);
      case Signed(w) => SignedRoundTrip(w, v.i);
      case Str =>
    }
  }

  function PackAll(fields: seq<Field>, n: nat, vals: seq<Value>): Option<bytes> {
    if |fields| != |vals| then None
    else if fields == [] then Some([])
    else
      match (PackOne(fields[0].kind, n, vals[0]), PackAll(fields[1..], n, vals[1..]))
      case (Some(b), Some(rest)) => Some(b + rest)
      case _ => None
  }

  function UnpackAll(fields: seq<Field>, n: nat, b: bytes): (r: Option<seq<Value>>)
    ensures r.Some? ==> |r.value| == |fields|
  {
    if fields == [] then Some([])
    else
      var w := Width(fields[0].kind, n);
      if |b| < w then None
      else
        match UnpackAll(fields[1..], n, b[w..])
        case Some(rest) => Some([UnpackOne(fields[0].kind, b[..w])] + rest)
        case None => None
  }

  /** struct.calcsize without the string. */
  function CalcSize(fields: seq<Field>): nat {
    if fields == [] then 0 else Width(fields[0].kind, 0) + CalcSize(fields[1..])
  }

  function StringCount(fields: seq<Field>): nat {
    if fields == [] then 0 else (if fields[0].kind.Str? then 1 else 0) + StringCount(fields[1..])
  }

  /** Every string among the values is n bytes long. */
  predicate StringsAre(n: nat, vals: seq<Value>) {
    forall k :: 0 <= k < |vals| && vals[k].Blob? ==> |vals[k].b| == n
  }

  lemma {:induction false} UnpackCons(fields: seq<Field>, n: nat, b: bytes, rest: bytes)
    requires fields != [] && |b| == Width(fields[0].kind, n) && UnpackAll(fields[1..], n, rest).Some?
    ensures UnpackAll(fields, n, b + rest)
         == Some([UnpackOne(fields[0].kind, b)] + UnpackAll(fields[1..], n, rest).value)
  {
    assert (b + rest)[..|b|] == b && (b + rest)[|b|..] == rest;
  }

  lemma {:induction false} AllRoundTrip(fields: seq<Field>, n: nat, vals: seq<Value>, tail: bytes)
    requires PackAll(fields, n, vals).Some? && StringsAre(n, vals)
    ensures UnpackAll(fields, n, PackAll(fields, n, vals).value + tail) == Some(vals)
    decreases |fields|
  {
    if fields == [] {
    } else {
      var b, rest := PackOne(fields[0].kind, n, vals[0]).value, PackAll(fields[1..], n, vals[1..]).value;
      OneRoundTrip(fields[0].kind, n, vals[0]);
      assert forall k :: 0 <= k < |vals| - 1 ==> vals[1..][k] == vals[k + 1];
      AllRoundTrip(fields[1..], n, vals[1..], tail);
      UnpackCons(fields, n, b, rest + tail);
      assert PackAll(fields, n, vals) == Some(b + rest);
      assert b + rest + tail == b + (rest + tail);
      assert vals == [vals[0]] + vals[1..];
    }
  }

  /** At most one string: the packed size is the fixed size plus its length. */
  lemma {:induction false} PackedSize(fields: seq<Field>, n: nat, vals: seq<Value>)
    requires PackAll(fields, n, vals).Some? && StringCount(fields) <= 1
    ensures |PackAll(fields, n, vals).value| == CalcSize(fields) + if StringCount(fields) == 1 then n else 0
    decreases |fields|
  {
    if fields != [] {
      PackedSize(fields[1..], n, vals[1..]);
    }
  }

  // ----- scalars -----------------------------------------------------------------------

  /** The scalars of the fields that have one, in order; the class keeps them in a
      list of their own. */
  function Scalars(fields: seq<Field>): (s: seq<int>)
    ensures |s| <= |fields|
    ensures |s| == |fields| <==> forall k :: 0 <= k < |fields| ==> fields[k].scalar.Some?
    ensures |s| == |fields| ==> forall k :: 0 <= k < |fields| ==> s[k] == fields[k].scalar.value
  {
    if fields == [] then []
    else (if fields[0].scalar.Some? then [fields[0].scalar.value] else []) + Scalars(fields[1..])
  }

  /** int(): truncation toward zero. */
  function Truncate(x: real): int {
    if x >= 0.0 then x.Floor else -((-x).Floor)
  }

  predicate IsNumber(v: Value) {
    v.Int? || v.Real?
  }

  function Number(v: Value): real
    requires IsNumber(v)
  {
    if v.Int? then v.i as real else v.r
  }

  function ScaleUp(x: real, s: int): int {
    Truncate(x * s as real)
  }

  function ScaleDown(i: int, s: int): real
    requires s != 0
  {
    i as real / s as real
  }

  function Scaled(v: Value, s: int): Option<Value> {
    if IsNumber(v) then Some(Int(ScaleUp(Number(v), s))) else None
  }

  function Divided(v: Value, s: int): Value {
    if s != 0 && v.Int? then Real(ScaleDown(v.i, s)) else v
  }

  // ----- what pack computes ---------------------------------------------------------------

  /** The string field, the last one if there were several. */
  function StringField(fields: seq<Field>): (r: Option<nat>)
    ensures r.None? <==> StringCount(fields) == 0
    ensures r.Some? ==> r.value < |fields| && fields[r.value].kind.Str?
    ensures r.Some? && StringCount(fields) == 1 ==>
      forall k :: 0 <= k < |fields| && fields[k].kind.Str? ==> k == r.value
    ensures r.None? ==> forall k :: 0 <= k < |fields| ==> !fields[k].kind.Str?
  {
    if fields == [] then None
    else
      match StringField(fields[1..])
      case Some(k) => Some(k + 1)
      case None => if fields[0].kind.Str? then Some(0) else None
  }

  /** The values of the first n scaled fields, ready for struct.pack. */
  function FieldValues(fields: seq<Field>, values: seq<Value>, n: nat): (r: Option<seq<Value>>)
    requires |values| == |fields| && n <= |Scalars(fields)|
    ensures r.Some? ==> |r.value| == n
  {
    if n == 0 then Some([])
    else
      match FieldValues(fields, values, n - 1)
      case None => None
      case Some(before) =>
        if fields[n - 1].kind.Str? then Some(before + [values[n - 1]])
        else
          match Scaled(values[n - 1], Scalars(fields)[n - 1])
          case Some(v) => Some(before + [v])
          case None => None
  }

  function AllFieldValues(fields: seq<Field>, values: seq<Value>): (r: Option<seq<Value>>)
    requires |values| == |fields|
  {
    if Scalars(fields) == [] then Some(values) else FieldValues(fields, values, |Scalars(fields)|)
  }

  predicate IsAscii(s: string) {
    forall i :: 0 <= i < |s| ==> s[i] as int < 128
  }

  function EncodeAscii(s: string): (b: bytes)
    requires IsAscii(s)
    ensures |b| == |s|
  {
    seq(|s|, i requires 0 <= i < |s| => s[i] as int)
  }

  function DecodeAscii(b: bytes): (s: string)
    requires forall i :: 0 <= i < |b| ==> b[i] < 128
    ensures |s| == |b|
  {
    seq(|b|, i requires 0 <= i < |b| => b[i] as char)
  }

  lemma AsciiRoundTrip(s: string)
    requires IsAscii(s)
    ensures var b := EncodeAscii(s); (forall i :: 0 <= i < |b| ==> b[i] < 128) && DecodeAscii(b) == s
  {
  }

  predicate AsBytestring(fields: seq<Field>, k: nat) {
    k < |Scalars(fields)| && Scalars(fields)[k] == BYTESTRING
  }

  /** The string field in bytes: ASCII, unless its scalar says it is bytes already. */
  function StringBytes(v: Value, asBytestring: bool): Result<Value, Error> {
    if asBytestring then Ok(v)
    else if !v.Text? then Err(AttributeError)
    else if !IsAscii(v.s) then Err(UnicodeError)
    else Ok(Blob(EncodeAscii(v.s)))
  }

  /** The id byte, behind the forwarding prefix if there is a CAN id. */
  function Prefix(id: byte, canId: Option<int>): Result<bytes, Error> {
    match canId
    case None => Ok([id])
    case Some(c) => if 0 <= c < 256 then Ok([FORWARD_CAN, c as byte, id]) else Err(StructError)
  }

  function Assemble(id: byte, canId: Option<int>, body: Option<bytes>): Result<bytes, Error> {
    match (Prefix(id, canId), body)
    case (Ok(prefix), Some(b)) => Ok(prefix + b)
    case _ => Err(StructError)
  }

  /** pack of a message with a string field at sf. */
  function PackedWithString(id: byte, fields: seq<Field>, values: seq<Value>, sf: nat, fieldValues: seq<Value>,
                            canId: Option<int>): Result<bytes, Error>
    requires sf < |values|
  {
    if IsNumber(values[sf]) then Err(TypeError)
    else if sf >= |fieldValues| then Err(IndexError)
    else
      match StringBytes(fieldValues[sf], AsBytestring(fields, sf))
      case Err(e) => Err(e)
      case Ok(v) =>
        if canId.Some? then Err(UnboundLocalError)
        else if StringCount(fields) > 1 then Err(TypeError)
        else Assemble(id, None, PackAll(fields, StringLength(values[sf]), fieldValues[sf := v]))
  }

  function StringLength(v: Value): nat
    requires !IsNumber(v)
  {
    if v.Text? then |v.s| else |v.b|
  }

  function Packed(id: byte, fields: seq<Field>, values: seq<Value>, canId: Option<int>): Result<bytes, Error>
    requires |values| == |fields|
  {
    match AllFieldValues(fields, values)
    case None => Err(TypeError)
    case Some(fieldValues) =>
      match StringField(fields)
      case None => Assemble(id, canId, PackAll(fields, 0, fieldValues))
      case Some(sf) => PackedWithString(id, fields, values, sf, fieldValues, canId)
  }

  /** VESCMessage.pack. */
  method Pack(id: byte, fields: seq<Field>, values: seq<Value>, canId: Option<int>) returns (r: Result<bytes, Error>)
    requires |values| == |fields|
    ensures r == Packed(id, fields, values, canId)
  {
    var scalars := Scalars(fields);
    var fieldValues: seq<Value> := [];
    if scalars == [] {
      for index := 0 to |values|
        invariant fieldValues == values[..index]
      {
        fieldValues := fieldValues + [values[index]];
      }
    } else {
      for index := 0 to |scalars|
        invariant FieldValues(fields, values, index) == Some(fieldValues)
      {
        if fields[index].kind.Str? {
          fieldValues := fieldValues + [values[index]];
        } else {
          match Scaled(values[index], scalars[index]) {
            case Some(v) =>
              fieldValues := fieldValues + [v];
            case None =>
              FieldValuesPrefix(fields, values, index + 1, |scalars|);
              return Err(TypeError);
          }
        }
      }
    }
    assert values[..|values|] == values;
    match StringField(fields) {
      case None =>
        r := Assemble(id, canId, PackAll(fields, 0, fieldValues));
      case Some(sf) =>
        r := PackedWithString(id, fields, values, sf, fieldValues, canId);
    }
  }

  lemma {:induction false} FieldValuesPrefix(fields: seq<Field>, values: seq<Value>, m: nat, n: nat)
    requires |values| == |fields| && m <= n <= |Scalars(fields)|
    ensures FieldValues(fields, values, n).Some? ==>
      && FieldValues(fields, values, m).Some?
      && FieldValues(fields, values, n).value[..m] == FieldValues(fields, values, m).value
    decreases n
  {
    if m < n {
      FieldValuesPrefix(fields, values, m, n - 1);
    }
  }

  /** pack(header_only=True): what asks for a getter message. */
  function PackedHeader(id: byte, canId: Option<int>): Result<bytes, Error> {
    Prefix(id, canId)
  }

  // ----- what unpack computes ----------------------------------------------------------------

  function Chosen(t: MsgType, sendFields: bool): Option<seq<Field>> {
    if sendFields || t.recv.None? then t.send else t.recv
  }

  /** Data with the scalars of the first n fields taken out again. */
  function DividedFields(data: seq<Value>, scalars: seq<int>, n: nat): (r: seq<Value>)
    requires n <= |data|
    ensures |r| == |data|
  {
    seq(|data|, k requires 0 <= k < |data| => if k < n && k < |scalars| then Divided(data[k], scalars[k]) else data[k])
  }

  function DecodeString(data: seq<Value>, sf: nat, asBytestring: bool): Result<seq<Value>, Error>
    requires sf < |data| && data[sf].Blob?
  {
    var b := data[sf].b;
    if asBytestring then Ok(data)
    else if forall i :: 0 <= i < |b| ==> b[i] < 128 then
      Ok(data[sf := Text(DecodeAscii(b))])
    else Err(UnicodeError)
  }

  /** Data of a message with a string field at sf. */
  function UnpackedWithString(fields: seq<Field>, sf: nat, body: bytes): Result<seq<Value>, Error>
    requires StringField(fields) == Some(sf)
  {
    var n := |body| - CalcSize(fields);
    if StringCount(fields) > 1 then Err(TypeError)
    else if n < 0 then Err(StructError)
    else
      match UnpackAll(fields, n, body)
      case None => Err(StructError)
      case Some(data) =>
        StringStays(fields, n, body, sf);
        if Scalars(fields) != [] && sf >= |Scalars(fields)| then Err(IndexError)
        else DecodeString(data, sf, AsBytestring(fields, sf))
  }

  lemma {:induction false} StringStays(fields: seq<Field>, n: nat, b: bytes, k: nat)
    requires UnpackAll(fields, n, b).Some? && k < |fields| && fields[k].kind.Str?
    ensures UnpackAll(fields, n, b).value[k].Blob?
    decreases |fields|
  {
    if k > 0 {
      StringStays(fields[1..], n, b[Width(fields[0].kind, n)..], k - 1);
    }
  }

  function UnpackedFields(fields: seq<Field>, body: bytes): Result<seq<Value>, Error> {
    match StringField(fields)
    case None =>
      (match UnpackAll(fields, 0, body)
       case None => Err(StructError)
       case Some(data) => Ok(DividedFields(data, Scalars(fields), |data|)))
    case Some(sf) => UnpackedWithString(fields, sf, body)
  }

  function Unpacked(registry: Registry, b: bytes, sendFields: bool): Result<Msg, Error> {
    if b == [] then Err(StructError)
    else if b[0] !in registry then Err(KeyError)
    else
      match Chosen(registry[b[0]], sendFields)
      case None => Err(AttributeError)
      case Some(fields) =>
        match UnpackedFields(fields, b[1..])
        case Ok(values) => Ok(Msg(b[0], values))
        case Err(e) => Err(e)
  }

  /** VESCMessage.unpack. */
  method Unpack(registry: Registry, b: bytes, sendFields: bool) returns (r: Result<Msg, Error>)
    ensures r == Unpacked(registry, b, sendFields)
  {
    if b == [] {
      return Err(StructError);
    }
    if b[0] !in registry {
      return Err(KeyError);
    }
    match Chosen(registry[b[0]], sendFields) {
      case None => return Err(AttributeError);
      case Some(fields) =>
        match StringField(fields) {
          case Some(sf) =>
            match UnpackedWithString(fields, sf, b[1..]) {
              case Ok(values) => r := Ok(Msg(b[0], values));
              case Err(e) => r := Err(e);
            }
          case None =>
            match UnpackAll(fields, 0, b[1..]) {
              case None => return Err(StructError);
              case Some(start) =>
                var data, scalars := start, Scalars(fields);
                for k := 0 to |data|
                  invariant |data| == |start| && data == DividedFields(start, scalars, k)
                {
                  if k < |scalars| && scalars[k] != 0 && data[k].Int? {
                    data := data[k := Real(ScaleDown(data[k].i, scalars[k]))];
                  }
                }
                r := Ok(Msg(b[0], data));
            }
        }
    }
  }

  // ----- the round trip --------------------------------------------------------------------------

  /** Equal as Python sees it: 5 == 5.0. */
  predicate Same(a: Value, b: Value) {
    if IsNumber(a) && IsNumber(b) then Number(a) == Number(b) else a == b
  }

  predicate IsWhole(x: real) {
    x == x.Floor as real
  }

  /** Whether the number x survives being scaled by s and truncated. */
  predicate NumberRestorable(hasString: bool, s: int, x: real) {
    if !hasString && s != 0 then IsWhole(x * s as real)
    else if s == 1 then IsWhole(x)
    else x == 0.0
  }

  /** A field whose value survives packing and unpacking. Packing scales every
      number and truncates it; unpacking takes the scalar out again, but not when
      the scalar is 0, and never in a message that has a string field. */
  predicate Restorable(fields: seq<Field>, k: nat, v: Value)
    requires k < |fields|
  {
    || fields[k].kind.Str?
    || Scalars(fields) == []
    || (k < |Scalars(fields)| && IsNumber(v)
        && NumberRestorable(StringCount(fields) > 0, Scalars(fields)[k], Number(v)))
  }

  /** What goes on the wire for field k. */
  function WireValue(fields: seq<Field>, k: nat, v: Value): Value
    requires k < |fields|
  {
    if fields[k].kind.Str? then
      if !AsBytestring(fields, k) && v.Text? && IsAscii(v.s) then Blob(EncodeAscii(v.s)) else v
    else if k < |Scalars(fields)| && IsNumber(v) then Int(ScaleUp(Number(v), Scalars(fields)[k]))
    else v
  }

  lemma {:induction false} FieldValuesAre(fields: seq<Field>, values: seq<Value>, n: nat, k: nat)
    requires |values| == |fields| && k < n <= |Scalars(fields)| && FieldValues(fields, values, n).Some?
    ensures var v := FieldValues(fields, values, n).value[k];
      if fields[k].kind.Str? then v == values[k]
      else Scaled(values[k], Scalars(fields)[k]) == Some(v)
    decreases n
  {
    if k < n - 1 {
      FieldValuesAre(fields, values, n - 1, k);
    }
  }

  lemma {:induction false} PackAllSizes(fields: seq<Field>, n: nat, vals: seq<Value>)
    requires PackAll(fields, n, vals).Some?
    ensures |fields| == |vals|
  {
  }

  /** struct.pack takes one value for each field: a message with scalars for only
      some of its fields cannot be packed. */
  lemma {:induction false} AllFieldValuesAre(fields: seq<Field>, values: seq<Value>)
    requires |values| == |fields|
    ensures var r := AllFieldValues(fields, values);
      r.Some? && |r.value| == |fields| ==>
        && (Scalars(fields) == [] || |Scalars(fields)| == |fields|)
        && forall k :: 0 <= k < |fields| ==>
             r.value[k] == if fields[k].kind.Str? then values[k] else WireValue(fields, k, values[k])
  {
    var n := |Scalars(fields)|;
    if n == |fields| && n > 0 && FieldValues(fields, values, n).Some? {
      forall k | 0 <= k < n
        ensures FieldValues(fields, values, n).value[k]
             == if fields[k].kind.Str? then values[k] else WireValue(fields, k, values[k])
      {
        FieldValuesAre(fields, values, n, k);
      }
    }
  }

  ghost predicate Wired(fields: seq<Field>, values: seq<Value>, vals: seq<Value>)
    requires |values| == |fields|
  {
    && |vals| == |fields|
    && (Scalars(fields) == [] || |Scalars(fields)| == |fields|)
    && forall k :: 0 <= k < |fields| ==> vals[k] == WireValue(fields, k, values[k])
  }

  lemma PackedPlain(id: byte, fields: seq<Field>, values: seq<Value>, b: bytes) returns (vals: seq<Value>)
    requires |values| == |fields| && StringField(fields) == None && Packed(id, fields, values, None) == Ok(b)
    ensures PackAll(fields, 0, vals).Some? && b == [id] + PackAll(fields, 0, vals).value
    ensures Wired(fields, values, vals)
  {
    vals := AllFieldValues(fields, values).value;
    PackAllSizes(fields, 0, vals);
    AllFieldValuesAre(fields, values);
  }

  lemma PackedString(id: byte, fields: seq<Field>, values: seq<Value>, sf: nat, b: bytes)
      returns (vals: seq<Value>, n: nat)
    requires |values| == |fields| && StringField(fields) == Some(sf) && Packed(id, fields, values, None) == Ok(b)
    ensures PackAll(fields, n, vals).Some? && b == [id] + PackAll(fields, n, vals).value
    ensures Wired(fields, values, vals)
    ensures StringCount(fields) == 1 && vals[sf].Blob? && |vals[sf].b| == n
    ensures AsBytestring(fields, sf) || (values[sf].Text? && IsAscii(values[sf].s))
  {
    var fieldValues := AllFieldValues(fields, values).value;
    var v := StringBytes(fieldValues[sf], AsBytestring(fields, sf)).value;
    vals, n := fieldValues[sf := v], StringLength(values[sf]);
    PackAllSizes(fields, n, vals);
    AllFieldValuesAre(fields, values);
    PackedBlob(fields, n, vals, sf);
  }

  lemma {:induction false} PackedBlob(fields: seq<Field>, n: nat, vals: seq<Value>, k: nat)
    requires PackAll(fields, n, vals).Some? && k < |fields|
    ensures |vals| == |fields| && (fields[k].kind.Str? <==> vals[k].Blob?)
    ensures !fields[k].kind.Str? ==> vals[k].Int?
    decreases |fields|
  {
    if k > 0 {
      PackedBlob(fields[1..], n, vals[1..], k - 1);
    }
  }

  lemma TruncateWhole(x: real)
    ensures Truncate(x) as real == x <==> IsWhole(x)
    ensures IsWhole(-x) <==> IsWhole(x)
  {
    if IsWhole(x) {
      var n := x.Floor;
      assert -x == (-n) as real;
    }
    if IsWhole(-x) {
      var n := (-x).Floor;
      assert x == (-n) as real;
    }
  }

  /** Scaling up, truncating and scaling down again. */
  lemma DivideBack(x: real, s: int)
    requires s != 0
    ensures Truncate(x * s as real) as real / s as real == x <==> IsWhole(x * s as real)
  {
    TruncateWhole(x * s as real);
    QuotientIs(x, s as real, Truncate(x * s as real) as real);
  }

  lemma QuotientIs(x: real, q: real, t: real)
    requires q != 0.0
    ensures t / q == x <==> t == x * q
  {
    assert t / q * q == t;
  }

  /** Scaling up and truncating, never undone. */
  lemma ScaledOnly(x: real, s: int)
    ensures Truncate(x * s as real) as real == x <==> (if s == 1 then IsWhole(x) else x == 0.0)
  {
    TruncateWhole(x * s as real);
    if s == 1 {
      assert x * s as real == x;
    } else if x == 0.0 {
      assert x * s as real == 0.0;
    } else {
      var t := Truncate(x * s as real);
      if t as real == x {
        assert x * s as real == (t * s) as real;
        assert t * s == t;
        TimesItself(t, s);
      }
    }
  }

  lemma NumberRestored(hasString: bool, s: int, x: real)
    ensures (if !hasString && s != 0 then ScaleDown(ScaleUp(x, s), s) else ScaleUp(x, s) as real) == x
       <==> NumberRestorable(hasString, s, x)
  {
    if !hasString && s != 0 {
      DivideBack(x, s);
    } else {
      ScaledOnly(x, s);
    }
  }

  lemma TimesItself(t: int, s: int)
    requires t * s == t && s != 1
    ensures t == 0
  {
    assert t * (s - 1) == 0;
  }

  /** Unpacking gives the id back, and field k unchanged exactly when it is
      restorable; a string is always restored, whatever its length and position. */
  lemma RoundTrip(registry: Registry, id: byte, fields: seq<Field>, values: seq<Value>, sendFields: bool, b: bytes)
    requires |values| == |fields| && id in registry && Chosen(registry[id], sendFields) == Some(fields)
    requires Packed(id, fields, values, None) == Ok(b)
    ensures var r := Unpacked(registry, b, sendFields);
      && r.Ok? && r.value.id == id && |r.value.values| == |fields|
      && forall k :: 0 <= k < |fields| ==>
           (Same(r.value.values[k], values[k]) <==> Restorable(fields, k, values[k]))
  {
    match StringField(fields) {
      case None =>
        var vals := PackedPlain(id, fields, values, b);
        PlainRoundTrip(fields, values, vals, b[1..]);
      case Some(sf) =>
        var vals, n := PackedString(id, fields, values, sf, b);
        StringRoundTrip(fields, values, vals, sf, n, b[1..]);
    }
  }

  /** t is y cut off at the decimal point: between 0 and y, less than one away. */
  predicate CutOff(t: int, y: real) {
    if y >= 0.0 then 0.0 <= t as real <= y < (t + 1) as real else (t - 1) as real < y <= t as real <= 0.0
  }

  /** Where field k starts in the body, when the string field takes n bytes. */
  function OffsetOf(fields: seq<Field>, n: nat, k: nat): nat
    requires k <= |fields|
  {
    if k == 0 then 0 else OffsetOf(fields, n, k - 1) + Width(fields[k - 1].kind, n)
  }

  lemma {:induction false} OffsetCons(fields: seq<Field>, n: nat, k: nat)
    requires 0 < k <= |fields|
    ensures OffsetOf(fields, n, k) == Width(fields[0].kind, n) + OffsetOf(fields[1..], n, k - 1)
    decreases k
  {
    if k > 1 {
      OffsetCons(fields, n, k - 1);
    }
  }

  lemma {:induction false} OffsetsGrow(fields: seq<Field>, n: nat, j: nat, k: nat)
    requires j <= k <= |fields|
    ensures OffsetOf(fields, n, j) <= OffsetOf(fields, n, k)
    decreases k
  {
    if j < k {
      OffsetsGrow(fields, n, j, k - 1);
    }
  }

  lemma {:induction false} SizeIsOffset(fields: seq<Field>, n: nat)
    requires StringCount(fields) <= 1
    ensures OffsetOf(fields, n, |fields|) == CalcSize(fields) + if StringCount(fields) == 1 then n else 0
    decreases |fields|
  {
    if fields != [] {
      SizeIsOffset(fields[1..], n);
      OffsetCons(fields, n, |fields|);
    }
  }

  /** The bytes of field k. */
  function FieldBytes(fields: seq<Field>, n: nat, k: nat, body: bytes): (piece: bytes)
    requires k < |fields| && OffsetOf(fields, n, k + 1) <= |body|
    ensures |piece| == Width(fields[k].kind, n)
  {
    body[OffsetOf(fields, n, k)..OffsetOf(fields, n, k + 1)]
  }

  lemma SliceShift(a: bytes, b: bytes, i: nat, j: nat)
    requires i <= j <= |b|
    ensures (a + b)[|a| + i..|a| + j] == b[i..j]
  {
  }

  /** The packed fields lie one behind the other. */
  lemma {:induction false} FieldsInOrder(fields: seq<Field>, n: nat, vals: seq<Value>, k: nat)
    requires PackAll(fields, n, vals).Some? && k < |fields|
    ensures |PackAll(fields, n, vals).value| == OffsetOf(fields, n, |fields|) >= OffsetOf(fields, n, k + 1)
    ensures PackOne(fields[k].kind, n, vals[k]) == Some(FieldBytes(fields, n, k, PackAll(fields, n, vals).value))
    decreases |fields|
  {
    var b, rest := PackOne(fields[0].kind, n, vals[0]).value, PackAll(fields[1..], n, vals[1..]).value;
    assert PackAll(fields, n, vals) == Some(b + rest);
    if |fields| > 1 {
      FieldsInOrder(fields[1..], n, vals[1..], if k > 0 then k - 1 else 0);
    }
    OffsetCons(fields, n, |fields|);
    OffsetsGrow(fields, n, k + 1, |fields|);
    OffsetCons(fields, n, k + 1);
    if k > 0 {
      OffsetCons(fields, n, k);
      SliceShift(b, rest, OffsetOf(fields[1..], n, k - 1), OffsetOf(fields[1..], n, k));
    } else {
      assert (b + rest)[..|b|] == b;
    }
  }

  /** The number in the bytes of a field. */
  function NumberIn(k: Kind, piece: bytes): int {
    if k.Signed? then FromSigned(piece) else FromBigEndian(piece)
  }

  /** What the bytes of a field say: a string in ASCII, or as it is; a number as it is
      without scalars, and otherwise times the scalar, cut off. */
  ghost predicate Says(f: Field, scaled: bool, v: Value, piece: bytes) {
    if f.kind.Str? then
      if v.Blob? then piece == v.b
      else v.Text? && |piece| == |v.s| && forall i :: 0 <= i < |piece| ==> piece[i] == v.s[i] as int
    else if scaled then
      f.scalar.Some? && IsNumber(v) && CutOff(NumberIn(f.kind, piece), Number(v) * f.scalar.value as real)
    else v == Int(NumberIn(f.kind, piece))
  }

  lemma {:induction false} FieldSays(fields: seq<Field>, n: nat, k: nat, v: Value, wire: Value, piece: bytes)
    requires k < |fields| && wire == WireValue(fields, k, v) && PackOne(fields[k].kind, n, wire) == Some(piece)
    requires Scalars(fields) == [] || |Scalars(fields)| == |fields|
    requires StringWired(fields[k], n, v, wire)
    ensures Says(fields[k], Scalars(fields) != [], v, piece)
  {
    match fields[k].kind {
      case Str =>
      case _ =>
        OneRoundTrip(fields[k].kind, n, wire);
        NumberSays(fields, k, v, wire.i);
        assert NumberIn(fields[k].kind, piece) == wire.i;
    }
  }

  lemma {:induction false} NumberSays(fields: seq<Field>, k: nat, v: Value, i: int)
    requires k < |fields| && !fields[k].kind.Str? && Int(i) == WireValue(fields, k, v)
    requires Scalars(fields) == [] || |Scalars(fields)| == |fields|
    ensures if Scalars(fields) == [] then v == Int(i)
            else fields[k].scalar.Some? && IsNumber(v) && CutOff(i, Number(v) * fields[k].scalar.value as real)
  {
  }

  /** How many bytes the string field takes of this body; 0 without one. */
  function StringRoom(fields: seq<Field>, body: bytes): int {
    if StringCount(fields) == 1 then |body| - CalcSize(fields) else 0
  }

  /** The wire value of a string field, in a message whose string takes n bytes. */
  predicate StringWired(f: Field, n: nat, v: Value, wire: Value) {
    f.kind.Str? ==> wire.Blob? && |wire.b| == n && (wire == v || (v.Text? && IsAscii(v.s)))
  }

  lemma {:induction false} OneFieldSays(fields: seq<Field>, values: seq<Value>, vals: seq<Value>, n: nat, body: bytes,
                                        k: nat)
    requires |values| == |fields| && Wired(fields, values, vals) && k < |fields|
    requires PackAll(fields, n, vals) == Some(body) && StringWired(fields[k], n, values[k], vals[k])
    ensures SaysAt(fields, values, n, body, k)
  {
    FieldsInOrder(fields, n, vals, k);
    FieldSays(fields, n, k, values[k], vals[k], FieldBytes(fields, n, k, body));
  }

  lemma WireValues(id: byte, fields: seq<Field>, values: seq<Value>, b: bytes)
      returns (vals: seq<Value>, n: nat, body: bytes)
    requires |values| == |fields| && Packed(id, fields, values, None) == Ok(b)
    ensures b == [id] + body && PackAll(fields, n, vals) == Some(body) && Wired(fields, values, vals)
    ensures StringCount(fields) <= 1 && (StringCount(fields) == 0 ==> n == 0)
    ensures forall k :: 0 <= k < |fields| ==> StringWired(fields[k], n, values[k], vals[k])
  {
    match StringField(fields) {
      case None =>
        vals := PackedPlain(id, fields, values, b);
        n := 0;
      case Some(sf) =>
        vals, n := PackedString(id, fields, values, sf, b);
        assert vals[sf] == WireValue(fields, sf, values[sf]);
    }
    body := PackAll(fields, n, vals).value;
  }

  /** Every field of the body says its value, and there is nothing else. */
  ghost predicate AllSay(fields: seq<Field>, values: seq<Value>, n: int, body: bytes) {
    && n >= 0 && |values| == |fields| && |body| == OffsetOf(fields, n, |fields|)
    && forall k :: 0 <= k < |fields| ==> SaysAt(fields, values, n, body, k)
  }

  ghost predicate SaysAt(fields: seq<Field>, values: seq<Value>, n: nat, body: bytes, k: nat)
    requires k < |fields| == |values|
  {
    && OffsetOf(fields, n, k + 1) <= |body|
    && Says(fields[k], Scalars(fields) != [], values[k], FieldBytes(fields, n, k, body))
  }

  lemma {:induction false} BodySize(fields: seq<Field>, vals: seq<Value>, n: nat, body: bytes)
    requires PackAll(fields, n, vals) == Some(body) && StringCount(fields) <= 1 && (StringCount(fields) == 0 ==> n == 0)
    ensures StringRoom(fields, body) == n && |body| == OffsetOf(fields, n, |fields|)
  {
    PackedSize(fields, n, vals);
    SizeIsOffset(fields, n);
  }

  lemma {:induction false} BodySays(fields: seq<Field>, values: seq<Value>, vals: seq<Value>, n: nat, body: bytes)
    requires |values| == |fields| && Wired(fields, values, vals) && PackAll(fields, n, vals) == Some(body)
    requires |body| == OffsetOf(fields, n, |fields|)
    requires forall k :: 0 <= k < |fields| ==> StringWired(fields[k], n, values[k], vals[k])
    ensures AllSay(fields, values, n, body)
  {
    forall k | 0 <= k < |fields|
      ensures SaysAt(fields, values, n, body, k)
    {
      OneFieldSays(fields, values, vals, n, body, k);
    }
  }

  /** The bytes of a packed message: the id, then the fields in order, each saying its
      value; nothing else. */
  lemma {:induction false} PackedBytes(id: byte, fields: seq<Field>, values: seq<Value>, b: bytes)
    requires |values| == |fields| && Packed(id, fields, values, None) == Ok(b)
    ensures b != [] && b[0] == id && AllSay(fields, values, StringRoom(fields, b[1..]), b[1..])
  {
    var vals, n, body := WireValues(id, fields, values, b);
    assert b[1..] == body;
    BodySize(fields, vals, n, body);
    BodySays(fields, values, vals, n, body);
  }

  /** A one-byte field, packed and unpacked. */
  lemma OneByte(i: int)
    requires 0 <= i < 256
    ensures PackOne(Unsigned(1), 0, Int(i)) == Some([i])
    ensures UnpackOne(Unsigned(1), [i]) == Int(i)
  {
    assert Span(1) == 256 * Span(0);
    assert ToBigEndian(1, i) == ToBigEndian(0, i / 256) + [i % 256];
    BigEndianRoundTrip(1, i);
  }

  lemma OneFieldPacked(id: byte, fields: seq<Field>, s: int, x: real, i: int)
    requires fields == [Field(Unsigned(1), Some(s))] && ScaleUp(x, s) == i && 0 <= i < 256
    ensures Packed(id, fields, [Real(x)], None) == Ok([id, i])
  {
    OneByte(i);
    assert Scalars(fields) == [s] && StringField(fields) == None;
    assert FieldValues(fields, [Real(x)], 0) == Some([]);
    assert Scaled(Real(x), s) == Some(Int(i));
    assert FieldValues(fields, [Real(x)], 1) == Some([] + [Int(i)]);
    assert [] + [Int(i)] == [Int(i)];
    assert fields[1..] == [] && [Int(i)][1..] == [];
    assert PackAll(fields, 0, [Int(i)]) == Some([i] + []);
    assert [id] + ([i] + []) == [id, i];
  }

  lemma OneFieldUnpacked(fields: seq<Field>, s: int, i: int)
    requires fields == [Field(Unsigned(1), Some(s))] && 0 <= i < 256
    ensures UnpackedFields(fields, [i]) == Ok([Divided(Int(i), s)])
  {
    OneByte(i);
    var b: bytes := [i];
    assert b[..1] == b && b[1..] == [];
    assert Scalars(fields) == [s] && StringField(fields) == None;
    assert fields[1..] == [] && UnpackAll([], 0, []) == Some([]);
    assert UnpackAll(fields, 0, b) == Some([Int(i)] + []);
    assert [Int(i)] + [] == [Int(i)];
    assert DividedFields([Int(i)], [s], 1) == [Divided(Int(i), s)];
  }

  /** A fraction that the scalar cannot express is cut off: 0.55 comes back as 0.5. */
  lemma FractionIsLost(registry: Registry, id: byte, fields: seq<Field>)
    requires fields == [Field(Unsigned(1), Some(10))]
    requires id in registry && Chosen(registry[id], true) == Some(fields)
    ensures Packed(id, fields, [Real(0.55)], None) == Ok([id, 5])
    ensures Unpacked(registry, [id, 5], true) == Ok(Msg(id, [Real(0.5)])) && !Restorable(fields, 0, Real(0.55))
  {
    OneFieldPacked(id, fields, 10, 0.55, 5);
    OneFieldUnpacked(fields, 10, 5);
    var b: bytes := [id, 5];
    assert b[1..] == [5];
    assert Scalars(fields) == [10];
  }

  /** Nor is anything but zero recovered from a scalar of 0. */
  lemma ZeroScalarLoses(registry: Registry, id: byte, fields: seq<Field>)
    requires fields == [Field(Unsigned(1), Some(0))]
    requires id in registry && Chosen(registry[id], true) == Some(fields)
    ensures Packed(id, fields, [Real(1.0)], None) == Ok([id, 0])
    ensures Unpacked(registry, [id, 0], true) == Ok(Msg(id, [Int(0)])) && !Restorable(fields, 0, Real(1.0))
  {
    OneFieldPacked(id, fields, 0, 1.0, 0);
    OneFieldUnpacked(fields, 0, 0);
    var b: bytes := [id, 0];
    assert b[1..] == [0];
    assert Scalars(fields) == [0];
  }

  /** Beside a string field even 0.5 stays scaled by 10. */
  lemma StringKeepsScaled(id: byte, fields: seq<Field>)
    requires fields == [Field(Unsigned(1), Some(10)), Field(Str, Some(BYTESTRING))]
    ensures Packed(id, fields, [Real(0.5), Blob([])], None).Ok? && !Restorable(fields, 0, Real(0.5))
  {
    assert Span(1) == 256 * Span(0);
    var rest := fields[1..];
    assert rest == [Field(Str, Some(BYTESTRING))] && rest[1..] == [];
    assert Scalars(rest) == [BYTESTRING] && StringCount(rest) == 1;
    assert Scalars(fields) == [10] + [BYTESTRING] && StringCount(fields) == 1;
    PacksIff(id, fields, [Real(0.5), Blob([])]);
  }

  lemma {:induction false} PlainRoundTrip(fields: seq<Field>, values: seq<Value>, vals: seq<Value>, body: bytes)
    requires |values| == |fields| && StringField(fields) == None && Wired(fields, values, vals)
    requires PackAll(fields, 0, vals) == Some(body)
    ensures var r := UnpackedFields(fields, body);
      && r.Ok? && |r.value| == |fields|
      && forall k :: 0 <= k < |fields| ==> (Same(r.value[k], values[k]) <==> Restorable(fields, k, values[k]))
  {
    forall k | 0 <= k < |fields|
      ensures vals[k].Int?
    {
      PackedBlob(fields, 0, vals, k);
    }
    AllRoundTrip(fields, 0, vals, []);
    assert body + [] == body;
    var r := DividedFields(vals, Scalars(fields), |vals|);
    forall k | 0 <= k < |fields|
      ensures Same(r[k], values[k]) <==> Restorable(fields, k, values[k])
    {
      PlainField(fields, values[k], vals[k], k);
    }
  }

  lemma {:induction false} PlainField(fields: seq<Field>, v: Value, wire: Value, k: nat)
    requires k < |fields| && !fields[k].kind.Str? && StringCount(fields) == 0
    requires wire.Int? && wire == WireValue(fields, k, v)
    requires Scalars(fields) == [] || |Scalars(fields)| == |fields|
    ensures Same(if k < |Scalars(fields)| then Divided(wire, Scalars(fields)[k]) else wire, v)
       <==> Restorable(fields, k, v)
  {
    if Scalars(fields) != [] {
      NumberRestored(false, Scalars(fields)[k], Number(v));
    }
  }

  lemma {:induction false} StringRoundTrip(fields: seq<Field>, values: seq<Value>, vals: seq<Value>, sf: nat, n: nat,
                                           body: bytes)
    requires |values| == |fields| && StringField(fields) == Some(sf) && StringCount(fields) == 1
    requires Wired(fields, values, vals) && PackAll(fields, n, vals) == Some(body)
    requires vals[sf].Blob? && |vals[sf].b| == n
    requires AsBytestring(fields, sf) || (values[sf].Text? && IsAscii(values[sf].s))
    ensures var r := UnpackedFields(fields, body);
      && r.Ok? && |r.value| == |fields|
      && forall k :: 0 <= k < |fields| ==> (Same(r.value[k], values[k]) <==> Restorable(fields, k, values[k]))
  {
    StringUnpacked(fields, values[sf], vals, sf, n, body);
    forall k | 0 <= k < |fields| && k != sf
      ensures Same(vals[k], values[k]) <==> Restorable(fields, k, values[k])
    {
      PackedBlob(fields, n, vals, k);
      StringSideField(fields, values[k], vals[k], k);
    }
  }

  lemma {:induction false} StringUnpacked(fields: seq<Field>, v: Value, vals: seq<Value>, sf: nat, n: nat, body: bytes)
    requires StringField(fields) == Some(sf) && StringCount(fields) == 1 && |vals| == |fields|
    requires PackAll(fields, n, vals) == Some(body) && vals[sf].Blob? && |vals[sf].b| == n
    requires Scalars(fields) == [] || |Scalars(fields)| == |fields|
    requires vals[sf] == WireValue(fields, sf, v)
    requires AsBytestring(fields, sf) || (v.Text? && IsAscii(v.s))
    ensures UnpackedFields(fields, body) == Ok(vals[sf := v])
  {
    forall k | 0 <= k < |fields|
      ensures vals[k].Blob? ==> k == sf
    {
      PackedBlob(fields, n, vals, k);
    }
    AllRoundTrip(fields, n, vals, []);
    assert body + [] == body;
    PackedSize(fields, n, vals);
    StringRestored(fields, v, vals, sf);
  }

  lemma {:induction false} StringSideField(fields: seq<Field>, v: Value, wire: Value, k: nat)
    requires k < |fields| && !fields[k].kind.Str? && StringCount(fields) == 1
    requires wire.Int? && wire == WireValue(fields, k, v)
    requires Scalars(fields) == [] || |Scalars(fields)| == |fields|
    ensures Same(wire, v) <==> Restorable(fields, k, v)
  {
    if Scalars(fields) != [] {
      NumberRestored(true, Scalars(fields)[k], Number(v));
    }
  }

  lemma StringRestored(fields: seq<Field>, v: Value, vals: seq<Value>, sf: nat)
    requires sf < |fields| == |vals| && fields[sf].kind.Str? && vals[sf].Blob?
    requires vals[sf] == WireValue(fields, sf, v)
    requires AsBytestring(fields, sf) || (v.Text? && IsAscii(v.s))
    ensures DecodeString(vals, sf, AsBytestring(fields, sf)) == Ok(vals[sf := v])
  {
    if !AsBytestring(fields, sf) {
      AsciiRoundTrip(v.s);
    } else {
      assert vals[sf := v] == vals;
    }
  }

  // ----- when packing succeeds ----------------------------------------------------------------------

  predicate InRange(k: Kind, i: int) {
    match k
    case Unsigned(w) => 0 <= i < Span(w)
    case Signed(w) => FitsSigned(w, i)
    case Str => false
  }

  /** A field that struct accepts: numbers in range after scaling (integers if
      there is no scalar), bytes for a bytestring, ASCII for any other string. */
  predicate Encodable(fields: seq<Field>, k: nat, v: Value)
    requires k < |fields|
  {
    if fields[k].kind.Str? then
      if AsBytestring(fields, k) then v.Blob? else v.Text? && IsAscii(v.s)
    else if Scalars(fields) == [] then v.Int? && InRange(fields[k].kind, v.i)
    else k < |Scalars(fields)| && IsNumber(v) && InRange(fields[k].kind, ScaleUp(Number(v), Scalars(fields)[k]))
  }

  lemma {:induction false} PackAllIff(fields: seq<Field>, n: nat, vals: seq<Value>)
    requires |fields| == |vals|
    ensures PackAll(fields, n, vals).Some? <==>
            forall k :: 0 <= k < |fields| ==> PackOne(fields[k].kind, n, vals[k]).Some?
    decreases |fields|
  {
    if fields != [] {
      PackAllIff(fields[1..], n, vals[1..]);
      assert forall k :: 0 < k < |fields| ==> fields[k] == fields[1..][k - 1] && vals[k] == vals[1..][k - 1];
    }
  }

  lemma {:induction false} FieldValuesIff(fields: seq<Field>, values: seq<Value>, n: nat)
    requires |values| == |fields| && n <= |Scalars(fields)|
    ensures FieldValues(fields, values, n).Some? <==>
            forall k :: 0 <= k < n ==> fields[k].kind.Str? || IsNumber(values[k])
    decreases n
  {
    if n > 0 {
      FieldValuesIff(fields, values, n - 1);
    }
  }

  /** At most one string field, scalars for all of the fields or for none, and
      every value fits its field. */
  ghost predicate AllEncodable(fields: seq<Field>, values: seq<Value>) {
    && |values| == |fields| && StringCount(fields) <= 1
    && (Scalars(fields) == [] || |Scalars(fields)| == |fields|)
    && forall k :: 0 <= k < |fields| ==> Encodable(fields, k, values[k])
  }

  /** A message packs exactly when this holds. */
  lemma PacksIff(id: byte, fields: seq<Field>, values: seq<Value>)
    requires |values| == |fields|
    ensures Packed(id, fields, values, None).Ok? <==> AllEncodable(fields, values)
  {
    if Packed(id, fields, values, None).Ok? {
      PackedIsEncodable(id, fields, values, Packed(id, fields, values, None).value);
    }
    if AllEncodable(fields, values) {
      EncodablePacks(id, fields, values);
    }
  }

  lemma PackedIsEncodable(id: byte, fields: seq<Field>, values: seq<Value>, b: bytes)
    requires |values| == |fields| && Packed(id, fields, values, None) == Ok(b)
    ensures AllEncodable(fields, values)
  {
    var vals, n := [], 0;
    match StringField(fields) {
      case None => vals := PackedPlain(id, fields, values, b);
      case Some(sf) => vals, n := PackedString(id, fields, values, sf, b);
    }
    PackAllIff(fields, n, vals);
    forall k | 0 <= k < |fields|
      ensures Encodable(fields, k, values[k])
    {
      assert PackOne(fields[k].kind, n, vals[k]).Some?;
      assert vals[k] == WireValue(fields, k, values[k]);
    }
  }

  lemma EncodableFieldValues(fields: seq<Field>, values: seq<Value>)
    requires AllEncodable(fields, values)
    ensures var r := AllFieldValues(fields, values);
      && r.Some? && |r.value| == |fields|
      && forall k :: 0 <= k < |fields| ==>
           r.value[k] == if fields[k].kind.Str? then values[k] else WireValue(fields, k, values[k])
  {
    if Scalars(fields) != [] {
      forall k | 0 <= k < |fields|
        ensures fields[k].kind.Str? || IsNumber(values[k])
      {
        assert Encodable(fields, k, values[k]);
      }
      FieldValuesIff(fields, values, |fields|);
    }
    AllFieldValuesAre(fields, values);
  }

  lemma EncodableNumber(fields: seq<Field>, k: nat, v: Value, n: nat)
    requires k < |fields| && !fields[k].kind.Str? && Encodable(fields, k, v)
    ensures PackOne(fields[k].kind, n, WireValue(fields, k, v)).Some?
  {
  }

  lemma EncodablePacks(id: byte, fields: seq<Field>, values: seq<Value>)
    requires AllEncodable(fields, values)
    ensures Packed(id, fields, values, None).Ok?
  {
    EncodableFieldValues(fields, values);
    var raw := AllFieldValues(fields, values).value;
    match StringField(fields) {
      case None =>
        EncodablePackAll(fields, values, raw, 0);
      case Some(sf) =>
        assert Encodable(fields, sf, values[sf]);
        var v := StringBytes(raw[sf], AsBytestring(fields, sf)).value;
        EncodablePackAll(fields, values, raw[sf := v], StringLength(values[sf]));
    }
  }

  lemma {:induction false} EncodablePackAll(fields: seq<Field>, values: seq<Value>, vals: seq<Value>, n: nat)
    requires AllEncodable(fields, values) && |vals| == |fields|
    requires forall k :: 0 <= k < |fields| ==>
      if fields[k].kind.Str? then vals[k].Blob? else vals[k] == WireValue(fields, k, values[k])
    ensures PackAll(fields, n, vals).Some?
  {
    forall k | 0 <= k < |fields|
      ensures PackOne(fields[k].kind, n, vals[k]).Some?
    {
      assert Encodable(fields, k, values[k]);
      if !fields[k].kind.Str? {
        EncodableNumber(fields, k, values[k], n);
      }
    }
    PackAllIff(fields, n, vals);
  }

  /** A message without a string field fails to pack with a TypeError if a value that is to
      be scaled is no number, and otherwise with a struct error. */
  lemma {:induction false} PackFails(id: byte, fields: seq<Field>, values: seq<Value>)
    requires |values| == |fields| && StringCount(fields) == 0 && Packed(id, fields, values, None).Err?
    ensures Packed(id, fields, values, None).error
         == if exists k :: 0 <= k < |Scalars(fields)| && !IsNumber(values[k]) then TypeError else StructError
  {
    FieldValuesIff(fields, values, |Scalars(fields)|);
  }

  /** A CAN id puts the forwarding prefix in front of the same bytes; a message
      with a string field cannot be forwarded at all. */
  lemma {:induction false} Forwarded(id: byte, fields: seq<Field>, values: seq<Value>, c: int)
    requires |values| == |fields|
    ensures Packed(id, fields, values, Some(c)).Ok? <==>
            StringField(fields).None? && 0 <= c < 256 && Packed(id, fields, values, None).Ok?
    ensures Packed(id, fields, values, Some(c)).Ok? ==>
            Packed(id, fields, values, Some(c)).value
            == [34, c as byte] + Packed(id, fields, values, None).value
  {
  }

  lemma {:induction false} UnpackLonger(fields: seq<Field>, n: nat, b: bytes, tail: bytes)
    requires UnpackAll(fields, n, b).Some?
    ensures UnpackAll(fields, n, b + tail) == UnpackAll(fields, n, b)
    decreases |fields|
  {
    if fields != [] {
      var w := Width(fields[0].kind, n);
      UnpackLonger(fields[1..], n, b[w..], tail);
      assert (b + tail)[w..] == b[w..] + tail && (b + tail)[..w] == b[..w];
    }
  }

  /** Bytes behind the fields of a message without a string are ignored. */
  lemma TailIgnored(registry: Registry, b: bytes, tail: bytes, sendFields: bool)
    requires Unpacked(registry, b, sendFields).Ok?
    requires StringField(Chosen(registry[b[0]], sendFields).value).None?
    ensures Unpacked(registry, b + tail, sendFields) == Unpacked(registry, b, sendFields)
  {
    UnpackLonger(Chosen(registry[b[0]], sendFields).value, 0, b[1..], tail);
    assert (b + tail)[1..] == b[1..] + tail;
  }

  lemma {:induction false} UnpackAllIff(fields: seq<Field>, n: nat, b: bytes)
    ensures UnpackAll(fields, n, b).Some? <==> |b| >= OffsetOf(fields, n, |fields|)
    decreases |fields|
  {
    if fields != [] {
      var w := Width(fields[0].kind, n);
      OffsetCons(fields, n, |fields|);
      if |b| >= w {
        UnpackAllIff(fields[1..], n, b[w..]);
      }
    }
  }

  lemma {:induction false} FieldBytesBehind(fields: seq<Field>, n: nat, b: bytes, w: nat, k: nat)
    requires 0 < k < |fields| && w == Width(fields[0].kind, n) && w <= |b|
    requires OffsetOf(fields[1..], n, k) <= |b| - w
    ensures OffsetOf(fields, n, k + 1) <= |b|
    ensures FieldBytes(fields, n, k, b) == FieldBytes(fields[1..], n, k - 1, b[w..])
  {
    OffsetCons(fields, n, k);
    OffsetCons(fields, n, k + 1);
    OffsetsGrow(fields[1..], n, k - 1, k);
    assert b == b[..w] + b[w..];
    SliceShift(b[..w], b[w..], OffsetOf(fields[1..], n, k - 1), OffsetOf(fields[1..], n, k));
  }

  lemma {:induction false} UnpackedAt(fields: seq<Field>, n: nat, b: bytes, k: nat)
    requires UnpackAll(fields, n, b).Some? && k < |fields|
    ensures OffsetOf(fields, n, k + 1) <= |b|
    ensures UnpackAll(fields, n, b).value[k] == UnpackOne(fields[k].kind, FieldBytes(fields, n, k, b))
    decreases |fields|
  {
    var w := Width(fields[0].kind, n);
    if k > 0 {
      UnpackedAt(fields[1..], n, b[w..], k - 1);
      FieldBytesBehind(fields, n, b, w, k);
    } else {
      OffsetCons(fields, n, 1);
    }
  }

  predicate AllAscii(b: bytes) {
    forall i :: 0 <= i < |b| ==> b[i] < 128
  }

  /** The body is long enough, and its string can be read: its scalar is known, and it is
      ASCII unless that says it is bytes. */
  predicate Readable(fields: seq<Field>, body: bytes) {
    && StringCount(fields) <= 1 && |body| >= CalcSize(fields)
    && (StringField(fields).Some? ==>
          var sf := StringField(fields).value;
          var n := |body| - CalcSize(fields);
          && (Scalars(fields) == [] || sf < |Scalars(fields)|)
          && OffsetOf(fields, n, sf + 1) <= |body|
          && (AsBytestring(fields, sf) || AllAscii(FieldBytes(fields, n, sf, body))))
  }

  lemma {:induction false} ReadableIff(fields: seq<Field>, body: bytes)
    ensures UnpackedFields(fields, body).Ok? <==> Readable(fields, body)
    ensures StringCount(fields) <= 1 && |body| < CalcSize(fields) ==> UnpackedFields(fields, body) == Err(StructError)
  {
    match StringField(fields) {
      case None =>
        SizeIsOffset(fields, 0);
        UnpackAllIff(fields, 0, body);
      case Some(sf) =>
        if StringCount(fields) == 1 && |body| >= CalcSize(fields) {
          StringReadableIff(fields, body, sf, |body| - CalcSize(fields));
        }
    }
  }

  lemma StringUnpacks(fields: seq<Field>, sf: nat, n: nat, body: bytes) returns (data: seq<Value>)
    requires StringField(fields) == Some(sf) && StringCount(fields) == 1 && |body| == CalcSize(fields) + n
    ensures UnpackAll(fields, n, body) == Some(data) && OffsetOf(fields, n, sf + 1) <= |body|
    ensures data[sf] == Blob(FieldBytes(fields, n, sf, body))
  {
    SizeIsOffset(fields, n);
    UnpackAllIff(fields, n, body);
    UnpackedAt(fields, n, body, sf);
    data := UnpackAll(fields, n, body).value;
  }

  lemma {:induction false} StringDecodes(fields: seq<Field>, sf: nat, n: nat, body: bytes, data: seq<Value>, b: bytes)
    requires StringField(fields) == Some(sf) && StringCount(fields) == 1 && |body| == CalcSize(fields) + n
    requires UnpackAll(fields, n, body) == Some(data) && data[sf] == Blob(b)
    ensures UnpackedWithString(fields, sf, body).Ok? <==>
            (Scalars(fields) == [] || sf < |Scalars(fields)|) && (AsBytestring(fields, sf) || AllAscii(b))
  {
  }

  lemma {:induction false} StringReadableIff(fields: seq<Field>, body: bytes, sf: nat, n: nat)
    requires StringField(fields) == Some(sf) && StringCount(fields) == 1 && |body| == CalcSize(fields) + n
    ensures UnpackedFields(fields, body).Ok? <==> Readable(fields, body)
  {
    var data := StringUnpacks(fields, sf, n, body);
    StringDecodes(fields, sf, n, body, data, data[sf].b);
  }

  /** A message unpacks exactly when its class is known, has a field list, and the body can
      be read with it. */
  lemma UnpacksIff(registry: Registry, b: bytes, sendFields: bool)
    ensures Unpacked(registry, b, sendFields).Ok? <==>
            && b != [] && b[0] in registry && Chosen(registry[b[0]], sendFields).Some?
            && Readable(Chosen(registry[b[0]], sendFields).value, b[1..])
    ensures b == [] ==> Unpacked(registry, b, sendFields) == Err(StructError)
    ensures b != [] && b[0] !in registry ==> Unpacked(registry, b, sendFields) == Err(KeyError)
  {
    if b != [] && b[0] in registry && Chosen(registry[b[0]], sendFields).Some? {
      ReadableIff(Chosen(registry[b[0]], sendFields).value, b[1..]);
    }
  }

  // ----- the class registry ---------------------------------------------------------------------------

  /** Message classes by id, filled in as classes are created. A class is entered
      before its fields are checked, so one that is then refused stays registered. */
  class MessageClasses {
    var types: Registry

    constructor ()
      ensures types == map[]
    {
      types := map[];
    }

    method Register(id: byte, t: MsgType) returns (error: Option<Error>)
      modifies this
      ensures id in old(types) ==> error == Some(TypeError) && types == old(types)
      ensures id !in old(types) ==> types == old(types)[id := t]
      ensures id !in old(types) ==>
        error == if t.send.None? && t.recv.None? then Some(AttributeError)
                 else if t.send.Some? && StringCount(t.send.value) > 1 then Some(TypeError)
                 else None
    {
      if id in types {
        return Some(TypeError);
      }
      types := types[id := t];
      if t.send.None? && t.recv.None? {
        return Some(AttributeError);
      }
      if t.send.Some? && StringCount(t.send.value) > 1 {
        return Some(TypeError);
      }
      error := None;
    }
  }
}
