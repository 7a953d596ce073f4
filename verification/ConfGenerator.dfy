/**
  The configuration blobs: a signature and the parameters in the order of a fixed
  layout. The two generated layouts differ only in their names and kinds.
*/
module ConfGenerator {
  import opened Wrappers
  import opened Bytes
  import opened ConfigParams

  const MCCONF_SIGNATURE: nat := 776184161
  const APPCONF_SIGNATURE: nat := 486554156

  /** One line of a layout. */
  datatype Entry = Entry(name: string, kind: Kind)

  // ----- serialising ------------------------------------------------------------------

  /** All settings of this name are serialised; the first one is used. */
  function SerialiseNamed(settings: seq<Setting>, name: string): Result<Option<bytes>, Error> {
    if settings == [] then Ok(None)
    else
      var n := |settings| - 1;
      match SerialiseNamed(settings[..n], name)
      case Err(e) => Err(e)
      case Ok(before) =>
        if settings[n].name != name then Ok(before)
        else
          match SerialiseValue(settings[n].kind, settings[n].value)
          case Err(e) => Err(e)
          case Ok(b) => Ok(if before.Some? then before else Some(b))
  }

  /** The bytes of one layout line; a missing name is an IndexError. */
  function SerialiseEntry(settings: seq<Setting>, name: string): Result<bytes, Error> {
    match SerialiseNamed(settings, name)
    case Err(e) => Err(e)
    case Ok(None) => Err(IndexError)
    case Ok(Some(b)) => Ok(b)
  }

  function Body(layout: seq<Entry>, settings: seq<Setting>): Result<bytes, Error> {
    if layout == [] then Ok([])
    else
      var n := |layout| - 1;
      match Body(layout[..n], settings)
      case Err(e) => Err(e)
      case Ok(before) =>
        match SerialiseEntry(settings, layout[n].name)
        case Err(e) => Err(e)
        case Ok(b) => Ok(before + b)
  }

  function Serialised(signature: nat, layout: seq<Entry>, settings: seq<Setting>): Result<bytes, Error> {
    match Body(layout, settings)
    case Err(e) => Err(e)
    case Ok(b) => Ok(ToBigEndian(4, signature) + b)
  }

  function Snapshots(params: seq<ConfigParam>): (r: seq<Setting>)
    reads params
    ensures |r| == |params|
  {
    if params == [] then []
    else
      var n := |params| - 1;
      Snapshots(params[..n]) + [params[n].Snapshot()]
  }

  lemma {:induction false} SnapshotAt(params: seq<ConfigParam>, i: nat)
    requires i < |params|
    ensures Snapshots(params)[i] == params[i].Snapshot()
    decreases |params|
  {
    if i < |params| - 1 {
      SnapshotAt(params[..|params| - 1], i);
    }
  }

  lemma {:induction false} NamedStep(settings: seq<Setting>, i: nat, name: string)
    requires i < |settings| && SerialiseNamed(settings[..i], name).Ok?
    ensures SerialiseNamed(settings[..i + 1], name)
         == if settings[i].name != name then SerialiseNamed(settings[..i], name)
            else
              match SerialiseValue(settings[i].kind, settings[i].value)
              case Err(e) => Err(e)
              case Ok(b) =>
                Ok(if SerialiseNamed(settings[..i], name).value.Some? then SerialiseNamed(settings[..i], name).value
                   else Some(b))
  {
    assert settings[..i + 1][..i] == settings[..i];
  }

  /** The bytes for one line of the layout: every parameter of that name is serialised,
      and the first result is taken. */
  method SerialiseFirst(params: seq<ConfigParam>, name: string, ghost settings: seq<Setting>)
      returns (r: Result<bytes, Error>)
    requires settings == Snapshots(params)
    ensures r == SerialiseEntry(settings, name)
  {
    var found: Option<bytes> := None;
    for i := 0 to |params|
      invariant SerialiseNamed(settings[..i], name) == Ok(found)
    {
      NamedStep(settings, i, name);
      SnapshotAt(params, i);
      if params[i].name == name {
        match params[i].Serialise() {
          case Err(e) =>
            NamedFails(settings, i, name);
            return Err(e);
          case Ok(b) =>
            found := if found.Some? then found else Some(b);
        }
      }
    }
    assert settings[..|params|] == settings;
    r := if found.Some? then Ok(found.value) else Err(IndexError);
  }

  lemma {:induction false} NamedFails(settings: seq<Setting>, i: nat, name: string)
    requires i < |settings| && SerialiseNamed(settings[..i + 1], name).Err?
    ensures SerialiseNamed(settings, name) == SerialiseNamed(settings[..i + 1], name)
    decreases |settings|
  {
    if i + 1 == |settings| {
      assert settings[..i + 1] == settings;
    } else {
      var before := settings[..|settings| - 1];
      assert before[..i + 1] == settings[..i + 1];
      NamedFails(before, i, name);
    }
  }

  lemma {:induction false} BodyFails(layout: seq<Entry>, i: nat, settings: seq<Setting>, e: Error)
    requires i < |layout| && Body(layout[..i + 1], settings) == Err(e)
    ensures Body(layout, settings) == Err(e)
    decreases |layout|
  {
    if i + 1 == |layout| {
      assert layout[..i + 1] == layout;
    } else {
      var before := layout[..|layout| - 1];
      assert before[..i + 1] == layout[..i + 1];
      BodyFails(before, i, settings, e);
    }
  }

  lemma {:induction false} BodyStep(layout: seq<Entry>, i: nat, settings: seq<Setting>, before: bytes)
    requires i < |layout| && Body(layout[..i], settings) == Ok(before)
    ensures Body(layout[..i + 1], settings) == match SerialiseEntry(settings, layout[i].name)
            case Ok(b) => Ok(before + b)
            case Err(e) => Err(e)
  {
    assert layout[..i + 1][..i] == layout[..i];
  }

  /** confgenerator_serialise_mcconf and _appconf. */
  method SerialiseConf(signature: nat, layout: seq<Entry>, params: seq<ConfigParam>, ghost settings: seq<Setting>)
      returns (r: Result<bytes, Error>)
    requires settings == Snapshots(params)
    ensures r == Serialised(signature, layout, settings)
  {
    var head := ToBigEndian(4, signature);
    var body: bytes := [];
    for i := 0 to |layout|
      invariant Body(layout[..i], settings) == Ok(body)
    {
      BodyStep(layout, i, settings, body);
      var b := SerialiseFirst(params, layout[i].name, settings);
      if b.Err? {
        BodyFails(layout, i, settings, b.error);
        return Err(b.error);
      }
      body := body + b.value;
    }
    assert layout[..|layout|] == layout;
    r := Ok(head + body);
  }

  lemma {:induction false} NamedOkIff(settings: seq<Setting>, name: string)
    ensures SerialiseNamed(settings, name).Ok? <==>
            forall i :: 0 <= i < |settings| && settings[i].name == name ==>
              SerialiseValue(settings[i].kind, settings[i].value).Ok?
    ensures SerialiseNamed(settings, name) == Ok(None) <==> forall i :: 0 <= i < |settings| ==> settings[i].name != name
    decreases |settings|
  {
    if settings != [] {
      NamedOkIff(settings[..|settings| - 1], name);
    }
  }

  /** Every line of the layout has a setting, and all settings of that name, not just
      the one that is used, have values that fit their kind. */
  predicate Serialisable(settings: seq<Setting>, name: string) {
    && (exists i :: 0 <= i < |settings| && settings[i].name == name)
    && (forall i :: 0 <= i < |settings| && settings[i].name == name ==>
          SerialiseValue(settings[i].kind, settings[i].value).Ok?)
  }

  /** Serialising succeeds exactly then. */
  lemma {:induction false} SerialisesIff(signature: nat, layout: seq<Entry>, settings: seq<Setting>)
    ensures Serialised(signature, layout, settings).Ok? <==>
            forall i :: 0 <= i < |layout| ==> Serialisable(settings, layout[i].name)
    decreases |layout|
  {
    if layout != [] {
      var n := |layout| - 1;
      SerialisesIff(signature, layout[..n], settings);
      NamedOkIff(settings, layout[n].name);
    }
  }

  /** The first setting of a name, by its position. */
  predicate FirstAt(settings: seq<Setting>, name: string, j: nat) {
    j < |settings| && settings[j].name == name && forall i :: 0 <= i < j ==> settings[i].name != name
  }

  lemma {:induction false} NamedAt(settings: seq<Setting>, name: string) returns (j: nat)
    requires SerialiseNamed(settings, name).Ok? && SerialiseNamed(settings, name).value.Some?
    ensures FirstAt(settings, name, j)
    ensures SerialiseValue(settings[j].kind, settings[j].value) == Ok(SerialiseNamed(settings, name).value.value)
    decreases |settings|
  {
    var n := |settings| - 1;
    if SerialiseNamed(settings[..n], name) == Ok(None) {
      NamedOkIff(settings[..n], name);
      assert forall i :: 0 <= i < n ==> settings[..n][i] == settings[i];
      j := n;
    } else {
      j := NamedAt(settings[..n], name);
      assert forall i :: 0 <= i <= j ==> settings[..n][i] == settings[i];
    }
  }

  /** Some setting that comes first of its name has these bytes. */
  ghost predicate BytesOf(settings: seq<Setting>, name: string, part: bytes) {
    exists j: nat :: FirstAt(settings, name, j) && SerialiseValue(settings[j].kind, settings[j].value) == Ok(part)
  }

  lemma OnePart(settings: seq<Setting>, name: string)
    requires SerialiseEntry(settings, name).Ok?
    ensures BytesOf(settings, name, SerialiseEntry(settings, name).value)
  {
    var j := NamedAt(settings, name);
  }

  lemma {:induction false} ConcatSnoc(before: seq<bytes>, b: bytes)
    ensures Concat(before + [b]) == Concat(before) + b
  {
    ConcatAppend(before, [b]);
    assert Concat([b]) == b + Concat([]) == b;
  }

  lemma {:induction false} BodyParts(layout: seq<Entry>, settings: seq<Setting>) returns (parts: seq<bytes>)
    requires Body(layout, settings).Ok?
    ensures |parts| == |layout| && Body(layout, settings).value == Concat(parts)
    ensures forall i :: 0 <= i < |layout| ==> BytesOf(settings, layout[i].name, parts[i])
    decreases |layout|
  {
    if layout == [] {
      parts := [];
    } else {
      var n := |layout| - 1;
      var before := BodyParts(layout[..n], settings);
      var b := SerialiseEntry(settings, layout[n].name).value;
      OnePart(settings, layout[n].name);
      ConcatSnoc(before, b);
      parts := before + [b];
    }
  }

  /** What a blob is: the signature, then line by line the bytes of the first setting of
      that name; nothing else. */
  lemma BlobParts(signature: nat, layout: seq<Entry>, settings: seq<Setting>) returns (parts: seq<bytes>)
    requires signature < Span(4) && Serialised(signature, layout, settings).Ok?
    ensures var blob := Serialised(signature, layout, settings).value;
      |blob| >= 4 && FromBigEndian(blob[..4]) == signature && blob[4..] == Concat(parts)
    ensures |parts| == |layout| && forall i :: 0 <= i < |layout| ==> BytesOf(settings, layout[i].name, parts[i])
  {
    BigEndianRoundTrip(4, signature);
    parts := BodyParts(layout, settings);
    var head, body := ToBigEndian(4, signature), Body(layout, settings).value;
    assert (head + body)[..4] == head && (head + body)[4..] == body;
  }

  /** The first of these settings that does not fit its kind. */
  predicate FirstMisfit(settings: seq<Setting>, name: string, j: nat) {
    && j < |settings| && settings[j].name == name && SerialiseValue(settings[j].kind, settings[j].value).Err?
    && forall i :: 0 <= i < j && settings[i].name == name ==> SerialiseValue(settings[i].kind, settings[i].value).Ok?
  }

  lemma {:induction false} NamedError(settings: seq<Setting>, name: string, j: nat)
    requires FirstMisfit(settings, name, j)
    ensures SerialiseNamed(settings, name) == Err(SerialiseValue(settings[j].kind, settings[j].value).error)
    decreases |settings|
  {
    var n := |settings| - 1;
    if j < n {
      assert forall i :: 0 <= i <= j ==> settings[..n][i] == settings[i];
      NamedError(settings[..n], name, j);
    } else {
      assert forall i :: 0 <= i < n ==> settings[..n][i] == settings[i];
      NamedOkIff(settings[..n], name);
    }
  }

  lemma {:induction false} BodyError(layout: seq<Entry>, settings: seq<Setting>, i: nat, e: Error)
    requires i < |layout| && SerialiseEntry(settings, layout[i].name) == Err(e)
    requires forall l :: 0 <= l < i ==> Serialisable(settings, layout[l].name)
    ensures Body(layout, settings) == Err(e)
    decreases |layout|
  {
    var n := |layout| - 1;
    assert forall l :: 0 <= l < n ==> layout[..n][l] == layout[l];
    if i < n {
      BodyError(layout[..n], settings, i, e);
    } else {
      SerialisesIff(0, layout[..n], settings);
    }
  }

  /** The first line of the layout that cannot be serialised gives the error: an IndexError
      if there is no setting for it, and otherwise that of the first setting of its name
      that does not fit. */
  lemma MissingLine(signature: nat, layout: seq<Entry>, settings: seq<Setting>, i: nat)
    requires i < |layout| && forall l :: 0 <= l < i ==> Serialisable(settings, layout[l].name)
    requires forall j :: 0 <= j < |settings| ==> settings[j].name != layout[i].name
    ensures Serialised(signature, layout, settings) == Err(IndexError)
  {
    NamedOkIff(settings, layout[i].name);
    BodyError(layout, settings, i, IndexError);
  }

  lemma FirstError(signature: nat, layout: seq<Entry>, settings: seq<Setting>, i: nat, j: nat)
    requires i < |layout| && forall l :: 0 <= l < i ==> Serialisable(settings, layout[l].name)
    requires FirstMisfit(settings, layout[i].name, j)
    ensures Serialised(signature, layout, settings) == Err(SerialiseValue(settings[j].kind, settings[j].value).error)
  {
    NamedError(settings, layout[i].name, j);
    BodyError(layout, settings, i, SerialiseValue(settings[j].kind, settings[j].value).error);
  }

  // ----- deserialising ------------------------------------------------------------------

  /** A bytearray whose front is taken off in place. */
  class ByteBuffer {
    var data: bytes

    constructor (data: bytes)
      ensures this.data == data
    {
      this.data := data;
    }

    /** buffer_pop: a short buffer gives what it has. */
    method Pop(length: nat) returns (popped: bytes)
      modifies this
      ensures popped == Front(old(data), length) && data == Behind(old(data), length)
      ensures popped + data == old(data)
    {
      popped := Front(data, length);
      data := Behind(data, length);
    }
  }

  function Front(b: bytes, n: nat): bytes {
    if n <= |b| then b[..n] else b
  }

  function Behind(b: bytes, n: nat): bytes {
    if n <= |b| then b[n..] else []
  }

  /** What reading a layout gives, and what it leaves in the buffer. */
  datatype Parsed = Parsed(result: Result<seq<Setting>, Error>, rest: bytes)

  function PrependSettings(done: seq<Setting>, p: Parsed): Parsed {
    match p.result
    case Ok(settings) => p.(result := Ok(done + settings))
    case Err(_) => p
  }

  function Parse(layout: seq<Entry>, b: bytes): Parsed
    decreases |layout|
  {
    if layout == [] then Parsed(Ok([]), b)
    else
      var kind, rest := layout[0].kind, Behind(b, Width(layout[0].kind));
      match DeserialiseValue(kind, Front(b, Width(kind)))
      case Err(e) => Parsed(Err(e), rest)
      case Ok(v) => PrependSettings([Setting(layout[0].name, kind, v)], Parse(layout[1..], rest))
  }

  lemma PrependSettingsTwice(a: seq<Setting>, b: seq<Setting>, p: Parsed)
    ensures PrependSettings(a, PrependSettings(b, p)) == PrependSettings(a + b, p)
  {
    if p.result.Ok? {
      assert a + (b + p.result.value) == a + b + p.result.value;
    }
  }

  lemma {:induction false} ParseStep(layout: seq<Entry>, i: nat, b: bytes)
    requires i < |layout|
    ensures var kind, rest := layout[i].kind, Behind(b, Width(layout[i].kind));
      Parse(layout[i..], b) == match DeserialiseValue(kind, Front(b, Width(kind)))
        case Err(e) => Parsed(Err(e), rest)
        case Ok(v) => PrependSettings([Setting(layout[i].name, kind, v)], Parse(layout[i + 1..], rest))
  {
    assert layout[i..][1..] == layout[i + 1..];
  }

  /** One line of the layout: a fresh parameter, read off the front of the buffer. */
  method ParseParam(entry: Entry, buffer: ByteBuffer) returns (error: Option<Error>, param: ConfigParam)
    modifies buffer
    ensures fresh(param) && buffer.data == Behind(old(buffer.data), Width(entry.kind))
    ensures match DeserialiseValue(entry.kind, Front(old(buffer.data), Width(entry.kind)))
            case Ok(v) => error == None && param.Snapshot() == Setting(entry.name, entry.kind, v)
            case Err(e) => error == Some(e)
  {
    param := new ConfigParam(entry.name, entry.kind);
    var popped := buffer.Pop(Width(entry.kind));
    error := param.Deserialise(popped);
  }

  lemma {:induction false} SnapshotsSnoc(params: seq<ConfigParam>, param: ConfigParam)
    ensures Snapshots(params + [param]) == Snapshots(params) + [param.Snapshot()]
  {
    assert (params + [param])[..|params|] == params;
  }

  /** The reading loop. */
  method ParseParams(layout: seq<Entry>, buffer: ByteBuffer) returns (error: Option<Error>, params: seq<ConfigParam>)
    modifies buffer
    ensures forall p :: p in params ==> fresh(p)
    ensures var parsed := Parse(layout, old(buffer.data));
      && buffer.data == parsed.rest
      && (match parsed.result
          case Ok(settings) => error == None && Snapshots(params) == settings
          case Err(e) => error == Some(e))
  {
    params := [];
    ghost var whole, done: seq<Setting> := Parse(layout, buffer.data), [];
    assert layout[0..] == layout && PrependSettings(done, whole) == whole by {
      assert whole.result.Ok? ==> done + whole.result.value == whole.result.value;
    }
    for i := 0 to |layout|
      invariant forall p :: p in params ==> fresh(p)
      invariant Snapshots(params) == done
      invariant whole == PrependSettings(done, Parse(layout[i..], buffer.data))
    {
      ParseStep(layout, i, buffer.data);
      var param;
      error, param := ParseParam(layout[i], buffer);
      if error.Some? {
        return;
      }
      PrependSettingsTwice(done, [param.Snapshot()], Parse(layout[i + 1..], buffer.data));
      SnapshotsSnoc(params, param);
      done := done + [param.Snapshot()];
      params := params + [param];
    }
    assert whole == Parsed(Ok(done), buffer.data) by {
      assert Parse(layout[|layout|..], buffer.data) == Parsed(Ok([]), buffer.data);
      assert done + [] == done;
    }
    error := None;
  }

  /** How many bytes the first k lines take. */
  function SizeTo(layout: seq<Entry>, k: nat): nat
    requires k <= |layout|
  {
    if k == 0 then 0 else SizeTo(layout, k - 1) + Width(layout[k - 1].kind)
  }

  lemma {:induction false} SizeToCons(layout: seq<Entry>, k: nat)
    requires 0 < k <= |layout|
    ensures SizeTo(layout, k) == Width(layout[0].kind) + SizeTo(layout[1..], k - 1)
    decreases k
  {
    if k > 1 {
      SizeToCons(layout, k - 1);
    }
  }

  /** A float takes what it is given; every other kind needs all of its bytes. */
  predicate Enough(layout: seq<Entry>, b: bytes) {
    forall i :: 0 <= i < |layout| ==> layout[i].kind.Auto? || SizeTo(layout, i + 1) <= |b|
  }

  lemma EnoughCons(layout: seq<Entry>, b: bytes)
    requires layout != []
    ensures var w := Width(layout[0].kind);
      Enough(layout, b) <==> (layout[0].kind.Auto? || w <= |b|) && Enough(layout[1..], Behind(b, w))
  {
    var w, rest := Width(layout[0].kind), Behind(b, Width(layout[0].kind));
    forall i | 0 <= i < |layout|
      ensures SizeTo(layout, i + 1) == w + SizeTo(layout[1..], i)
    {
      SizeToCons(layout, i + 1);
    }
    forall i | 0 < i < |layout| && !layout[i].kind.Auto?
      ensures SizeTo(layout, i + 1) <= |b| <==> SizeTo(layout[1..], i) <= |rest|
    {
      assert SizeTo(layout[1..], i) == SizeTo(layout[1..], i - 1) + Width(layout[1..][i - 1].kind);
      assert layout[1..][i - 1] == layout[i];
    }
    assert forall i :: 0 < i < |layout| ==> layout[i] == layout[1..][i - 1];
    assert forall i :: 0 <= i < |layout| - 1 ==> layout[1..][i] == layout[i + 1];
  }

  /** A blob that was cut short is refused exactly when a line other than a float lacks some
      of its bytes; otherwise the missing floats are read from what is there. */
  lemma {:induction false} ParsesIff(layout: seq<Entry>, b: bytes)
    ensures Parse(layout, b).result.Ok? <==> Enough(layout, b)
    ensures Parse(layout, b).result.Err? ==> Parse(layout, b).result.error == ValueError
    decreases |layout|
  {
    if layout != [] {
      EnoughCons(layout, b);
      ParsesIff(layout[1..], Behind(b, Width(layout[0].kind)));
    }
  }

  /** What reading a blob gives: nothing when the signature is another one. */
  function Deserialised(signature: nat, layout: seq<Entry>, b: bytes)
    : (Result<Option<seq<Setting>>, Error>, bytes)
  {
    var rest := Behind(b, 4);
    if FromBigEndian(Front(b, 4)) != signature then (Ok(None), rest)
    else
      var parsed := Parse(layout, rest);
      match parsed.result
      case Ok(settings) => (Ok(Some(settings)), parsed.rest)
      case Err(e) => (Err(e), parsed.rest)
  }

  /** confgenerator_deserialise_mcconf and _appconf. */
  method DeserialiseConf(signature: nat, layout: seq<Entry>, buffer: ByteBuffer)
      returns (r: Result<Option<seq<ConfigParam>>, Error>)
    modifies buffer
    ensures var (expected, rest) := Deserialised(signature, layout, old(buffer.data));
      && buffer.data == rest
      && match r
         case Err(e) => expected == Err(e)
         case Ok(None) => expected == Ok(None)
         case Ok(Some(params)) => expected == Ok(Some(Snapshots(params))) && forall p :: p in params ==> fresh(p)
  {
    var head := buffer.Pop(4);
    if FromBigEndian(head) != signature {
      return Ok(None);
    }
    var error, params := ParseParams(layout, buffer);
    r := if error.Some? then Err(error.value) else Ok(Some(params));
  }

  // ----- round trip ---------------------------------------------------------------------------

  /** The setting that is used for a name. */
  function First(settings: seq<Setting>, name: string): (r: Option<Setting>)
    ensures r.Some? ==> r.value in settings && r.value.name == name
    ensures r.None? ==> forall s :: s in settings ==> s.name != name
  {
    if settings == [] then None
    else
      var n := |settings| - 1;
      match First(settings[..n], name)
      case Some(s) => Some(s)
      case None => if settings[n].name == name then Some(settings[n]) else None
  }

  predicate Has(settings: seq<Setting>, entry: Entry) {
    First(settings, entry.name).Some? && First(settings, entry.name).value.kind == entry.kind
  }

  /** There is a setting for every line of the layout, of the same kind. */
  predicate Covers(settings: seq<Setting>, layout: seq<Entry>) {
    layout == [] || (Has(settings, layout[0]) && Covers(settings, layout[1..]))
  }

  function NormalisedSetting(settings: seq<Setting>, entry: Entry): Setting
    requires Has(settings, entry)
  {
    Setting(entry.name, entry.kind, Normalised(entry.kind, First(settings, entry.name).value.value))
  }

  /** The settings in layout order, each normalised by its kind. */
  function InLayoutOrder(settings: seq<Setting>, layout: seq<Entry>): seq<Setting>
    requires Covers(settings, layout)
  {
    if layout == [] then [] else [NormalisedSetting(settings, layout[0])] + InLayoutOrder(settings, layout[1..])
  }

  lemma {:induction false} NamedIsFirst(settings: seq<Setting>, name: string)
    requires SerialiseNamed(settings, name).Ok?
    ensures match First(settings, name)
            case None => SerialiseNamed(settings, name) == Ok(None)
            case Some(s) =>
              var b := SerialiseValue(s.kind, s.value);
              b.Ok? && SerialiseNamed(settings, name) == Ok(Some(b.value))
    decreases |settings|
  {
    if settings != [] {
      NamedIsFirst(settings[..|settings| - 1], name);
    }
  }

  /** Body, from the front. */
  lemma {:induction false} BodyCons(entry: Entry, layout: seq<Entry>, settings: seq<Setting>)
    requires Body([entry] + layout, settings).Ok?
    ensures SerialiseEntry(settings, entry.name).Ok? && Body(layout, settings).Ok?
    ensures Body([entry] + layout, settings).value
         == SerialiseEntry(settings, entry.name).value + Body(layout, settings).value
    decreases |layout|
  {
    var all := [entry] + layout;
    if layout == [] {
      assert all[..0] == [];
    } else {
      var n := |layout| - 1;
      assert all[..|all| - 1] == [entry] + layout[..n];
      BodyCons(entry, layout[..n], settings);
    }
  }

  lemma EntryRoundTrip(settings: seq<Setting>, entry: Entry, tail: bytes)
    requires SerialiseEntry(settings, entry.name).Ok? && Has(settings, entry)
    ensures var b, w := SerialiseEntry(settings, entry.name).value, Width(entry.kind);
      && Front(b + tail, w) == b && Behind(b + tail, w) == tail
      && DeserialiseValue(entry.kind, b) == Ok(NormalisedSetting(settings, entry).value)
  {
    NamedIsFirst(settings, entry.name);
    var s := First(settings, entry.name).value;
    ValueRoundTrip(s.kind, s.value);
  }

  lemma {:induction false} ParseCons(layout: seq<Entry>, b: bytes, v: Value, more: seq<Setting>, rest: bytes,
                                     tail: bytes)
    requires layout != [] && Behind(b, Width(layout[0].kind)) == rest
    requires DeserialiseValue(layout[0].kind, Front(b, Width(layout[0].kind))) == Ok(v)
    requires Parse(layout[1..], rest) == Parsed(Ok(more), tail)
    ensures Parse(layout, b) == Parsed(Ok([Setting(layout[0].name, layout[0].kind, v)] + more), tail)
  {
  }

  lemma {:induction false} BodySplits(layout: seq<Entry>, settings: seq<Setting>)
    requires layout != [] && Body(layout, settings).Ok?
    ensures SerialiseEntry(settings, layout[0].name).Ok? && Body(layout[1..], settings).Ok?
    ensures Body(layout, settings).value
         == SerialiseEntry(settings, layout[0].name).value + Body(layout[1..], settings).value
  {
    assert layout == [layout[0]] + layout[1..];
    BodyCons(layout[0], layout[1..], settings);
  }

  /** One line of the layout, given that the lines behind it round-trip. */
  lemma {:induction false} LineRoundTrip(layout: seq<Entry>, settings: seq<Setting>, body: bytes, more: seq<Setting>,
                                         tail: bytes)
    requires layout != [] && SerialiseEntry(settings, layout[0].name).Ok? && Has(settings, layout[0])
    requires Parse(layout[1..], body + tail) == Parsed(Ok(more), tail)
    ensures Parse(layout, SerialiseEntry(settings, layout[0].name).value + body + tail)
         == Parsed(Ok([NormalisedSetting(settings, layout[0])] + more), tail)
  {
    var b := SerialiseEntry(settings, layout[0].name).value;
    EntryRoundTrip(settings, layout[0], body + tail);
    assert b + body + tail == b + (body + tail);
    ParseCons(layout, b + (body + tail), NormalisedSetting(settings, layout[0]).value, more, body + tail, tail);
  }

  lemma {:induction false} BodyRoundTrip(layout: seq<Entry>, settings: seq<Setting>, tail: bytes)
    requires Body(layout, settings).Ok? && Covers(settings, layout)
    ensures Parse(layout, Body(layout, settings).value + tail) == Parsed(Ok(InLayoutOrder(settings, layout)), tail)
    decreases |layout|
  {
    if layout == [] {
      assert [] + tail == tail;
    } else {
      BodySplits(layout, settings);
      BodyRoundTrip(layout[1..], settings, tail);
      LineRoundTrip(layout, settings, Body(layout[1..], settings).value, InLayoutOrder(settings, layout[1..]), tail);
    }
  }

  /** A serialised configuration reads back as its settings in layout order, each
      normalised by its kind, and nothing more is taken from the buffer. */
  lemma {:induction false} ConfRoundTrip(signature: nat, layout: seq<Entry>, settings: seq<Setting>, tail: bytes)
    requires signature < Span(4) && Covers(settings, layout) && Serialised(signature, layout, settings).Ok?
    ensures Deserialised(signature, layout, Serialised(signature, layout, settings).value + tail)
         == (Ok(Some(InLayoutOrder(settings, layout))), tail)
  {
    var head, body := ToBigEndian(4, signature), Body(layout, settings).value;
    BigEndianRoundTrip(4, signature);
    assert head + body + tail == head + (body + tail);
    assert Front(head + (body + tail), 4) == head && Behind(head + (body + tail), 4) == body + tail;
    BodyRoundTrip(layout, settings, tail);
  }

  /** One blob is never taken for the other: reading under another signature gives
      nothing. */
  lemma OtherSignature(signature: nat, other: nat, layout: seq<Entry>, settings: seq<Setting>, otherLayout: seq<Entry>)
    requires signature < Span(4) && other != signature && Serialised(signature, layout, settings).Ok?
    ensures Deserialised(other, otherLayout, Serialised(signature, layout, settings).value).0 == Ok(None)
  {
    var head, body := ToBigEndian(4, signature), Body(layout, settings).value;
    BigEndianRoundTrip(4, signature);
    assert Front(head + body, 4) == head;
  }

  /** In particular the motor and the application configuration. */
  lemma BlobsAreDistinct(mcLayout: seq<Entry>, appLayout: seq<Entry>, settings: seq<Setting>)
    ensures var mc := Serialised(MCCONF_SIGNATURE, mcLayout, settings);
      mc.Ok? ==> Deserialised(APPCONF_SIGNATURE, appLayout, mc.value).0 == Ok(None)
    ensures var app := Serialised(APPCONF_SIGNATURE, appLayout, settings);
      app.Ok? ==> Deserialised(MCCONF_SIGNATURE, mcLayout, app.value).0 == Ok(None)
  {
    WordSpan();
    if Serialised(MCCONF_SIGNATURE, mcLayout, settings).Ok? {
      OtherSignature(MCCONF_SIGNATURE, APPCONF_SIGNATURE, mcLayout, settings, appLayout);
    }
    if Serialised(APPCONF_SIGNATURE, appLayout, settings).Ok? {
      OtherSignature(APPCONF_SIGNATURE, MCCONF_SIGNATURE, appLayout, settings, mcLayout);
    }
  }

  // ----- the order of the list --------------------------------------------------------------------

  predicate UniqueNames(settings: seq<Setting>) {
    forall i, j :: 0 <= i < j < |settings| ==> settings[i].name != settings[j].name
  }

  lemma {:induction false} NamedAbsent(settings: seq<Setting>, name: string)
    requires forall s :: s in settings ==> s.name != name
    ensures SerialiseNamed(settings, name) == Ok(None)
    decreases |settings|
  {
    if settings != [] {
      NamedAbsent(settings[..|settings| - 1], name);
    }
  }

  function AsNamed(s: Setting): Result<Option<bytes>, Error> {
    match SerialiseValue(s.kind, s.value)
    case Ok(b) => Ok(Some(b))
    case Err(e) => Err(e)
  }

  /** With unique names, what is serialised for a name does not depend on positions. */
  lemma {:induction false} NamedUnique(settings: seq<Setting>, i: nat)
    requires UniqueNames(settings) && i < |settings|
    ensures SerialiseNamed(settings, settings[i].name) == AsNamed(settings[i])
    decreases |settings|
  {
    var n := |settings| - 1;
    if i < n {
      NamedUnique(settings[..n], i);
    } else {
      NamedAbsent(settings[..n], settings[n].name);
    }
  }

  lemma {:induction false} SameNamed(a: seq<Setting>, b: seq<Setting>, name: string)
    requires UniqueNames(a) && UniqueNames(b) && multiset(a) == multiset(b)
    ensures SerialiseNamed(a, name) == SerialiseNamed(b, name)
  {
    assert forall s :: s in a ==> s in multiset(a);
    assert forall s :: s in b ==> s in multiset(b);
    if i :| 0 <= i < |a| && a[i].name == name {
      assert a[i] in a && a[i] in multiset(b);
      var j :| 0 <= j < |b| && b[j] == a[i];
      NamedUnique(a, i);
      NamedUnique(b, j);
    } else {
      NamedAbsent(a, name);
      NamedAbsent(b, name);
    }
  }

  /** With unique names, serialising gives the same bytes, or the same error, for
      every permutation of the parameter list. */
  lemma {:induction false} OrderIrrelevant(layout: seq<Entry>, a: seq<Setting>, b: seq<Setting>)
    requires UniqueNames(a) && UniqueNames(b) && multiset(a) == multiset(b)
    ensures Body(layout, a) == Body(layout, b)
    ensures forall signature :: Serialised(signature, layout, a) == Serialised(signature, layout, b)
    decreases |layout|
  {
    if layout != [] {
      var n := |layout| - 1;
      OrderIrrelevant(layout[..n], a, b);
      SameNamed(a, b, layout[n].name);
    }
  }
}
