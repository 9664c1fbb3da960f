/** The tagged binary format of RPC values: what is written for a value and what is read from bytes. */
module Values {
  import opened Bytes
  import opened Varint
  import opened Frames

  /** The integers a JSON number can hold without becoming a float. */
  type jsonInt = n: int | -I64 <= n < U64

  datatype Number = Int(i: jsonInt) | Float(bits: u64)

  datatype Value =
    | Null
    | Bool(b: bool)
    | Num(n: Number)
    | Str(s: utf8)
    | Arr(items: seq<Value>)
    | Obj(fields: map<string, Value>)

  /** The library calls: the JSON text of a value, and base64. */
  datatype Libs = Libs(json: Value -> utf8, base64: bytes -> utf8)

  // ---- Writing ----

  function Serialize(libs: Libs, v: Value): (r: Result<bytes>)
    ensures r.Ok? ==> r.value != []
    decreases v, 1
  {
    match v
    case Null => Ok([0x01])
    case Num(Int(i)) =>
      if i < I64 then Ok([0x02] + BigEndian(if i < 0 then i + U64 else i, 8))
      else Ok([0x03] + BigEndian(i, 8))
    case Num(Float(_)) => Err(UnsupportedNumber)
    case Str(s) => Ok([0x04] + EncodeBlock(s))
    case Arr(items) =>
      var body :- SerializeAll(libs, items);
      Ok([0x07] + EncodeBlock(EncodeVarint(|items| % U64) + body))
    case Bool(_) => Ok([0x04] + EncodeBlock(libs.json(v)))
    case Obj(_) => Ok([0x04] + EncodeBlock(libs.json(v)))
  }

  function SerializeAll(libs: Libs, items: seq<Value>): (r: Result<bytes>)
    ensures r.Ok? ==> |r.value| >= |items|
    decreases items, 0
  {
    if items == [] then Ok([])
    else
      var first :- Serialize(libs, items[0]);
      var others :- SerializeAll(libs, items[1..]);
      Ok(first + others)
  }

  // ---- Reading ----

  /** The fixed-shape records: two strings, two strings and a flag, or three strings and a flag. */
  datatype RecordKind = ContactRecord | ChannelRecord | ProfileRecord | PeerRecord

  function FieldNames(kind: RecordKind): seq<string> {
    match kind
    case ContactRecord => ["name", "pubkey"]
    case ChannelRecord => ["name", "pubkey"]
    case ProfileRecord => ["name", "pubkey"]
    case PeerRecord => ["name", "group", "uri"]
  }

  predicate HasFlag(kind: RecordKind) {
    kind.ProfileRecord? || kind.PeerRecord?
  }

  /** What the elements of an array are read as. */
  datatype ItemKind = AnyItem | BlobItem | RecordItem(kind: RecordKind)

  /** What a tag byte announces. */
  datatype Shape =
    | NullShape
    | SignedShape
    | UnsignedShape
    | TextShape
    | BlobShape
    | ArrayShape(item: ItemKind)
    | RecordShape(kind: RecordKind)
    | BundleShape

  /** Tags without a reader of their own, the key tags among them, are read as strings. */
  function ShapeOf(tag: byte): Shape {
    if tag == 0x01 then NullShape
    else if tag == 0x02 then SignedShape
    else if tag == 0x03 then UnsignedShape
    else if tag == 0x05 then BlobShape
    else if tag == 0x06 then ArrayShape(BlobItem)
    else if tag == 0x07 then ArrayShape(AnyItem)
    else if tag == 0x20 then ArrayShape(RecordItem(ContactRecord))
    else if tag == 0x21 then ArrayShape(RecordItem(ChannelRecord))
    else if tag == 0x22 then ArrayShape(RecordItem(ProfileRecord))
    else if tag == 0x23 then ArrayShape(RecordItem(PeerRecord))
    else if tag == 0x30 then RecordShape(ContactRecord)
    else if tag == 0x31 then RecordShape(ChannelRecord)
    else if tag == 0x32 then RecordShape(ProfileRecord)
    else if tag == 0x33 then RecordShape(PeerRecord)
    else if tag == 0x40 then BundleShape
    else TextShape
  }

  function AsText(s: bytes): Result<utf8> {
    if ValidUtf8(s) then Ok(s) else Err(InvalidUtf8)
  }

  /** k blocks in a row and the number of bytes they take. */
  function DecodeBlocks(k: nat, s: bytes): (r: Result<(seq<bytes>, nat)>)
    ensures r.Ok? ==> |r.value.0| == k && k <= r.value.1 <= |s|
  {
    if k == 0 then Ok(([], 0))
    else
      var (first, n) :- DecodeBlock(s);
      var (others, m) :- DecodeBlocks(k - 1, s[n..]);
      Ok(([first] + others, n + m))
  }

  function AllText(blocks: seq<bytes>): (r: Result<seq<utf8>>)
    ensures r.Ok? ==> |r.value| == |blocks|
  {
    if blocks == [] then Ok([])
    else
      var first :- AsText(blocks[0]);
      var others :- AllText(blocks[1..]);
      Ok([first] + others)
  }

  function TextFields(names: seq<string>, values: seq<utf8>): map<string, Value>
    requires |names| == |values|
  {
    if names == [] then map[]
    else TextFields(names[1..], values[1..])[names[0] := Str(values[0])]
  }

  /** A record and the number of bytes it takes: all bytes are read before any text is checked. */
  function DecodeRecord(kind: RecordKind, s: bytes): (r: Result<(Value, nat)>)
    ensures r.Ok? ==> r.value.0.Obj? && 1 <= r.value.1 <= |s|
  {
    var names := FieldNames(kind);
    var (blocks, n) :- DecodeBlocks(|names|, s);
    if HasFlag(kind) then
      if n == |s| then Err(UnexpectedEof)
      else
        var texts :- AllText(blocks);
        Ok((Obj(TextFields(names, texts)["enabled" := Bool(s[n] == 1)]), n + 1))
    else
      var texts :- AllText(blocks);
      Ok((Obj(TextFields(names, texts)), n))
  }

  function DecodeFixed(s: bytes): (r: Result<u64>)
  {
    if |s| < 8 then Err(UnexpectedEof)
    else
      FromBigEndianBound(s[..8]);
      Pow256Values();
      Ok(FromBigEndian(s[..8]))
  }

  function DecodeBundle(libs: Libs, s: bytes): Result<Value> {
    var (blob, n) :- DecodeBlock(s);
    var time :- DecodeFixed(s[n..]);
    Ok(Obj(map["data" := Str(libs.base64(blob)), "time" := Num(Int(AsI64(time)))]))
  }

  /** What a tag other than an array tag announces, and the number of bytes after the tag. */
  function DecodeScalar(libs: Libs, shape: Shape, s: bytes): (r: Result<(Value, nat)>)
    requires !shape.ArrayShape?
    ensures r.Ok? ==> !r.value.0.Arr? && r.value.1 <= |s|
  {
    match shape
    case NullShape => Ok((Null, 0))
    case SignedShape =>
      var n :- DecodeFixed(s);
      Ok((Num(Int(AsI64(n))), 8))
    case UnsignedShape =>
      var n :- DecodeFixed(s);
      Ok((Num(Int(n)), 8))
    case TextShape =>
      var (data, n) :- DecodeBlock(s);
      var text :- AsText(data);
      Ok((Str(text), n))
    case BlobShape =>
      var (data, n) :- DecodeBlock(s);
      Ok((Str(libs.base64(data)), n))
    case RecordShape(kind) =>
      var (data, n) :- DecodeBlock(s);
      var (record, _) :- DecodeRecord(kind, data);
      Ok((record, n))
    case BundleShape =>
      var (data, n) :- DecodeBlock(s);
      var bundle :- DecodeBundle(libs, data);
      Ok((bundle, n))
  }

  /** The value at the head of s and the number of bytes it takes. */
  function Deserialize(libs: Libs, s: bytes): (r: Result<(Value, nat)>)
    ensures r.Ok? ==> 1 <= r.value.1 <= |s|
    decreases |s|, 1
  {
    if s == [] then Err(UnexpectedEof)
    else
      var shape := ShapeOf(s[0]);
      var (v, n) :-
        if shape.ArrayShape? then DecodeArray(libs, shape.item, s[1..]) else DecodeScalar(libs, shape, s[1..]);
      Ok((v, 1 + n))
  }

  /** What an array tag announces, and the number of bytes after the tag. */
  function DecodeArray(libs: Libs, kind: ItemKind, s: bytes): (r: Result<(Value, nat)>)
    ensures r.Ok? ==> r.value.0.Arr? && r.value.1 <= |s|
    decreases |s|, 5
  {
    var (data, n) :- DecodeBlock(s);
    var items :- DeserializeArray(libs, kind, data);
    Ok((Arr(items), n))
  }

  /** The inside of an array block: a count, then the items; bytes after the last item are ignored. */
  function DeserializeArray(libs: Libs, kind: ItemKind, data: bytes): (r: Result<seq<Value>>)
    decreases |data|, 4
  {
    var (len, k) :- DecodeVarint(data);
    var (items, _) :- DeserializeItems(libs, kind, len, data[k..]);
    Ok(items)
  }

  function DeserializeItem(libs: Libs, kind: ItemKind, s: bytes): (r: Result<(Value, nat)>)
    ensures r.Ok? ==> 1 <= r.value.1 <= |s|
    decreases |s|, 2
  {
    match kind
    case AnyItem => Deserialize(libs, s)
    case BlobItem =>
      var (data, n) :- DecodeBlock(s);
      Ok((Str(libs.base64(data)), n))
    case RecordItem(record) => DecodeRecord(record, s)
  }

  function DeserializeItems(libs: Libs, kind: ItemKind, count: nat, s: bytes): (r: Result<(seq<Value>, nat)>)
    ensures r.Ok? ==> |r.value.0| == count && count <= r.value.1 <= |s|
    decreases |s|, 3
  {
    if count == 0 then Ok(([], 0))
    else
      var (first, n) :- DeserializeItem(libs, kind, s);
      var (others, m) :- DeserializeItems(libs, kind, count - 1, s[n..]);
      Ok(([first] + others, n + m))
  }

  // ---- What survives the trip ----

  /** The value a peer receives: booleans and objects arrive as their JSON text. */
  function Norm(libs: Libs, v: Value): Value
    decreases v, 1
  {
    match v
    case Bool(_) => Str(libs.json(v))
    case Obj(_) => Str(libs.json(v))
    case Arr(items) => Arr(NormAll(libs, items))
    case _ => v
  }

  function NormAll(libs: Libs, items: seq<Value>): (r: seq<Value>)
    ensures |r| == |items|
    decreases items, 0
  {
    if items == [] then [] else [Norm(libs, items[0])] + NormAll(libs, items[1..])
  }

  /** A float at the top or inside nested arrays. */
  predicate HasFloat(v: Value) {
    match v
    case Num(Float(_)) => true
    case Arr(items) => exists i :: 0 <= i < |items| && HasFloat(items[i])
    case _ => false
  }

  /** Values in the result of a read, a record counted as one. */
  function Nodes(v: Value): (n: nat)
    decreases v, 1
  {
    if v.Arr? then 1 + AllNodes(v.items) else 1
  }

  function AllNodes(items: seq<Value>): (n: nat)
    decreases items, 0
  {
    if items == [] then 0 else Nodes(items[0]) + AllNodes(items[1..])
  }

  // ---- Main results ----

  /** Writing fails exactly on floats at the top or inside nested arrays. */
  lemma {:induction false} SerializeFailsOnFloats(libs: Libs, v: Value)
    ensures Serialize(libs, v).Err? <==> HasFloat(v)
    ensures Serialize(libs, v).Err? ==> Serialize(libs, v).error == UnsupportedNumber
    decreases v, 1
  {
    if v.Arr? {
      SerializeAllFailsOnFloats(libs, v.items);
    }
  }

  lemma {:induction false} SerializeAllFailsOnFloats(libs: Libs, items: seq<Value>)
    ensures SerializeAll(libs, items).Err? <==> exists i :: 0 <= i < |items| && HasFloat(items[i])
    ensures SerializeAll(libs, items).Err? ==> SerializeAll(libs, items).error == UnsupportedNumber
    decreases items, 0
  {
    if items != [] {
      SerializeFailsOnFloats(libs, items[0]);
      SerializeAllFailsOnFloats(libs, items[1..]);
      assert forall i :: 1 <= i < |items| ==> items[i] == items[1..][i - 1];
    }
  }

  lemma {:induction false} NormIdempotent(libs: Libs, v: Value)
    ensures Norm(libs, Norm(libs, v)) == Norm(libs, v)
    ensures Serialize(libs, Norm(libs, v)) == Serialize(libs, v)
    decreases v, 1
  {
    if v.Arr? {
      NormAllIdempotent(libs, v.items);
    }
  }

  lemma {:induction false} NormAllIdempotent(libs: Libs, items: seq<Value>)
    ensures NormAll(libs, NormAll(libs, items)) == NormAll(libs, items)
    ensures SerializeAll(libs, NormAll(libs, items)) == SerializeAll(libs, items)
    decreases items, 0
  {
    if items != [] {
      NormIdempotent(libs, items[0]);
      NormAllIdempotent(libs, items[1..]);
      assert NormAll(libs, items)[1..] == NormAll(libs, items[1..]);
    }
  }

  /**
   * Self-delimiting round trip: what was written for v, followed by anything, reads back as Norm(v) and the
   * reader stops exactly where the written bytes end. A byte vector is shorter than 2^64, hence the bound.
   */
  lemma {:induction false} RoundTrip(libs: Libs, v: Value, t: bytes)
    requires Serialize(libs, v).Ok? && |Serialize(libs, v).value| < I64
    ensures Deserialize(libs, Serialize(libs, v).value + t)
         == Ok((Norm(libs, v), |Serialize(libs, v).value|))
    decreases v, 1
  {
    hide EncodeBlock, NormAll, SerializeAll, Deserialize, ValidUtf8;
    match v
    case Null => NullRoundTrip(libs, t);
    case Num(Int(i)) => IntRoundTrip(libs, i, t);
    case Str(text) => TextRoundTrip(libs, text, t);
    case Bool(_) => TextRoundTrip(libs, libs.json(v), t);
    case Obj(_) => TextRoundTrip(libs, libs.json(v), t);
    case Arr(items) =>
      var inner := InnerBlock(libs, items);
      ItemsRoundTrip(libs, items, []);
      ArrayInnerRoundTrip(libs, items, SerializeAll(libs, items).value);
      ArrayRoundTrip(libs, NormAll(libs, items), inner, t);
  }

  lemma NullRoundTrip(libs: Libs, t: bytes)
    ensures Deserialize(libs, [0x01] + t) == Ok((Null, 1))
  {
    assert ([0x01] + t)[0] == 0x01;
  }

  /** The block written for an array, when it is short enough to exist. */
  lemma InnerBlock(libs: Libs, items: seq<Value>) returns (inner: bytes)
    requires Serialize(libs, Arr(items)).Ok? && |Serialize(libs, Arr(items)).value| < I64
    ensures SerializeAll(libs, items).Ok? && |SerializeAll(libs, items).value| < I64
    ensures inner == EncodeVarint(|items|) + SerializeAll(libs, items).value && |inner| < I64
    ensures Serialize(libs, Arr(items)).value == [0x07] + EncodeBlock(inner)
  {
    var body := SerializeAll(libs, items).value;
    inner := EncodeVarint(|items| % U64) + body;
    assert Serialize(libs, Arr(items)).value == [0x07] + EncodeBlock(inner);
    assert |items| <= |body| < |inner| < I64;
    assert |items| % U64 == |items|;
  }

  lemma ArrayRoundTrip(libs: Libs, items: seq<Value>, inner: bytes, t: bytes)
    requires |inner| < I64
    requires DeserializeArray(libs, AnyItem, inner) == Ok(items)
    ensures Deserialize(libs, [0x07] + EncodeBlock(inner) + t) == Ok((Arr(items), 1 + |EncodeBlock(inner)|))
  {
    hide EncodeBlock, DecodeBlock, Deserialize, DeserializeArray;
    DecodeAfterEncodeBlock(inner, t);
    DeserializeArrayTag(libs, EncodeBlock(inner) + t);
    assert [0x07] + (EncodeBlock(inner) + t) == [0x07] + EncodeBlock(inner) + t;
  }

  lemma DeserializeArrayTag(libs: Libs, rest: bytes)
    requires DecodeBlock(rest).Ok?
    requires DeserializeArray(libs, AnyItem, DecodeBlock(rest).value.0).Ok?
    ensures Deserialize(libs, [0x07] + rest)
         == Ok((Arr(DeserializeArray(libs, AnyItem, DecodeBlock(rest).value.0).value), 1 + DecodeBlock(rest).value.1))
  {
    hide DecodeBlock, DeserializeArray;
    assert ([0x07] + rest)[1..] == rest;
  }

  lemma ArrayInnerRoundTrip(libs: Libs, items: seq<Value>, body: bytes)
    requires |items| < I64
    requires DeserializeItems(libs, AnyItem, |items|, body + []) == Ok((NormAll(libs, items), |body|))
    ensures DeserializeArray(libs, AnyItem, EncodeVarint(|items|) + body) == Ok(NormAll(libs, items))
  {
    var prefix := EncodeVarint(|items|);
    DecodeAfterEncode(|items|, body);
    assert (prefix + body)[|prefix|..] == body + [];
  }

  lemma {:induction false} ItemsRoundTrip(libs: Libs, items: seq<Value>, t: bytes)
    requires SerializeAll(libs, items).Ok? && |SerializeAll(libs, items).value| < I64
    ensures DeserializeItems(libs, AnyItem, |items|, SerializeAll(libs, items).value + t)
         == Ok((NormAll(libs, items), |SerializeAll(libs, items).value|))
    decreases items, 0
  {
    if items != [] {
      hide Serialize, Deserialize, Norm;
      var first := Serialize(libs, items[0]).value;
      var others := SerializeAll(libs, items[1..]).value;
      var s := SerializeAll(libs, items).value + t;
      assert s == first + (others + t);
      RoundTrip(libs, items[0], others + t);
      ItemsRoundTrip(libs, items[1..], t);
      assert s[|first|..] == others + t;
    }
  }

  lemma IntRoundTrip(libs: Libs, i: jsonInt, t: bytes)
    ensures Serialize(libs, Num(Int(i))).Ok?
    ensures Deserialize(libs, Serialize(libs, Num(Int(i))).value + t) == Ok((Num(Int(i)), 9))
    ensures |Serialize(libs, Num(Int(i))).value| == 9
  {
    var n: u64 := if i < 0 then i + U64 else i;
    Pow256Values();
    BigEndianRoundTrip(n, 8);
    var s := Serialize(libs, Num(Int(i))).value + t;
    assert s[1..][..8] == BigEndian(n, 8);
  }

  lemma TextRoundTrip(libs: Libs, text: utf8, t: bytes)
    requires |EncodeBlock(text)| < I64
    ensures Deserialize(libs, [0x04] + EncodeBlock(text) + t) == Ok((Str(text), 1 + |EncodeBlock(text)|))
  {
    hide EncodeBlock, DecodeBlock, Deserialize, ValidUtf8;
    var rest := EncodeBlock(text) + t;
    DecodeAfterEncodeBlock(text, t);
    assert [0x04] + EncodeBlock(text) + t == [0x04] + rest;
    DeserializeTextTag(libs, rest, text);
  }

  lemma DeserializeTextTag(libs: Libs, rest: bytes, text: utf8)
    requires DecodeBlock(rest).Ok? && DecodeBlock(rest).value.0 == text
    ensures Deserialize(libs, [0x04] + rest) == Ok((Str(text), 1 + DecodeBlock(rest).value.1))
  {
    hide DecodeBlock, ValidUtf8;
    assert ([0x04] + rest)[1..] == rest;
  }

  /** No input yields more values than it has bytes consumed, whatever arrays it claims to hold. */
  lemma {:induction false} NodesAreBounded(libs: Libs, s: bytes)
    requires Deserialize(libs, s).Ok?
    ensures Nodes(Deserialize(libs, s).value.0) <= Deserialize(libs, s).value.1
    decreases |s|, 1
  {
    hide ShapeOf, DecodeArray, DecodeScalar, ValidUtf8;
    var shape := ShapeOf(s[0]);
    if shape.ArrayShape? {
      ArrayNodesAreBounded(libs, shape.item, s[1..]);
    }
  }

  lemma {:induction false} ArrayNodesAreBounded(libs: Libs, kind: ItemKind, s: bytes)
    requires DecodeArray(libs, kind, s).Ok?
    ensures Nodes(DecodeArray(libs, kind, s).value.0) <= 1 + DecodeArray(libs, kind, s).value.1
    decreases |s|, 5
  {
    hide DecodeBlock, DecodeVarint, DeserializeItems, ValidUtf8;
    var data := DecodeBlock(s).value.0;
    var (len, k) := DecodeVarint(data).value;
    ItemNodesAreBounded(libs, kind, len, data[k..]);
  }

  lemma {:induction false} OneItemIsBounded(libs: Libs, kind: ItemKind, s: bytes)
    requires DeserializeItem(libs, kind, s).Ok?
    ensures Nodes(DeserializeItem(libs, kind, s).value.0) <= DeserializeItem(libs, kind, s).value.1
    decreases |s|, 2
  {
    hide Deserialize, DecodeRecord, DecodeBlock, ValidUtf8;
    if kind.AnyItem? {
      NodesAreBounded(libs, s);
    }
  }

  lemma {:induction false} ItemNodesAreBounded(libs: Libs, kind: ItemKind, count: nat, s: bytes)
    requires DeserializeItems(libs, kind, count, s).Ok?
    ensures AllNodes(DeserializeItems(libs, kind, count, s).value.0) <= DeserializeItems(libs, kind, count, s).value.1
    decreases |s|, 3
  {
    hide DeserializeItem;
    if count > 0 {
      var (first, n) := DeserializeItem(libs, kind, s).value;
      OneItemIsBounded(libs, kind, s);
      ItemNodesAreBounded(libs, kind, count - 1, s[n..]);
      var items := DeserializeItems(libs, kind, count, s).value.0;
      assert items[1..] == DeserializeItems(libs, kind, count - 1, s[n..]).value.0;
    }
  }
}
