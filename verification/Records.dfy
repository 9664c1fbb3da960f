/** What a reader makes of the records, bundles and arrays that other peers send: written field by field, read back. */
module Records {
  import opened Bytes
  import opened Varint
  import opened Frames
  import opened Values

  /** The text fields of a record in the order in which they are sent, and its flag byte where it has one. */
  datatype Row = Row(texts: seq<utf8>, flag: byte)

  predicate Fits(kind: RecordKind, row: Row) {
    && |row.texts| == (if kind.PeerRecord? then 3 else 2)
    && forall i :: 0 <= i < |row.texts| ==> |row.texts[i]| < I64
  }

  function EncodeRow(kind: RecordKind, row: Row): bytes {
    EncodeFrames(row.texts) + if kind.ProfileRecord? || kind.PeerRecord? then [row.flag] else []
  }

  /** The object a peer means by a record. */
  function Meant(kind: RecordKind, row: Row): Value
    requires Fits(kind, row)
  {
    match kind
    case ContactRecord => Obj(map["name" := Str(row.texts[0]), "pubkey" := Str(row.texts[1])])
    case ChannelRecord => Obj(map["name" := Str(row.texts[0]), "pubkey" := Str(row.texts[1])])
    case ProfileRecord =>
      Obj(map["name" := Str(row.texts[0]), "pubkey" := Str(row.texts[1]), "enabled" := Bool(row.flag == 1)])
    case PeerRecord =>
      Obj(map["name" := Str(row.texts[0]), "group" := Str(row.texts[1]), "uri" := Str(row.texts[2]),
              "enabled" := Bool(row.flag == 1)])
  }

  lemma {:induction false} BlocksAreRead(values: seq<bytes>, t: bytes)
    requires forall i :: 0 <= i < |values| ==> |values[i]| < I64
    ensures DecodeBlocks(|values|, EncodeFrames(values) + t) == Ok((values, |EncodeFrames(values)|))
  {
    hide EncodeBlock, DecodeBlock;
    if values != [] {
      var rest := EncodeFrames(values[1..]) + t;
      var s := EncodeFrames(values) + t;
      DecodeAfterEncodeBlock(values[0], rest);
      BlocksAreRead(values[1..], t);
      assert s == EncodeBlock(values[0]) + rest;
      assert s[|EncodeBlock(values[0])|..] == rest;
      assert [values[0]] + values[1..] == values;
    }
  }

  lemma {:induction false} TextsAreText(values: seq<utf8>)
    ensures AllText(values) == Ok(values)
  {
    hide ValidUtf8;
    if values != [] {
      TextsAreText(values[1..]);
      assert [values[0]] + values[1..] == values;
    }
  }

  /** A record is read as the object meant, field by field, and the reader stops where it ends. */
  lemma RecordIsRead(kind: RecordKind, row: Row, t: bytes)
    requires Fits(kind, row)
    ensures DecodeRecord(kind, EncodeRow(kind, row) + t) == Ok((Meant(kind, row), |EncodeRow(kind, row)|))
  {
    hide ValidUtf8, EncodeFrames, DecodeBlocks, AllText;
    var s := EncodeRow(kind, row) + t;
    var n := |EncodeFrames(row.texts)|;
    BlocksAreRead(row.texts, s[n..]);
    assert EncodeFrames(row.texts) + s[n..] == s;
    TextsAreText(row.texts);
    FieldsAreMeant(kind, row);
  }

  /** A record that breaks off anywhere, before its flag byte too, is an unexpected end. */
  lemma RecordCutShort(kind: RecordKind, row: Row, k: nat)
    requires Fits(kind, row) && k < |EncodeRow(kind, row)|
    ensures DecodeRecord(kind, EncodeRow(kind, row)[..k]) == Err(UnexpectedEof)
  {
    hide ValidUtf8, EncodeFrames, DecodeBlocks, AllText;
    var cut, frames := EncodeRow(kind, row)[..k], EncodeFrames(row.texts);
    FieldsAreMeant(kind, row);
    if k < |frames| {
      BlocksCutShort(row.texts, k);
      assert cut == frames[..k];
    } else {
      BlocksAreRead(row.texts, []);
      assert cut == frames + [];
    }
  }

  lemma {:induction false} BlocksCutShort(values: seq<bytes>, k: nat)
    requires forall i :: 0 <= i < |values| ==> |values[i]| < I64
    requires k < |EncodeFrames(values)|
    ensures DecodeBlocks(|values|, EncodeFrames(values)[..k]) == Err(UnexpectedEof)
  {
    hide EncodeBlock, DecodeBlock;
    var first, others := EncodeBlock(values[0]), EncodeFrames(values[1..]);
    var cut := EncodeFrames(values)[..k];
    if k < |first| {
      BlockCutShort(values[0], k);
      assert cut == first[..k];
    } else {
      var rest := others[..k - |first|];
      DecodeAfterEncodeBlock(values[0], rest);
      assert cut == first + rest && cut[|first|..] == rest;
      BlocksCutShort(values[1..], k - |first|);
    }
  }

  lemma FieldsAreMeant(kind: RecordKind, row: Row)
    requires Fits(kind, row)
    ensures |FieldNames(kind)| == |row.texts|
    ensures var fields := TextFields(FieldNames(kind), row.texts);
            Meant(kind, row) == Obj(if HasFlag(kind) then fields["enabled" := Bool(row.flag == 1)] else fields)
  {
    hide ValidUtf8;
    var names, texts := FieldNames(kind), row.texts;
    assert TextFields(names[2..], texts[2..])
        == if kind.PeerRecord? then map["uri" := Str(texts[2])] else map[] by {
      if kind.PeerRecord? {
        assert names[2..] == ["uri"] && texts[2..] == [texts[2]];
        assert TextFields([], []) == map[];
      }
    }
    assert names[1..][1..] == names[2..] && texts[1..][1..] == texts[2..];
    assert names[1..] != [] && names[1..][0] == names[1] && texts[1..][0] == texts[1];
    assert TextFields(names[1..], texts[1..]) == TextFields(names[2..], texts[2..])[names[1] := Str(texts[1])];
  }

  // ---- Behind their tags ----

  function RecordTag(kind: RecordKind): byte {
    match kind
    case ContactRecord => 0x30
    case ChannelRecord => 0x31
    case ProfileRecord => 0x32
    case PeerRecord => 0x33
  }

  function ArrayTag(kind: RecordKind): byte {
    RecordTag(kind) - 0x10
  }

  /** A tagged record is read as the object meant; bytes after its fields inside the block are ignored. */
  lemma TaggedRecordIsRead(libs: Libs, kind: RecordKind, row: Row, extra: bytes, t: bytes)
    requires Fits(kind, row) && |EncodeRow(kind, row) + extra| < I64
    ensures var block := EncodeBlock(EncodeRow(kind, row) + extra);
            Deserialize(libs, [RecordTag(kind)] + block + t) == Ok((Meant(kind, row), 1 + |block|))
  {
    hide EncodeBlock, DecodeBlock, EncodeRow, DecodeRecord, Meant, ValidUtf8;
    var data := EncodeRow(kind, row) + extra;
    RecordIsRead(kind, row, extra);
    DecodeAfterEncodeBlock(data, t);
    assert ([RecordTag(kind)] + EncodeBlock(data) + t)[1..] == EncodeBlock(data) + t;
  }

  /** A tagged bundle is read as its data and its signed time. */
  lemma TaggedBundleIsRead(libs: Libs, blob: bytes, time: i64, extra: bytes, t: bytes)
    requires |EncodeBlock(blob)| + 8 + |extra| < I64
    ensures var data := EncodeBlock(blob) + BigEndian(if time < 0 then time + U64 else time, 8) + extra;
            Deserialize(libs, [0x40] + EncodeBlock(data) + t)
            == Ok((Obj(map["data" := Str(libs.base64(blob)), "time" := Num(Int(time))]), 1 + |EncodeBlock(data)|))
  {
    hide EncodeBlock, DecodeBlock, BigEndian, FromBigEndian, ValidUtf8;
    var n: u64 := if time < 0 then time + U64 else time;
    var data := EncodeBlock(blob) + BigEndian(n, 8) + extra;
    DecodeAfterEncodeBlock(data, t);
    assert ([0x40] + EncodeBlock(data) + t)[1..] == EncodeBlock(data) + t;
    DecodeAfterEncodeBlock(blob, BigEndian(n, 8) + extra);
    assert data == EncodeBlock(blob) + (BigEndian(n, 8) + extra);
    Pow256Values();
    BigEndianRoundTrip(n, 8);
    assert data[|EncodeBlock(blob)|..][..8] == BigEndian(n, 8);
  }

  // ---- Arrays ----

  function Concat(parts: seq<bytes>): bytes {
    if parts == [] then [] else parts[0] + Concat(parts[1..])
  }

  /** The part is read as the item, whatever follows it. */
  ghost predicate ReadsAs(libs: Libs, kind: ItemKind, part: bytes, item: Value) {
    forall t: bytes :: DeserializeItem(libs, kind, part + t) == Ok((item, |part|))
  }

  ghost predicate AllReadAs(libs: Libs, kind: ItemKind, parts: seq<bytes>, items: seq<Value>) {
    |parts| == |items| && forall i :: 0 <= i < |parts| ==> ReadsAs(libs, kind, parts[i], items[i])
  }

  lemma ItemIsRead(libs: Libs, kind: ItemKind, part: bytes, item: Value, rest: bytes)
    requires ReadsAs(libs, kind, part, item)
    ensures DeserializeItem(libs, kind, part + rest) == Ok((item, |part|))
  {
  }

  lemma {:induction false} ItemsAreRead(libs: Libs, kind: ItemKind, parts: seq<bytes>, items: seq<Value>, t: bytes)
    requires AllReadAs(libs, kind, parts, items)
    ensures DeserializeItems(libs, kind, |parts|, Concat(parts) + t) == Ok((items, |Concat(parts)|))
  {
    hide DeserializeItem, DeserializeItems, ReadsAs, Concat, ValidUtf8;
    if parts == [] {
      NoItems(libs, kind, t);
    } else {
      FirstPart(parts, t);
      ItemIsRead(libs, kind, parts[0], items[0], Concat(parts[1..]) + t);
      ItemsAreRead(libs, kind, parts[1..], items[1..], t);
      ItemThenMore(libs, kind, |parts|, Concat(parts) + t);
      assert [items[0]] + items[1..] == items;
    }
  }

  lemma NoItems(libs: Libs, kind: ItemKind, t: bytes)
    ensures DeserializeItems(libs, kind, 0, t) == Ok(([], 0)) && Concat([]) + t == t && |Concat([])| == 0
  {
  }

  lemma ItemThenMore(libs: Libs, kind: ItemKind, count: nat, s: bytes)
    requires count > 0 && DeserializeItem(libs, kind, s).Ok?
    requires DeserializeItems(libs, kind, count - 1, s[DeserializeItem(libs, kind, s).value.1..]).Ok?
    ensures var (first, n) := DeserializeItem(libs, kind, s).value;
            var (others, m) := DeserializeItems(libs, kind, count - 1, s[n..]).value;
            DeserializeItems(libs, kind, count, s) == Ok(([first] + others, n + m))
  {
    hide DeserializeItem, ValidUtf8;
  }

  lemma FirstPart(parts: seq<bytes>, t: bytes)
    requires parts != []
    ensures var s, rest := Concat(parts) + t, Concat(parts[1..]) + t;
            s == parts[0] + rest && s[|parts[0]|..] == rest && |Concat(parts)| == |parts[0]| + |Concat(parts[1..])|
  {
  }

  /** An array of any tag is read item by item; bytes after the last item inside the block are ignored. */
  lemma TaggedArrayIsRead(
      libs: Libs, tag: byte, kind: ItemKind, parts: seq<bytes>, items: seq<Value>, extra: bytes, t: bytes)
    requires ShapeOf(tag) == ArrayShape(kind) && AllReadAs(libs, kind, parts, items)
    requires |parts| < I64 && |EncodeVarint(|parts|) + Concat(parts) + extra| < I64
    ensures var block := EncodeBlock(EncodeVarint(|parts|) + Concat(parts) + extra);
            Deserialize(libs, [tag] + block + t) == Ok((Arr(items), 1 + |block|))
  {
    hide EncodeBlock, DecodeBlock, EncodeVarint, DecodeVarint, DeserializeItems, DeserializeItem;
    hide Concat, ShapeOf, AllReadAs, ValidUtf8;
    var data := EncodeVarint(|parts|) + Concat(parts) + extra;
    DecodeAfterEncodeBlock(data, t);
    assert ([tag] + EncodeBlock(data) + t)[1..] == EncodeBlock(data) + t;
    DecodeAfterEncode(|parts|, Concat(parts) + extra);
    assert data == EncodeVarint(|parts|) + (Concat(parts) + extra);
    assert data[|EncodeVarint(|parts|)|..] == Concat(parts) + extra;
    ItemsAreRead(libs, kind, parts, items, extra);
    assert DecodeArray(libs, kind, EncodeBlock(data) + t) == Ok((Arr(items), |EncodeBlock(data)|));
  }

  /** So the record arrays arrive as the objects meant, in order. */
  lemma RecordArrayIsRead(libs: Libs, kind: RecordKind, rows: seq<Row>, t: bytes)
    requires forall i :: 0 <= i < |rows| ==> Fits(kind, rows[i])
    requires var parts := seq(|rows|, i requires 0 <= i < |rows| => EncodeRow(kind, rows[i]));
             |rows| < I64 && |EncodeVarint(|rows|) + Concat(parts)| < I64
    ensures var parts := seq(|rows|, i requires 0 <= i < |rows| => EncodeRow(kind, rows[i]));
            var block := EncodeBlock(EncodeVarint(|rows|) + Concat(parts));
            Deserialize(libs, [ArrayTag(kind)] + block + t)
            == Ok((Arr(seq(|rows|, i requires 0 <= i < |rows| => Meant(kind, rows[i]))), 1 + |block|))
  {
    hide EncodeBlock, EncodeVarint, Deserialize, DecodeRecord, Concat, EncodeRow, Meant, ValidUtf8;
    var parts := seq(|rows|, i requires 0 <= i < |rows| => EncodeRow(kind, rows[i]));
    var items := seq(|rows|, i requires 0 <= i < |rows| => Meant(kind, rows[i]));
    forall i | 0 <= i < |parts|
      ensures ReadsAs(libs, RecordItem(kind), parts[i], items[i])
    {
      forall u: bytes
        ensures DeserializeItem(libs, RecordItem(kind), parts[i] + u) == Ok((items[i], |parts[i]|))
      {
        RecordIsRead(kind, rows[i], u);
      }
    }
    assert EncodeVarint(|rows|) + Concat(parts) + [] == EncodeVarint(|rows|) + Concat(parts);
    TaggedArrayIsRead(libs, ArrayTag(kind), RecordItem(kind), parts, items, [], t);
  }

  /** And an array of byte strings arrives as their base64 texts, in order. */
  lemma BlobArrayIsRead(libs: Libs, blobs: seq<bytes>, t: bytes)
    requires forall i :: 0 <= i < |blobs| ==> |blobs[i]| < I64
    requires |blobs| < I64 && |EncodeVarint(|blobs|) + EncodeFrames(blobs)| < I64
    ensures var block := EncodeBlock(EncodeVarint(|blobs|) + EncodeFrames(blobs));
            Deserialize(libs, [0x06] + block + t)
            == Ok((Arr(seq(|blobs|, i requires 0 <= i < |blobs| => Str(libs.base64(blobs[i])))), 1 + |block|))
  {
    hide EncodeBlock, DecodeBlock, EncodeVarint, Deserialize, Concat, EncodeFrames, ValidUtf8;
    var parts := seq(|blobs|, i requires 0 <= i < |blobs| => EncodeBlock(blobs[i]));
    var items := seq(|blobs|, i requires 0 <= i < |blobs| => Str(libs.base64(blobs[i])));
    forall i | 0 <= i < |parts|
      ensures ReadsAs(libs, BlobItem, parts[i], items[i])
    {
      forall u: bytes
        ensures DeserializeItem(libs, BlobItem, parts[i] + u) == Ok((items[i], |parts[i]|))
      {
        DecodeAfterEncodeBlock(blobs[i], u);
      }
    }
    FramesAreParts(blobs);
    assert EncodeVarint(|blobs|) + Concat(parts) + [] == EncodeVarint(|blobs|) + EncodeFrames(blobs);
    TaggedArrayIsRead(libs, 0x06, BlobItem, parts, items, [], t);
  }

  lemma {:induction false} FramesAreParts(blobs: seq<bytes>)
    ensures Concat(seq(|blobs|, i requires 0 <= i < |blobs| => EncodeBlock(blobs[i]))) == EncodeFrames(blobs)
  {
    var parts := seq(|blobs|, i requires 0 <= i < |blobs| => EncodeBlock(blobs[i]));
    hide EncodeBlock;
    if blobs != [] {
      FramesAreParts(blobs[1..]);
      assert parts[1..] == seq(|blobs[1..]|, i requires 0 <= i < |blobs[1..]| => EncodeBlock(blobs[1..][i]));
    }
  }
}
