/** The recursive writer and reader of RPC values, step by step on a buffer and a cursor. */
module ValueCodec {
  import opened Bytes
  import opened Cursors
  import opened Varint
  import opened Frames
  import opened Values

  // ---- Writing ----

  /** What a failed write leaves in the buffer: the tag of the array whose item failed. */
  function Residue(v: Value): bytes {
    if v.Arr? then [0x07] else []
  }

  method WriteValue(libs: Libs, w: Buffer, v: Value) returns (r: Result<()>)
    modifies w
    ensures match Serialize(libs, v)
            case Ok(b) => r == Ok(()) && w.data == old(w.data) + b
            case Err(e) => r == Err(e) && w.data == old(w.data) + Residue(v)
    decreases v, 1
  {
    hide EncodeVarint;
    r := Ok(());
    match v
    case Null =>
      w.Push(0x01);
    case Num(Int(i)) =>
      if i < I64 {
        w.Push(0x02);
        w.Append(BigEndian(if i < 0 then i + U64 else i, 8));
      } else {
        w.Push(0x03);
        w.Append(BigEndian(i, 8));
      }
    case Num(Float(_)) =>
      return Err(UnsupportedNumber);
    case Str(s) =>
      w.Push(0x04);
      WriteBlock(w, s);
    case Arr(items) =>
      w.Push(0x07);
      var inner := new Buffer();
      r := WriteItems(libs, inner, items);
      if r.Err? {
        return;
      }
      WriteBlock(w, inner.data);
    case Bool(_) =>
      w.Push(0x04);
      WriteBlock(w, libs.json(v));
    case Obj(_) =>
      w.Push(0x04);
      WriteBlock(w, libs.json(v));
  }

  /** Fills the inner block of an array: the item count, then the items. */
  method WriteItems(libs: Libs, inner: Buffer, items: seq<Value>) returns (r: Result<()>)
    modifies inner
    ensures match SerializeAll(libs, items)
            case Ok(b) => r == Ok(()) && inner.data == old(inner.data) + (EncodeVarint(|items| % U64) + b)
            case Err(e) => r == Err(e)
    decreases items, 0
  {
    hide EncodeVarint;
    var len := VarintEncode(|items| % U64);
    inner.Append(len);
    ghost var written: bytes := [];
    assert items[0..] == items;
    PrefixedNothing(SerializeAll(libs, items));
    for i := 0 to |items|
      invariant inner.data == old(inner.data) + len + written
      invariant SerializeAll(libs, items) == Prefixed(written, SerializeAll(libs, items[i..]))
    {
      var item := WriteValue(libs, inner, items[i]);
      if item.Err? {
        return Err(item.error);
      }
      ghost var b := Serialize(libs, items[i]).value;
      assert items[i..][1..] == items[i + 1..];
      PrefixedTwice(written, b, SerializeAll(libs, items[i + 1..]));
      written := written + b;
    }
    assert written + [] == written;
    r := Ok(());
  }

  lemma PrefixedNothing(rest: Result<bytes>)
    ensures Prefixed([], rest) == rest
  {
    if rest.Ok? {
      assert [] + rest.value == rest.value;
    }
  }

  lemma PrefixedTwice(a: bytes, b: bytes, rest: Result<bytes>)
    ensures Prefixed(a, Prefixed(b, rest)) == Prefixed(a + b, rest)
  {
    if rest.Ok? {
      assert a + (b + rest.value) == a + b + rest.value;
    }
  }

  ghost function Prefixed(written: bytes, rest: Result<bytes>): Result<bytes> {
    match rest
    case Ok(b) => Ok(written + b)
    case Err(e) => Err(e)
  }

  // ---- Reading ----

  /** How a method's result and cursor movement agree with a specification on the unread bytes. */
  ghost predicate Agrees<T>(spec: Result<(T, nat)>, v: Result<T>, before: bytes, after: bytes) {
    match spec
    case Ok((x, n)) => v == Ok(x) && n <= |before| && after == before[n..]
    case Err(e) => v == Err(e)
  }

  method ReadFixed(r: Cursor) returns (v: Result<u64>)
    requires r.Valid()
    modifies r
    ensures r.Valid()
    ensures v == DecodeFixed(old(r.Rest()))
    ensures v.Ok? ==> r.Rest() == old(r.Rest())[8..]
  {
    ghost var s := r.Rest();
    var raw := r.ReadExact(8);
    if raw.Err? {
      return Err(raw.error);
    }
    FromBigEndianBound(raw.value);
    Pow256Values();
    v := Ok(FromBigEndian(raw.value));
  }

  method ReadBlocks(k: nat, r: Cursor) returns (v: Result<seq<bytes>>)
    requires r.Valid()
    modifies r
    ensures r.Valid()
    ensures Agrees(DecodeBlocks(k, old(r.Rest())), v, old(r.Rest()), r.Rest())
  {
    hide DecodeBlock, DecodeBlocks, After;
    ghost var s := r.Rest();
    var blocks: seq<bytes> := [];
    ghost var n: nat := 0;
    AfterNothing(DecodeBlocks(k, s));
    for i := 0 to k
      invariant r.Valid() && n <= |s| && r.Rest() == s[n..]
      invariant DecodeBlocks(k, s) == After(blocks, n, DecodeBlocks(k - i, s[n..]))
    {
      BlocksStep(k - i - 1, s, n, blocks);
      var block := ReadBlock(r);
      if block.Err? {
        return Err(block.error);
      }
      n := n + DecodeBlock(s[n..]).value.1;
      blocks := blocks + [block.value];
    }
    BlocksDone(s[n..], n, blocks);
    v := Ok(blocks);
  }

  lemma BlocksDone(s: bytes, n: nat, done: seq<bytes>)
    ensures After(done, n, DecodeBlocks(0, s)) == Ok((done, n))
  {
    assert done + [] == done;
  }

  /** One turn of the loop over blocks. */
  lemma BlocksStep(k: nat, s: bytes, n: nat, done: seq<bytes>)
    requires n <= |s|
    ensures match DecodeBlock(s[n..])
            case Ok((b, m)) => After(done, n, DecodeBlocks(k + 1, s[n..]))
                            == After(done + [b], n + m, DecodeBlocks(k, s[n + m..]))
            case Err(e) => After(done, n, DecodeBlocks(k + 1, s[n..])) == Err(e)
  {
    hide DecodeBlock;
    if DecodeBlock(s[n..]).Ok? {
      var (b, m) := DecodeBlock(s[n..]).value;
      assert s[n..][m..] == s[n + m..];
      AfterTwice(done, n, b, m, DecodeBlocks(k, s[n + m..]));
    }
  }

  /** The result of a loop that has `done` behind it, n bytes read, and `rest` before it. */
  ghost function After<T>(done: seq<T>, n: nat, rest: Result<(seq<T>, nat)>): Result<(seq<T>, nat)> {
    match rest
    case Ok((others, m)) => Ok((done + others, n + m))
    case Err(e) => Err(e)
  }

  lemma AfterNothing<T>(rest: Result<(seq<T>, nat)>)
    ensures After([], 0, rest) == rest
  {
    if rest.Ok? {
      assert [] + rest.value.0 == rest.value.0;
    }
  }

  lemma AfterTwice<T>(done: seq<T>, n: nat, next: T, m: nat, rest: Result<(seq<T>, nat)>)
    ensures After(done, n, After([next], m, rest)) == After(done + [next], n + m, rest)
  {
    if rest.Ok? {
      assert done + ([next] + rest.value.0) == done + [next] + rest.value.0;
    }
  }

  method ReadRecord(kind: RecordKind, r: Cursor) returns (v: Result<Value>)
    requires r.Valid()
    modifies r
    ensures r.Valid()
    ensures Agrees(DecodeRecord(kind, old(r.Rest())), v, old(r.Rest()), r.Rest())
  {
    ghost var s := r.Rest();
    var names := FieldNames(kind);
    var blocks := ReadBlocks(|names|, r);
    if blocks.Err? {
      return Err(blocks.error);
    }
    var flag: Result<byte> := Ok(0);
    if HasFlag(kind) {
      flag := r.ReadU8();
      if flag.Err? {
        return Err(flag.error);
      }
    }
    var texts := AllText(blocks.value);
    if texts.Err? {
      return Err(texts.error);
    }
    var fields := TextFields(names, texts.value);
    if HasFlag(kind) {
      fields := fields["enabled" := Bool(flag.value == 1)];
    }
    v := Ok(Obj(fields));
  }

  method ReadBundle(libs: Libs, data: bytes) returns (v: Result<Value>)
    ensures v == DecodeBundle(libs, data)
  {
    var cursor := new Cursor(data);
    var blob := ReadBlock(cursor);
    if blob.Err? {
      return Err(blob.error);
    }
    var time := ReadFixed(cursor);
    if time.Err? {
      return Err(time.error);
    }
    v := Ok(Obj(map["data" := Str(libs.base64(blob.value)), "time" := Num(Int(AsI64(time.value)))]));
  }

  method ReadScalar(libs: Libs, shape: Shape, r: Cursor) returns (v: Result<Value>)
    requires r.Valid() && !shape.ArrayShape?
    modifies r
    ensures r.Valid()
    ensures Agrees(DecodeScalar(libs, shape, old(r.Rest())), v, old(r.Rest()), r.Rest())
  {
    if shape.NullShape? {
      return Ok(Null);
    }
    if shape.SignedShape? || shape.UnsignedShape? {
      var n := ReadFixed(r);
      if n.Err? {
        return Err(n.error);
      }
      return Ok(Num(Int(if shape.SignedShape? then AsI64(n.value) else n.value)));
    }
    var data := ReadBlock(r);
    if data.Err? {
      return Err(data.error);
    }
    v := Interpret(libs, shape, data.value);
  }

  /** Shapes whose bytes all sit in one block. */
  method Interpret(libs: Libs, shape: Shape, data: bytes) returns (v: Result<Value>)
    requires shape.TextShape? || shape.BlobShape? || shape.RecordShape? || shape.BundleShape?
    ensures forall s: bytes :: DecodeBlock(s).Ok? && DecodeBlock(s).value.0 == data ==>
              match DecodeScalar(libs, shape, s)
              case Ok((x, n)) => v == Ok(x) && n == DecodeBlock(s).value.1
              case Err(e) => v == Err(e)
  {
    match shape
    case TextShape =>
      var text := AsText(data);
      v := if text.Ok? then Ok(Str(text.value)) else Err(text.error);
    case BlobShape =>
      v := Ok(Str(libs.base64(data)));
    case RecordShape(kind) =>
      var cursor := new Cursor(data);
      v := ReadRecord(kind, cursor);
    case BundleShape =>
      v := ReadBundle(libs, data);
  }

  method ReadValue(libs: Libs, r: Cursor) returns (v: Result<Value>)
    requires r.Valid()
    modifies r
    ensures r.Valid()
    ensures Agrees(Deserialize(libs, old(r.Rest())), v, old(r.Rest()), r.Rest())
    decreases |r.Rest()|, 1
  {
    hide DecodeScalar, DecodeArray, ShapeOf, ValidUtf8;
    ghost var s := r.Rest();
    var tag := r.ReadU8();
    if tag.Err? {
      return Err(tag.error);
    }
    var shape := ShapeOf(tag.value);
    if shape.ArrayShape? {
      v := ReadArray(libs, shape.item, r);
    } else {
      v := ReadScalar(libs, shape, r);
    }
  }

  /** The array tags: a block that holds a count and the items. */
  method ReadArray(libs: Libs, kind: ItemKind, r: Cursor) returns (v: Result<Value>)
    requires r.Valid()
    modifies r
    ensures r.Valid()
    ensures Agrees(DecodeArray(libs, kind, old(r.Rest())), v, old(r.Rest()), r.Rest())
    decreases |r.Rest()|, 5
  {
    hide DecodeVarint, DecodeBlock, DeserializeItems, ValidUtf8;
    var data := ReadBlock(r);
    if data.Err? {
      return Err(data.error);
    }
    var cursor := new Cursor(data.value);
    var len := VarintDecode(cursor);
    if len.Err? {
      return Err(len.error);
    }
    var items := ReadItems(libs, kind, len.value.0, cursor);
    v := if items.Ok? then Ok(Arr(items.value)) else Err(items.error);
  }

  method ReadItem(libs: Libs, kind: ItemKind, r: Cursor) returns (v: Result<Value>)
    requires r.Valid()
    modifies r
    ensures r.Valid()
    ensures Agrees(DeserializeItem(libs, kind, old(r.Rest())), v, old(r.Rest()), r.Rest())
    decreases |r.Rest()|, 2
  {
    match kind
    case AnyItem =>
      v := ReadValue(libs, r);
    case BlobItem =>
      var data := ReadBlock(r);
      v := if data.Ok? then Ok(Str(libs.base64(data.value))) else Err(data.error);
    case RecordItem(record) =>
      v := ReadRecord(record, r);
  }

  method ReadItems(libs: Libs, kind: ItemKind, count: nat, r: Cursor) returns (v: Result<seq<Value>>)
    requires r.Valid()
    modifies r
    ensures r.Valid()
    ensures Agrees(DeserializeItems(libs, kind, count, old(r.Rest())), v, old(r.Rest()), r.Rest())
    decreases |r.Rest()|, 3
  {
    hide DeserializeItem, DeserializeItems, After;
    ghost var s := r.Rest();
    var items: seq<Value> := [];
    ghost var n: nat := 0;
    AfterNothing(DeserializeItems(libs, kind, count, s));
    for i := 0 to count
      invariant r.Valid() && n <= |s| && r.Rest() == s[n..]
      invariant DeserializeItems(libs, kind, count, s)
             == After(items, n, DeserializeItems(libs, kind, count - i, s[n..]))
    {
      ItemsStep(libs, kind, count - i - 1, s, n, items);
      var item := ReadItem(libs, kind, r);
      if item.Err? {
        return Err(item.error);
      }
      n := n + DeserializeItem(libs, kind, s[n..]).value.1;
      items := items + [item.value];
    }
    ItemsDone(libs, kind, s[n..], n, items);
    v := Ok(items);
  }

  lemma ItemsDone(libs: Libs, kind: ItemKind, s: bytes, n: nat, done: seq<Value>)
    ensures After(done, n, DeserializeItems(libs, kind, 0, s)) == Ok((done, n))
  {
    assert done + [] == done;
  }

  /** One turn of the loop over array items. */
  lemma ItemsStep(libs: Libs, kind: ItemKind, k: nat, s: bytes, n: nat, done: seq<Value>)
    requires n <= |s|
    ensures match DeserializeItem(libs, kind, s[n..])
            case Ok((x, m)) => After(done, n, DeserializeItems(libs, kind, k + 1, s[n..]))
                            == After(done + [x], n + m, DeserializeItems(libs, kind, k, s[n + m..]))
            case Err(e) => After(done, n, DeserializeItems(libs, kind, k + 1, s[n..])) == Err(e)
  {
    hide DeserializeItem, ValidUtf8;
    if DeserializeItem(libs, kind, s[n..]).Ok? {
      var (x, m) := DeserializeItem(libs, kind, s[n..]).value;
      assert s[n..][m..] == s[n + m..];
      AfterTwice(done, n, x, m, DeserializeItems(libs, kind, k, s[n + m..]));
    }
  }
}
