/** Which inputs make a value reader panic: those with a block on its way that claims 2^63 bytes or more. */
module Panics {
  import opened Bytes
  import opened Varint
  import opened Frames
  import opened Values
  import opened Envelopes

  // ---- The places where a block is read, in order, up to the first failure ----

  function BlocksOfFields(k: nat, s: bytes): seq<bytes> {
    if k == 0 then []
    else [s] + if DecodeBlock(s).Ok? then BlocksOfFields(k - 1, s[DecodeBlock(s).value.1..]) else []
  }

  function BlocksOfScalar(shape: Shape, s: bytes): seq<bytes>
    requires !shape.ArrayShape?
  {
    if shape.NullShape? || shape.SignedShape? || shape.UnsignedShape? then []
    else if DecodeBlock(s).Err? then [s]
    else
      var data := DecodeBlock(s).value.0;
      [s] + if shape.RecordShape? then BlocksOfFields(|FieldNames(shape.kind)|, data)
            else if shape.BundleShape? then [data]
            else []
  }

  function BlocksOfValue(libs: Libs, s: bytes): seq<bytes>
    decreases |s|, 1
  {
    if s == [] then []
    else
      var shape := ShapeOf(s[0]);
      if shape.ArrayShape? then BlocksOfArray(libs, shape.item, s[1..]) else BlocksOfScalar(shape, s[1..])
  }

  function BlocksOfArray(libs: Libs, kind: ItemKind, s: bytes): seq<bytes>
    decreases |s|, 5
  {
    if DecodeBlock(s).Err? || DecodeVarint(DecodeBlock(s).value.0).Err? then [s]
    else
      var data := DecodeBlock(s).value.0;
      var (len, k) := DecodeVarint(data).value;
      [s] + BlocksOfItems(libs, kind, len, data[k..])
  }

  function BlocksOfItem(libs: Libs, kind: ItemKind, s: bytes): seq<bytes>
    decreases |s|, 2
  {
    match kind
    case AnyItem => BlocksOfValue(libs, s)
    case BlobItem => [s]
    case RecordItem(record) => BlocksOfFields(|FieldNames(record)|, s)
  }

  function BlocksOfItems(libs: Libs, kind: ItemKind, count: nat, s: bytes): seq<bytes>
    decreases |s|, 3
  {
    if count == 0 then []
    else
      BlocksOfItem(libs, kind, s)
      + if DeserializeItem(libs, kind, s).Err? then []
        else BlocksOfItems(libs, kind, count - 1, s[DeserializeItem(libs, kind, s).value.1..])
  }

  predicate SomeOversized(blocks: seq<bytes>) {
    exists i :: 0 <= i < |blocks| && Oversized(blocks[i])
  }

  lemma OversizedInEither(a: seq<bytes>, b: seq<bytes>)
    ensures SomeOversized(a + b) <==> SomeOversized(a) || SomeOversized(b)
  {
    hide Oversized;
    if i :| 0 <= i < |a| && Oversized(a[i]) {
      assert Oversized((a + b)[i]);
    } else if j :| 0 <= j < |b| && Oversized(b[j]) {
      assert Oversized((a + b)[|a| + j]);
    }
  }

  lemma OneBlock(s: bytes)
    ensures SomeOversized([s]) <==> DecodeBlock(s) == Err(CapacityOverflow)
    ensures SomeOversized([]) <==> false
  {
    BlockPanics(s);
    hide Oversized, DecodeBlock;
    if Oversized(s) {
      assert Oversized([s][0]);
    }
  }

  lemma {:induction false} TextsNeverPanic(blocks: seq<bytes>)
    ensures AllText(blocks) != Err(CapacityOverflow)
  {
    hide ValidUtf8;
    if blocks != [] {
      TextsNeverPanic(blocks[1..]);
    }
  }

  lemma {:induction false} FieldsPanic(k: nat, s: bytes)
    ensures DecodeBlocks(k, s) == Err(CapacityOverflow) <==> SomeOversized(BlocksOfFields(k, s))
  {
    OneBlock(s);
    hide SomeOversized, DecodeBlock, Oversized;
    if k > 0 && DecodeBlock(s).Ok? {
      var rest := s[DecodeBlock(s).value.1..];
      FieldsPanic(k - 1, rest);
      OversizedInEither([s], BlocksOfFields(k - 1, rest));
    } else if k > 0 {
      assert [s] + [] == [s];
    }
  }

  lemma RecordPanics(kind: RecordKind, s: bytes)
    ensures DecodeRecord(kind, s) == Err(CapacityOverflow) <==> SomeOversized(BlocksOfFields(|FieldNames(kind)|, s))
  {
    var k := |FieldNames(kind)|;
    FieldsPanic(k, s);
    hide SomeOversized, BlocksOfFields, DecodeBlocks, AllText, FieldNames, ValidUtf8, TextFields;
    if DecodeBlocks(k, s).Ok? {
      TextsNeverPanic(DecodeBlocks(k, s).value.0);
    }
  }

  lemma ScalarPanics(libs: Libs, shape: Shape, s: bytes)
    requires !shape.ArrayShape?
    ensures DecodeScalar(libs, shape, s) == Err(CapacityOverflow) <==> SomeOversized(BlocksOfScalar(shape, s))
  {
    OneBlock(s);
    hide SomeOversized, DecodeBlock, DecodeRecord, BlocksOfFields, FieldNames, ValidUtf8, FromBigEndian;
    if DecodeBlock(s).Ok? {
      var data := DecodeBlock(s).value.0;
      assert [s] + [] == [s];
      if shape.RecordShape? {
        RecordPanics(shape.kind, data);
        OversizedInEither([s], BlocksOfFields(|FieldNames(shape.kind)|, data));
      } else if shape.BundleShape? {
        OneBlock(data);
        OversizedInEither([s], [data]);
      }
    }
  }

  /** Reading a value panics exactly when a block read on the way claims 2^63 bytes or more. */
  lemma {:induction false} ValuePanics(libs: Libs, s: bytes)
    ensures Deserialize(libs, s) == Err(CapacityOverflow) <==> SomeOversized(BlocksOfValue(libs, s))
    decreases |s|, 1
  {
    hide SomeOversized, DecodeScalar, DecodeArray, BlocksOfScalar, BlocksOfArray, ShapeOf;
    OneBlock(s);
    if s != [] {
      var shape := ShapeOf(s[0]);
      if shape.ArrayShape? {
        ArrayPanics(libs, shape.item, s[1..]);
      } else {
        ScalarPanics(libs, shape, s[1..]);
      }
    }
  }

  lemma {:induction false} ArrayPanics(libs: Libs, kind: ItemKind, s: bytes)
    ensures DecodeArray(libs, kind, s) == Err(CapacityOverflow) <==> SomeOversized(BlocksOfArray(libs, kind, s))
    decreases |s|, 5
  {
    hide SomeOversized, DecodeBlock, DecodeVarint, DeserializeItems, BlocksOfItems;
    OneBlock(s);
    if DecodeBlock(s).Ok? {
      var data := DecodeBlock(s).value.0;
      VarintNeverPanics(data);
      if DecodeVarint(data).Ok? {
        var (len, k) := DecodeVarint(data).value;
        ItemsPanic(libs, kind, len, data[k..]);
        OversizedInEither([s], BlocksOfItems(libs, kind, len, data[k..]));
      }
    }
  }

  lemma VarintNeverPanics(s: bytes)
    ensures DecodeVarint(s) != Err(CapacityOverflow)
  {
  }

  lemma {:induction false} ItemPanics(libs: Libs, kind: ItemKind, s: bytes)
    ensures DeserializeItem(libs, kind, s) == Err(CapacityOverflow) <==> SomeOversized(BlocksOfItem(libs, kind, s))
    decreases |s|, 2
  {
    hide SomeOversized, DecodeBlock, Deserialize, BlocksOfValue, DecodeRecord, BlocksOfFields;
    match kind
    case AnyItem => ValuePanics(libs, s);
    case BlobItem => OneBlock(s);
    case RecordItem(record) => RecordPanics(record, s);
  }

  lemma {:induction false} ItemsPanic(libs: Libs, kind: ItemKind, count: nat, s: bytes)
    ensures DeserializeItems(libs, kind, count, s) == Err(CapacityOverflow)
       <==> SomeOversized(BlocksOfItems(libs, kind, count, s))
    decreases |s|, 3
  {
    hide SomeOversized, DeserializeItem, BlocksOfItem;
    OneBlock(s);
    if count > 0 {
      ItemPanics(libs, kind, s);
      var here := BlocksOfItem(libs, kind, s);
      assert here + [] == here;
      if DeserializeItem(libs, kind, s).Ok? {
        var rest := s[DeserializeItem(libs, kind, s).value.1..];
        ItemsPanic(libs, kind, count - 1, rest);
        OversizedInEither(here, BlocksOfItems(libs, kind, count - 1, rest));
      }
    }
  }

  /** So does reading a call, behind its action byte. */
  lemma CallPanics(libs: Libs, data: bytes)
    ensures CallFromBytes(libs, data) == Err(CapacityOverflow)
       <==> |data| >= 2 && SomeOversized(BlocksOfValue(libs, data[1..]))
  {
    hide SomeOversized, Deserialize, BlocksOfValue;
    if |data| >= 2 {
      ValuePanics(libs, data[1..]);
    }
  }

  /** And reading a response, in either of its two values. */
  lemma ResponsePanics(libs: Libs, data: bytes)
    ensures ResponseFromBytes(libs, data) == Err(CapacityOverflow) <==>
              || SomeOversized(BlocksOfValue(libs, data))
              || (Deserialize(libs, data).Ok?
                  && SomeOversized(BlocksOfValue(libs, data[Deserialize(libs, data).value.1..])))
  {
    hide SomeOversized, Deserialize, BlocksOfValue;
    ValuePanics(libs, data);
    if Deserialize(libs, data).Ok? {
      ValuePanics(libs, data[Deserialize(libs, data).value.1..]);
    }
  }

  /** What was written, followed by anything, leads the reader to no such block. */
  lemma WrittenNeverPanics(libs: Libs, v: Value, t: bytes)
    requires Serialize(libs, v).Ok? && |Serialize(libs, v).value| < I64
    ensures !SomeOversized(BlocksOfValue(libs, Serialize(libs, v).value + t))
  {
    hide SomeOversized, BlocksOfValue, Serialize, Deserialize, Norm;
    RoundTrip(libs, v, t);
    ValuePanics(libs, Serialize(libs, v).value + t);
  }

  /** The smallest such input: a string tag and the length 2^64 - 1. */
  lemma LongestClaim(libs: Libs, t: bytes)
    ensures Deserialize(libs, [0x04] + LONGEST + t) == Err(CapacityOverflow)
  {
    BlockPanics(LONGEST + t);
    hide DecodeBlock;
    assert ([0x04] + LONGEST + t)[1..] == LONGEST + t;
  }

  /** The varint of 2^64 - 1. */
  const LONGEST: bytes := [0xFF, 0xFF, 0xFF, 0xFF, 0xFF, 0xFF, 0xFF, 0xFF, 0xFF, 0x01]
}
