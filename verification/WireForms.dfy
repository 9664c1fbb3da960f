/** The exact bytes of values, calls and responses, tag by tag, and what readers make of the other tags. */
module WireForms {
  import opened Bytes
  import opened Varint
  import opened Frames
  import opened Values
  import opened Records
  import opened Envelopes

  // ---- What is written ----

  /** A signed number in two's complement. */
  function TwosComplement(i: int): nat
    requires -I64 <= i < I64
  {
    if i < 0 then i + U64 else i
  }

  /** Null is one byte; a number is eight bytes behind the tag of the signed ones or, above these, the unsigned ones. */
  lemma NumbersAndNull(libs: Libs, i: jsonInt)
    ensures Serialize(libs, Null) == Ok([0x01])
    ensures i < I64 ==> Serialize(libs, Num(Int(i))) == Ok([0x02] + BigEndian(TwosComplement(i), 8))
    ensures i >= I64 ==> Serialize(libs, Num(Int(i))) == Ok([0x03] + BigEndian(i, 8))
  {
  }

  /** Strings are blocks behind their tag; booleans and objects are the strings of their JSON text. */
  lemma Texts(libs: Libs, v: Value)
    ensures v.Str? ==> Serialize(libs, v) == Ok([0x04] + EncodeVarint(|v.s| % U64) + v.s)
    ensures v.Bool? || v.Obj? ==> Serialize(libs, v) == Serialize(libs, Str(libs.json(v)))
  {
    if v.Str? {
      assert [0x04] + EncodeVarint(|v.s| % U64) + v.s == [0x04] + (EncodeVarint(|v.s| % U64) + v.s);
    }
  }

  /** The encodings of some values, one by one. */
  ghost predicate EncodedAs(libs: Libs, items: seq<Value>, parts: seq<bytes>) {
    |parts| == |items| && forall i :: 0 <= i < |items| ==> Serialize(libs, items[i]) == Ok(parts[i])
  }

  /** An array is a block behind its tag; in it stand the number of items and then their encodings in order. */
  lemma Arrays(libs: Libs, items: seq<Value>, parts: seq<bytes>)
    requires EncodedAs(libs, items, parts)
    ensures Serialize(libs, Arr(items)) == Ok([0x07] + EncodeBlock(EncodeVarint(|items| % U64) + Concat(parts)))
  {
    ItemsOneByOne(libs, items, parts);
    hide EncodeBlock, EncodeVarint, SerializeAll, Concat;
  }

  lemma {:induction false} ItemsOneByOne(libs: Libs, items: seq<Value>, parts: seq<bytes>)
    requires EncodedAs(libs, items, parts)
    ensures SerializeAll(libs, items) == Ok(Concat(parts))
  {
    hide Serialize;
    if items != [] {
      ItemsOneByOne(libs, items[1..], parts[1..]);
    }
  }

  // ---- What is read ----

  /** Numbers are read back from eight bytes: signed ones in two's complement, unsigned ones whatever their size. */
  lemma NumbersAreRead(libs: Libs, n: u64, t: bytes)
    ensures Deserialize(libs, [0x01] + t) == Ok((Null, 1))
    ensures Deserialize(libs, [0x02] + BigEndian(n, 8) + t) == Ok((Num(Int(if n < I64 then n else n - U64)), 9))
    ensures Deserialize(libs, [0x03] + BigEndian(n, 8) + t) == Ok((Num(Int(n)), 9))
  {
    Pow256Values();
    BigEndianRoundTrip(n, 8);
    hide BigEndian, FromBigEndian, ValidUtf8;
    assert ([0x02] + BigEndian(n, 8) + t)[1..][..8] == BigEndian(n, 8);
    assert ([0x03] + BigEndian(n, 8) + t)[1..][..8] == BigEndian(n, 8);
  }

  /** Fewer than eight bytes behind the tag of a number are too few. */
  lemma ShortNumbersFail(libs: Libs, tag: byte, s: bytes)
    requires (tag == 0x02 || tag == 0x03) && |s| < 8
    ensures Deserialize(libs, [tag] + s) == Err(UnexpectedEof)
  {
    hide ValidUtf8;
    assert ([tag] + s)[1..] == s;
  }

  /** Bytes are read as their base64 text. */
  lemma BytesAreRead(libs: Libs, b: bytes, t: bytes)
    requires |b| < I64
    ensures Deserialize(libs, [0x05] + EncodeBlock(b) + t) == Ok((Str(libs.base64(b)), 1 + |EncodeBlock(b)|))
  {
    hide EncodeBlock, DecodeBlock, ValidUtf8;
    DecodeAfterEncodeBlock(b, t);
    assert ([0x05] + EncodeBlock(b) + t)[1..] == EncodeBlock(b) + t;
  }

  /** The tags that have a meaning of their own. */
  const MEANINGFUL: set<int> :=
    {0x01, 0x02, 0x03, 0x05, 0x06, 0x07, 0x20, 0x21, 0x22, 0x23, 0x30, 0x31, 0x32, 0x33, 0x40}

  /** Any other tag announces a string, which must be UTF-8. */
  lemma OtherTagsAreText(libs: Libs, tag: byte, b: bytes, t: bytes)
    requires tag !in MEANINGFUL && |b| < I64
    ensures Deserialize(libs, [tag] + EncodeBlock(b) + t)
         == if ValidUtf8(b) then Ok((Str(b), 1 + |EncodeBlock(b)|)) else Err(InvalidUtf8)
  {
    hide EncodeBlock, DecodeBlock, ValidUtf8;
    DecodeAfterEncodeBlock(b, t);
    assert ([tag] + EncodeBlock(b) + t)[1..] == EncodeBlock(b) + t;
    assert ShapeOf(tag) == TextShape;
  }

  /** A record with a field that is no UTF-8 is refused. */
  lemma RecordsAreText(kind: RecordKind, blocks: seq<bytes>, flag: byte, t: bytes, bad: nat)
    requires |blocks| == (if kind.PeerRecord? then 3 else 2) && forall i :: 0 <= i < |blocks| ==> |blocks[i]| < I64
    requires bad < |blocks| && !ValidUtf8(blocks[bad])
    ensures DecodeRecord(kind, EncodeFrames(blocks) + [flag] + t) == Err(InvalidUtf8)
  {
    hide ValidUtf8, EncodeFrames, DecodeBlocks, AllText;
    var s := EncodeFrames(blocks) + [flag] + t;
    assert s == EncodeFrames(blocks) + ([flag] + t);
    BlocksAreRead(blocks, [flag] + t);
    BadTextIsFound(blocks, bad);
  }

  lemma {:induction false} BadTextIsFound(blocks: seq<bytes>, bad: nat)
    requires bad < |blocks| && !ValidUtf8(blocks[bad])
    ensures AllText(blocks) == Err(InvalidUtf8)
  {
    hide ValidUtf8;
    if bad > 0 {
      BadTextIsFound(blocks[1..], bad - 1);
    }
  }

  // ---- Calls and responses ----

  /** A call is its code and an array; without arguments it is four bytes. */
  lemma CallWithoutArguments(libs: Libs, a: Action)
    ensures CallToBytes(libs, RemoteCall(a, [])) == Ok([Code(a), 0x07, 0x01, 0x00])
  {
    assert EncodeVarint(0) + [] == [0x00];
    assert EncodeBlock([0x00]) == [0x01, 0x00];
    assert [Code(a)] + [0x07, 0x01, 0x00] == [Code(a), 0x07, 0x01, 0x00];
    assert [0x07] + [0x01, 0x00] == [0x07, 0x01, 0x00];
  }

  /** A response is its error, a string or null, and behind that its value, or null. */
  lemma ErrorStandsFirst(libs: Libs, error: utf8, v: Value, s: bytes)
    requires Serialize(libs, v) == Ok(s)
    ensures ResponseToBytes(libs, RemoteResponse(Some(error), None)) == Ok([0x04] + EncodeBlock(error) + [0x01])
    ensures ResponseToBytes(libs, RemoteResponse(None, Some(v))) == Ok([0x01] + s)
    ensures ResponseToBytes(libs, RemoteResponse(Some(error), Some(v))) == Ok([0x04] + EncodeBlock(error) + s)
  {
    hide EncodeBlock, ValidUtf8;
  }

  /** The actions in the order in which the protocol numbers them: from 1, from 16, and from 40. */
  const NUMBERED: seq<Action> := [
    ID, Dropoff, Pickup,
    CID, GetContact, GetContacts, AddContact, DeleteContact, GetChannel, GetChannels, AddChannel, DeleteChannel,
    GetProfile, GetProfiles, AddProfile, DeleteProfile, LoadProfile, GetPeer, GetPeers, AddPeer, DeletePeer,
    Send, SendChannel, SendMsg,
    FlushOutbox, GetChannelPrivKey, IsRunning, Start, Stop]

  /** The codes between 1 and 44 that no action has, and all above, are read as the null action, as is 0. */
  lemma UnusedCodes(b: byte)
    ensures FromCode(b) == NullAction <==> b == 0 || 4 <= b <= 15 || 37 <= b <= 39 || b >= 45
  {
  }

  lemma ActionsAreNumbered(i: nat)
    requires i < |NUMBERED|
    ensures Code(NUMBERED[i]) == if i < 3 then 1 + i else if i < 24 then 13 + i else 16 + i
    ensures Code(NullAction) == 0
  {
  }

  /** A call needs two bytes, and its second part must be an array. */
  lemma CallsAreArrays(libs: Libs, code: byte, v: Value, t: bytes)
    requires Serialize(libs, v).Ok? && |Serialize(libs, v).value| < I64 && !v.Arr?
    ensures CallFromBytes(libs, []) == CallFromBytes(libs, [code]) == Err(TooShort)
    ensures CallFromBytes(libs, [code] + Serialize(libs, v).value + t) == Err(ExpectedArray)
  {
    RoundTrip(libs, v, t);
    var s := [code] + Serialize(libs, v).value + t;
    hide Deserialize, Serialize;
    assert s[1..] == Serialize(libs, v).value + t;
  }

  /** An error that is not a string is read as the empty one. */
  lemma OddErrors(libs: Libs, error: Value, v: Value)
    requires Serialize(libs, error).Ok? && |Serialize(libs, error).value| < I64
    requires Serialize(libs, v).Ok? && |Serialize(libs, v).value| < I64
    requires error.Num? || error.Arr?
    ensures var r := ResponseFromBytes(libs, Serialize(libs, error).value + Serialize(libs, v).value);
            r.Ok? && r.value.error == Some([])
  {
    RoundTrip(libs, error, Serialize(libs, v).value);
    RoundTrip(libs, v, []);
    var first, second := Serialize(libs, error).value, Serialize(libs, v).value;
    assert (first + second)[|first|..] == second + [];
    hide Deserialize, Serialize;
  }
}
