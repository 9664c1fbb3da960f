/** Length-prefixed blocks: inside a value (`write_lv`, `read_lv`) and on the wire (`write_buffer`, `read_buffer`). */
module Frames {
  import opened Bytes
  import opened Cursors
  import opened Varint

  // ---- Specification ----

  /** A block: its length as a varint (cast to u64), then its bytes. */
  function EncodeBlock(s: bytes): (r: bytes)
    ensures |r| > |s|
  {
    EncodeVarint(|s| % U64) + s
  }

  /**
   * The block at the head of s and the number of bytes it takes. Its vector is made before its bytes are looked for,
   * and asking for 2^63 bytes or more panics.
   */
  function DecodeBlock(s: bytes): (r: Result<(bytes, nat)>)
    ensures r.Ok? ==> |r.value.0| < r.value.1 <= |s|
  {
    var (len, n) :- DecodeVarint(s);
    if len >= I64 then Err(CapacityOverflow)
    else if len <= |s| - n then Ok((s[n..n + len], n + len)) else Err(UnexpectedEof)
  }

  /** The length prefix as `read_buffer` collects it, into at most ten bytes. */
  function CollectLength(s: bytes): (r: Result<bytes>)
    ensures r.Ok? ==> 1 <= |r.value| <= 10 && r.value <= s
  {
    var n := LebLength(s);
    if 1 <= n <= 10 then Ok(s[..n])
    else if |s| < 10 then Err(UnexpectedEof)
    else Err(VarintOverflow)
  }

  /** The frame at the head of a stream and the number of bytes it takes. */
  function DecodeFrame(s: bytes): (r: Result<(bytes, nat)>)
    ensures r.Ok? ==> |r.value.0| < r.value.1 <= |s|
  {
    var prefix :- CollectLength(s);
    var (len, _) :- DecodeVarint(prefix);
    var n := |prefix|;
    if len >= I64 then Err(CapacityOverflow)
    else if len <= |s| - n then Ok((s[n..n + len], n + len)) else Err(UnexpectedEof)
  }

  function EncodeFrames(buffers: seq<bytes>): bytes {
    if buffers == [] then [] else EncodeBlock(buffers[0]) + EncodeFrames(buffers[1..])
  }

  /** Reads k frames in a row; the second part is what is left of the stream. */
  function DecodeFrames(k: nat, s: bytes): Result<(seq<bytes>, bytes)> {
    if k == 0 then Ok(([], s))
    else
      var (first, n) :- DecodeFrame(s);
      var (others, rest) :- DecodeFrames(k - 1, s[n..]);
      Ok(([first] + others, rest))
  }

  // ---- Main results ----

  lemma DecodeAfterEncodeBlock(s: bytes, t: bytes)
    requires |s| < I64
    ensures DecodeBlock(EncodeBlock(s) + t) == Ok((s, |EncodeBlock(s)|))
  {
    var e := EncodeVarint(|s|);
    var whole := EncodeBlock(s) + t;
    assert whole == e + (s + t);
    DecodeAfterEncode(|s|, s + t);
    assert whole[|e|..|e| + |s|] == s;
  }

  /** Exactly what is read as a block: a length, and as many bytes after it. */
  lemma BlockIsExact(s: bytes, b: bytes, n: nat)
    ensures DecodeBlock(s) == Ok((b, n)) <==>
              exists k: nat :: k <= |s| && DecodeVarint(s) == Ok((|b|, k)) && |b| < I64
                               && n == k + |b| <= |s| && s[k..n] == b
  {
    hide DecodeVarint;
    if DecodeBlock(s) == Ok((b, n)) {
      var k := DecodeVarint(s).value.1;
      assert DecodeVarint(s) == Ok((|b|, k)) && s[k..n] == b;
    }
  }

  /** The ten-byte collector takes exactly the prefixes that the varint decoder takes. */
  lemma CollectorAgrees(s: bytes)
    ensures CollectLength(s).Ok? <==> DecodeVarint(s).Ok?
    ensures CollectLength(s).Ok? ==> DecodeVarint(CollectLength(s).value) == DecodeVarint(s)
    ensures CollectLength(s).Ok? ==> DecodeVarint(s).value.1 == |CollectLength(s).value|
  {
    var n := LebLength(s);
    if 1 <= n <= 10 {
      LebLengthUnique(s[..n], n);
      assert s[..n][..n] == s[..n];
    }
  }

  /**
   * So a frame is read off a stream exactly when a block is, with the same bytes. The errors are the same, too, but for
   * ten bytes without an end, which are one byte too few for a block and too long for a frame.
   */
  lemma FrameIsBlock(s: bytes)
    ensures DecodeFrame(s).Ok? <==> DecodeBlock(s).Ok?
    ensures DecodeFrame(s).Ok? ==> DecodeFrame(s) == DecodeBlock(s)
    ensures DecodeFrame(s) == Err(CapacityOverflow) <==> DecodeBlock(s) == Err(CapacityOverflow)
    ensures DecodeFrame(s) == DecodeBlock(s) <==> !(|s| == 10 && forall i :: 0 <= i < 10 ==> s[i] >= 0x80)
  {
    hide LebValue;
    CollectorAgrees(s);
    DecodingIsExact(s, 0, 0);
  }

  /** A length prefix of ten bytes whose last one sets bit 63. */
  predicate Oversized(s: bytes) {
    |s| >= 10 && (forall i :: 0 <= i < 9 ==> s[i] >= 0x80) && s[9] < 0x80 && s[9] % 2 == 1
  }

  /** Reading a block panics on exactly these inputs, however many bytes follow. */
  lemma BlockPanics(s: bytes)
    ensures DecodeBlock(s) == Err(CapacityOverflow) <==> Oversized(s)
  {
    hide LebValue;
    var n := LebLength(s);
    if Oversized(s) {
      LebLengthUnique(s, 10);
    }
    if n == 10 {
      TenthDigit(s);
    } else if 1 <= n <= 9 {
      LebBound(s[..n]);
      PowersGrow(n, 9);
      Pow128Values();
    }
  }

  lemma TenthDigit(s: bytes)
    requires |s| >= 10
    ensures LebValue(s[..10]) % U64 >= I64 <==> s[9] % 2 == 1
  {
    hide LebValue;
    LebBound(s[..9]);
    Pow128Values();
    assert s[..10] == s[..9] + [s[9]];
    LebAppend(s[..9], s[9]);
    TopBit(LebValue(s[..9]), s[9] % 0x80);
  }

  lemma TopBit(low: nat, digit: nat)
    requires low < I64
    ensures (low + digit * I64) % U64 >= I64 <==> digit % 2 == 1
  {
    assert low + digit * I64 == low + digit % 2 * I64 + digit / 2 * U64;
    assert 0 <= low + digit % 2 * I64 < U64;
  }

  /** A block that is cut short anywhere is not read, and neither is a frame. */
  lemma BlockCutShort(s: bytes, k: nat)
    requires |s| < I64 && k < |EncodeBlock(s)|
    ensures DecodeBlock(EncodeBlock(s)[..k]) == Err(UnexpectedEof)
    ensures DecodeFrame(EncodeBlock(s)[..k]) == Err(UnexpectedEof)
  {
    var e := EncodeVarint(|s|);
    var cut := EncodeBlock(s)[..k];
    PrefixEndsLast(|s|);
    if k < |e| {
      assert cut == e[..k];
      assert forall i :: 0 <= i < k ==> cut[i] == e[i];
      DecodingIsExact(cut, 0, 0);
    } else {
      var rest := s[..k - |e|];
      assert cut == e + rest;
      DecodeAfterEncode(|s|, rest);
      assert cut[|e| - 1] == e[|e| - 1];
    }
    hide EncodeVarint, DecodeVarint, CollectLength;
    FrameIsBlock(cut);
  }

  /** Only the last byte of an encoded length is below 0x80. */
  lemma PrefixEndsLast(n: u64)
    ensures var e := EncodeVarint(n);
            1 <= |e| <= 10 && e[|e| - 1] < 0x80 && forall i :: 0 <= i < |e| - 1 ==> e[i] >= 0x80
  {
    hide EncodeVarint, LebValue;
    EncodingShape(n);
    VarintLength(n);
  }

  /** Writing any buffers and reading as many frames gives the same buffers and leaves the rest. */
  lemma {:induction false} FrameStreamRoundTrip(buffers: seq<bytes>, t: bytes)
    requires forall i :: 0 <= i < |buffers| ==> |buffers[i]| < I64
    ensures DecodeFrames(|buffers|, EncodeFrames(buffers) + t) == Ok((buffers, t))
  {
    if buffers == [] {
      assert EncodeFrames(buffers) + t == t;
    } else {
      var rest := EncodeFrames(buffers[1..]) + t;
      var s := EncodeFrames(buffers) + t;
      assert s == EncodeBlock(buffers[0]) + rest;
      FrameAtHead(buffers[0], rest);
      FrameStreamRoundTrip(buffers[1..], t);
      assert [buffers[0]] + buffers[1..] == buffers;
    }
  }

  lemma FrameAtHead(buffer: bytes, rest: bytes)
    requires |buffer| < I64
    ensures DecodeFrame(EncodeBlock(buffer) + rest) == Ok((buffer, |EncodeBlock(buffer)|))
    ensures (EncodeBlock(buffer) + rest)[|EncodeBlock(buffer)|..] == rest
  {
    DecodeAfterEncodeBlock(buffer, rest);
    FrameIsBlock(EncodeBlock(buffer) + rest);
  }

  lemma InnerSlices(s: bytes, n: nat, len: nat)
    requires n + len <= |s|
    ensures s[n..][..len] == s[n..n + len] && s[n..][len..] == s[n + len..]
  {
  }

  // ---- The methods ----

  method WriteBlock(w: Buffer, value: bytes)
    modifies w
    ensures w.data == old(w.data) + EncodeBlock(value)
  {
    var len := VarintEncode(|value| % U64);
    w.Append(len);
    w.Append(value);
  }

  method ReadBlock(r: Cursor) returns (v: Result<bytes>)
    requires r.Valid()
    modifies r
    ensures r.Valid()
    ensures match DecodeBlock(old(r.Rest()))
            case Ok((s, n)) => v == Ok(s) && r.pos == old(r.pos) + n && r.Rest() == old(r.Rest())[n..]
            case Err(e) => v == Err(e)
  {
    ghost var s := r.Rest();
    var d := VarintDecode(r);
    if d.Err? {
      return Err(d.error);
    }
    var (len, n) := d.value;
    if len == 0 {
      assert s[n..n] == [];
      return Ok([]);
    }
    // `vec![0u8; len as usize]`
    if len >= I64 {
      return Err(CapacityOverflow);
    }
    v := r.ReadExact(len);
    if v.Ok? {
      InnerSlices(s, n, len);
    }
  }

  method WriteBuffer(w: Buffer, value: bytes)
    modifies w
    ensures w.data == old(w.data) + EncodeBlock(value)
  {
    var len := VarintEncode(|value| % U64);
    w.Append(len);
    w.Append(value);
  }

  /** Reads a frame: first its length prefix, collected byte by byte, then the data. */
  method ReadBuffer(r: Cursor) returns (v: Result<bytes>)
    requires r.Valid()
    modifies r
    ensures r.Valid()
    ensures match DecodeFrame(old(r.Rest()))
            case Ok((s, n)) => v == Ok(s) && r.pos == old(r.pos) + n && r.Rest() == old(r.Rest())[n..]
            case Err(e) => v == Err(e)
  {
    hide DecodeVarint, CollectLength, EncodeVarint, LebLength, LebValue;
    ghost var s := r.Rest();
    var prefix := CollectPrefix(r);
    if prefix.Err? {
      return Err(prefix.error);
    }
    var n := |prefix.value|;
    var cursor := new Cursor(prefix.value);
    var d := VarintDecode(cursor);
    if d.Err? {
      return Err(d.error);
    }
    var len := d.value.0;
    // `vec![0u8; rlen as usize]`
    if len >= I64 {
      return Err(CapacityOverflow);
    }
    v := r.ReadExact(len);
    if v.Ok? {
      InnerSlices(s, n, len);
    }
  }

  /** The collecting loop; Dafny's index checks on `lenBuf` prove that its ten bytes are never overrun. */
  method CollectPrefix(r: Cursor) returns (v: Result<bytes>)
    requires r.Valid()
    modifies r
    ensures r.Valid()
    ensures v == CollectLength(old(r.Rest()))
    ensures v.Ok? ==> r.pos == old(r.pos) + |v.value| && r.Rest() == old(r.Rest())[|v.value|..]
  {
    ghost var s := r.Rest();
    var lenBuf := new byte[10];
    var lenBytes := 0;
    while true
      invariant r.Valid() && lenBytes <= 9 && lenBytes <= |s|
      invariant r.pos == old(r.pos) + lenBytes && r.Rest() == s[lenBytes..]
      invariant lenBuf[..lenBytes] == s[..lenBytes]
      invariant forall i :: 0 <= i < lenBytes ==> s[i] >= 0x80
      decreases 10 - lenBytes
    {
      var b := r.ReadU8();
      if b.Err? {
        return Err(b.error);
      }
      lenBuf[lenBytes] := b.value;
      lenBytes := lenBytes + 1;
      assert lenBuf[..lenBytes] == s[..lenBytes];
      if b.value < 0x80 {
        LebLengthUnique(s, lenBytes);
        return Ok(lenBuf[..lenBytes]);
      }
      if lenBytes >= 10 {
        return Err(VarintOverflow);
      }
    }
  }
}
