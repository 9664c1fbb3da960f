/** Cutting a large message into a stream header and numbered chunks, and handling both at the receiver. */
module Chunking {
  import opened Bytes
  import opened Nodes
  import opened StreamRuns

  const DEFAULT_CHUNK_SIZE: u32 := 0x1_0000
  const CHUNK_OVERHEAD: u32 := 132
  const CHUNK_HEADER_SIZE: u32 := 8

  // ---- Chunk size ----

  /** The default size lowered to each transport limit that is positive after the cast from i64 to u32. */
  function LowestLimit(limits: seq<i64>): (r: u32)
    ensures r <= DEFAULT_CHUNK_SIZE
  {
    if limits == [] then DEFAULT_CHUNK_SIZE
    else
      var lowest := LowestLimit(limits[..|limits| - 1]);
      var limit := limits[|limits| - 1] % U32;
      if 0 < limit < lowest then limit else lowest
  }

  function ChunkSizeFor(limits: seq<i64>): Result<u32> {
    var lowest := LowestLimit(limits);
    if lowest <= CHUNK_OVERHEAD + CHUNK_HEADER_SIZE then Err(InvalidArgument) else Ok(lowest - CHUNK_OVERHEAD)
  }

  lemma {:induction false} LowestLimitIsAMinimum(limits: seq<i64>)
    ensures forall x :: x in limits && x % U32 > 0 ==> LowestLimit(limits) <= x % U32
    ensures LowestLimit(limits) == DEFAULT_CHUNK_SIZE
         || exists x :: x in limits && x % U32 > 0 && LowestLimit(limits) == x % U32
  {
    if limits != [] {
      var earlier, last := limits[..|limits| - 1], limits[|limits| - 1];
      LowestLimitIsAMinimum(earlier);
      assert limits == earlier + [last];
      if LowestLimit(limits) < LowestLimit(earlier) {
        assert last in limits;
      } else if LowestLimit(earlier) != DEFAULT_CHUNK_SIZE {
        var x :| x in earlier && x % U32 > 0 && LowestLimit(earlier) == x % U32;
        assert x in limits;
      }
    }
  }

  /** A chunk with its overhead respects every positive limit, whatever the cast to 32 bits does to it. */
  lemma ChunkSizeRespectsLimits(limits: seq<i64>, size: u32)
    requires ChunkSizeFor(limits) == Ok(size)
    ensures size >= 9
    ensures forall x :: x in limits && x > 0 ==> size + CHUNK_OVERHEAD <= x
  {
    LowestLimitIsAMinimum(limits);
    assert LowestLimit(limits) == size + CHUNK_OVERHEAD;
    forall x | x in limits && x > 0
      ensures size + CHUNK_OVERHEAD <= x
    {
      if x < U32 {
        assert x % U32 == x;
      }
    }
  }

  /** A chunk size is refused exactly when some limit, cast to 32 bits, lies between 1 and 140. */
  lemma ChunkSizeRefused(limits: seq<i64>)
    ensures ChunkSizeFor(limits).Err? <==> exists x :: x in limits && 0 < x % U32 <= 140
  {
    LowestLimitIsAMinimum(limits);
  }

  /** A size is accepted exactly when, with the overhead, it is the least of the default and the cast limits. */
  lemma ChunkSizeIsExact(limits: seq<i64>, size: u32)
    ensures ChunkSizeFor(limits) == Ok(size) <==>
              && size + 132 > 140
              && size + 132 <= 65536
              && (forall x :: x in limits && x % U32 > 0 ==> size + 132 <= x % U32)
              && (size + 132 == 65536 || exists x :: x in limits && size + 132 == x % U32)
  {
    LowestLimitIsAMinimum(limits);
    hide LowestLimit;
  }

  method CalculateChunkSize(limits: seq<i64>) returns (r: Result<u32>)
    ensures r == ChunkSizeFor(limits)
  {
    var chunkSize := DEFAULT_CHUNK_SIZE;
    for i := 0 to |limits|
      invariant chunkSize == LowestLimit(limits[..i])
    {
      assert limits[..i + 1][..i] == limits[..i];
      var limit: u32 := limits[i] % U32;
      if limit > 0 && limit < chunkSize {
        chunkSize := limit;
      }
    }
    assert limits[..|limits|] == limits;
    if chunkSize <= CHUNK_OVERHEAD + CHUNK_HEADER_SIZE {
      return Err(InvalidArgument);
    }
    r := Ok(chunkSize - CHUNK_OVERHEAD);
  }

  // ---- Splitting ----

  /** The bytes of content a chunk can carry. */
  function PayloadSize(chunkSize: u32): u32 {
    if chunkSize >= CHUNK_HEADER_SIZE then chunkSize - CHUNK_HEADER_SIZE else 0
  }

  /** The sender's idea of the content length: cut to 32 bits. */
  function Length32(content: bytes): u32 {
    |content| % U32
  }

  function TotalChunks(content: bytes, payload: u32): u32
    requires payload > 0
  {
    var len := Length32(content);
    WholeChunks(len, payload);
    if len % payload > 0 then len / payload + 1 else len / payload
  }

  lemma WholeChunks(len: u32, payload: u32)
    requires payload > 0
    ensures len / payload * payload + len % payload == len
    ensures len / payload <= len / payload * payload
  {
    AtLeast(len / payload, payload);
  }

  lemma AtLeast(q: nat, payload: nat)
    requires payload > 0
    ensures q <= q * payload
  {
    assert q * payload - q == q * (payload - 1);
  }

  predicate FitsOneMessage(content: bytes, payload: u32)
    requires payload > 0
  {
    TotalChunks(content, payload) <= 1 && Length32(content) <= payload
  }

  /** The content of chunk k: a full slice, or everything from the remainder's start to the end. */
  function Piece(content: bytes, payload: u32, k: u32): bytes {
    var start, end := k * payload, (k + 1) * payload;
    if start <= end <= Length32(content) <= |content| then content[start..end]
    else if start <= |content| then content[start..]
    else []
  }

  function Pieces(content: bytes, payload: u32): u32 -> bytes {
    (k: u32) => Piece(content, payload, k)
  }

  function HeaderMsg(m: Msg, sid: u32, total: u32): Msg {
    m.(content := LittleEndian(sid, 4) + LittleEndian(total, 4), chunked := true, streamHeader := true)
  }

  function ChunkMsg(m: Msg, sid: u32, num: u32, data: bytes): Msg {
    m.(content := LittleEndian(sid, 4) + LittleEndian(num, 4) + data, chunked := true, streamHeader := false)
  }

  /** The first n chunk messages of a split message. */
  function ChunkMsgs(m: Msg, payload: u32, sid: u32, n: nat): (r: seq<Msg>)
    requires n <= U32
    ensures |r| == n
  {
    if n == 0 then []
    else ChunkMsgs(m, payload, sid, n - 1) + [ChunkMsg(m, sid, n - 1, Piece(m.content, payload, n - 1))]
  }

  /** What is sent for a message: the message itself, or a header and its chunks. */
  function Frames(m: Msg, chunkSize: u32, sid: u32): Result<seq<Msg>> {
    var payload := PayloadSize(chunkSize);
    if payload == 0 then Err(InvalidArgument)
    else if FitsOneMessage(m.content, payload) then Ok([m])
    else
      var total := TotalChunks(m.content, payload);
      Ok([HeaderMsg(m, sid, total)] + ChunkMsgs(m, payload, sid, total))
  }

  /** The times that the clock shows when the first message is sent, the second one, and so on. */
  type Clock = nat -> int

  /** The outbox after sending messages one by one, each stamped with the time then. */
  function SentAll(codec: Codec, outbox: Outbox, msgs: seq<Msg>, clock: Clock): Outbox {
    if msgs == [] then outbox
    else
      var n := |msgs| - 1;
      Sent(codec, SentAll(codec, outbox, msgs[..n], clock), msgs[n], clock(n))
  }

  /** The content that the pieces of a split message carry: the sender's 32-bit count may lose its end. */
  function CarriedContent(content: bytes, payload: u32): bytes
    requires payload > 0
  {
    var len := Length32(content);
    if len % payload > 0 then content else content[..len]
  }

  lemma PiecesRebuildContent(content: bytes, payload: u32)
    requires payload > 0
    ensures Assembled(Pieces(content, payload), TotalChunks(content, payload)) == CarriedContent(content, payload)
  {
    hide Length32;
    var len := Length32(content);
    WholeChunks(len, payload);
    RebuiltFromParts(content, payload, len / payload, len % payload);
  }

  lemma RebuiltFromParts(content: bytes, payload: u32, whole: u32, rest: u32)
    requires payload > 0 && rest < payload && whole * payload + rest == Length32(content)
    ensures rest == 0 ==> Assembled(Pieces(content, payload), whole) == content[..Length32(content)]
    ensures rest > 0 ==> Assembled(Pieces(content, payload), whole + 1) == content
  {
    WholePieces(content, payload, whole);
    if rest > 0 {
      LastPiece(content, payload, whole, rest);
    }
  }

  lemma LastPiece(content: bytes, payload: u32, whole: u32, rest: u32)
    requires 0 < rest < payload && whole * payload + rest == Length32(content)
    ensures Piece(content, payload, whole) == content[whole * payload..]
    ensures content[..whole * payload] + Piece(content, payload, whole) == content
  {
    assert (whole + 1) * payload == whole * payload + payload;
  }

  lemma {:induction false} WholePieces(content: bytes, payload: u32, n: nat)
    requires payload > 0 && n <= U32 && n * payload <= Length32(content)
    ensures Assembled(Pieces(content, payload), n) == content[..n * payload]
  {
    if n > 0 {
      var before := (n - 1) * payload;
      assert before + payload == n * payload;
      WholePieces(content, payload, n - 1);
      assert content[..before] + content[before..n * payload] == content[..n * payload];
    }
  }

  // ---- What the split promises ----

  /** The chunk contents of a list of chunk messages, behind their eight header bytes. */
  function Payloads(chunks: seq<Msg>): bytes {
    if chunks == [] then []
    else
      var last := chunks[|chunks| - 1];
      Payloads(chunks[..|chunks| - 1]) + if |last.content| >= 8 then last.content[8..] else []
  }

  /** The content that the messages sent for one message carry together. */
  function Carried(frames: seq<Msg>): bytes
    requires frames != []
  {
    if |frames| == 1 then frames[0].content else Payloads(frames[1..])
  }

  lemma {:induction false} PayloadsOfChunks(m: Msg, payload: u32, sid: u32, n: nat)
    requires n <= U32
    ensures Payloads(ChunkMsgs(m, payload, sid, n)) == Assembled(Pieces(m.content, payload), n)
  {
    if n > 0 {
      var chunks := ChunkMsgs(m, payload, sid, n);
      assert chunks[..|chunks| - 1] == ChunkMsgs(m, payload, sid, n - 1);
      ChunkBody(m, sid, n - 1, Piece(m.content, payload, n - 1));
      hide ChunkMsg, Piece, ChunkMsgs;
      PayloadsOfChunks(m, payload, sid, n - 1);
    }
  }

  lemma ChunkBody(m: Msg, sid: u32, num: u32, data: bytes)
    ensures |ChunkMsg(m, sid, num, data).content| == 8 + |data|
    ensures ChunkMsg(m, sid, num, data).content[8..] == data
  {
  }

  /** The sender's frames carry the whole content exactly when the 32-bit count loses nothing or a remainder follows. */
  lemma SplitLosesNothing(m: Msg, chunkSize: u32, sid: u32)
    requires chunkSize > CHUNK_HEADER_SIZE
    ensures Carried(Frames(m, chunkSize, sid).value) == m.content
            <==> (|m.content| < U32
                  || FitsOneMessage(m.content, PayloadSize(chunkSize))
                  || Length32(m.content) % PayloadSize(chunkSize) > 0)
  {
    hide Length32, Assembled, Payloads, ChunkMsgs, HeaderMsg;
    var payload := PayloadSize(chunkSize);
    Length32OfShort(m.content);
    if !FitsOneMessage(m.content, payload) {
      var total := TotalChunks(m.content, payload);
      var chunks := ChunkMsgs(m, payload, sid, total);
      assert ([HeaderMsg(m, sid, total)] + chunks)[1..] == chunks;
      assert total >= 1 && |[HeaderMsg(m, sid, total)] + chunks| > 1;
      PayloadsOfChunks(m, payload, sid, total);
      PiecesRebuildContent(m.content, payload);
    }
  }

  /**
   * Such a content: 2^32 bytes and two full payloads. The sender counts two chunks, and only these two payloads, the
   * first ones of the content, are carried.
   */
  lemma LongContentLosesItsEnd(m: Msg, chunkSize: u32, sid: u32)
    requires chunkSize > CHUNK_HEADER_SIZE && 2 * PayloadSize(chunkSize) < U32
    requires |m.content| == U32 + 2 * PayloadSize(chunkSize)
    ensures Carried(Frames(m, chunkSize, sid).value) == m.content[..2 * PayloadSize(chunkSize)] != m.content
  {
    var payload := PayloadSize(chunkSize);
    assert Length32(m.content) == 2 * payload;
    DoublePayload(payload);
    hide Length32, Assembled, Payloads, ChunkMsgs, HeaderMsg;
    var chunks := ChunkMsgs(m, payload, sid, 2);
    assert ([HeaderMsg(m, sid, 2)] + chunks)[1..] == chunks;
    PayloadsOfChunks(m, payload, sid, 2);
    PiecesRebuildContent(m.content, payload);
  }

  lemma DoublePayload(payload: u32)
    requires payload > 0
    ensures 2 * payload / payload == 2 && 2 * payload % payload == 0
  {
  }

  lemma Length32OfShort(content: bytes)
    ensures Length32(content) == |content| <==> |content| < U32
    ensures Length32(content) <= |content|
  {
  }

  /**
   * When a message is sent whole, and otherwise into how many chunks it is cut, in terms of its 32-bit length: as few
   * as can carry it. A size that leaves no room beside the chunk header is refused.
   */
  lemma WholeOrSplit(m: Msg, chunkSize: u32, sid: u32)
    ensures chunkSize <= 8 ==> Frames(m, chunkSize, sid) == Err(InvalidArgument)
    ensures chunkSize > 8 ==>
              var len, payload := |m.content| % U32, chunkSize - 8;
              var sent := Frames(m, chunkSize, sid);
              && sent.Ok?
              && (sent == Ok([m]) <==> len <= payload)
              && (len > payload ==>
                    var chunks := |sent.value| - 1;
                    && chunks * payload >= len
                    && (forall fewer: nat :: fewer < chunks ==> fewer * payload < len)
                    && EventOf(sent.value[0]) == Ok(Header(sid, chunks, if m.isChan then m.name else [])))
  {
    if chunkSize > 8 {
      var payload := PayloadSize(chunkSize);
      var len := Length32(m.content);
      var total := TotalChunks(m.content, payload);
      LeastChunks(m.content, payload);
      HeaderIsRead(m, sid, total);
      hide TotalChunks, Length32, HeaderMsg, ChunkMsgs, EventOf;
      if len <= payload {
        AtMostOne(total, payload, len);
      } else {
        MoreThanOne(total, payload, len);
      }
      forall fewer: nat | fewer < total
        ensures fewer * payload < len
      {
        Scaled(fewer, total - 1, payload);
      }
    }
  }

  /** The chunk count is the length divided by the payload, rounded up. */
  lemma LeastChunks(content: bytes, payload: u32)
    requires payload > 0
    ensures var total, len := TotalChunks(content, payload), Length32(content);
            total * payload >= len > (total - 1) * payload || (total == 0 && len == 0)
  {
    var len := Length32(content);
    WholeChunks(len, payload);
    var whole, rest := len / payload, len % payload;
    assert (whole + 1) * payload == whole * payload + payload;
    assert (whole - 1) * payload == whole * payload - payload;
  }

  lemma AtMostOne(total: u32, payload: u32, len: u32)
    requires payload > 0 && len <= payload && (total > 0 ==> len > (total - 1) * payload)
    ensures total <= 1
  {
    if total > 1 {
      Scaled(1, total - 1, payload);
    }
  }

  lemma MoreThanOne(total: u32, payload: u32, len: u32)
    requires payload > 0 && len > payload && total * payload >= len
    ensures total > 1
  {
    if total <= 1 {
      Scaled(total, 1, payload);
    }
  }

  /** All frames keep the message's name, channel flag and key; of a split message the first one alone is a header. */
  lemma FramesKeepSender(m: Msg, chunkSize: u32, sid: u32, i: nat)
    requires chunkSize > 8 && i < |Frames(m, chunkSize, sid).value|
    ensures var frames := Frames(m, chunkSize, sid).value;
            && frames[i].name == m.name && frames[i].isChan == m.isChan && frames[i].pubkey == m.pubkey
            && (|frames| > 1 ==> frames[i].chunked && (frames[i].streamHeader <==> i == 0))
  {
    hide Length32, Piece, ValidUtf8, LittleEndian;
    var payload := PayloadSize(chunkSize);
    if !FitsOneMessage(m.content, payload) && i > 0 {
      ChunkAt(m, payload, sid, TotalChunks(m.content, payload), i - 1);
    }
  }

  /** Chunk k of a split message is numbered k and holds piece k, behind a header that announces the total. */
  lemma {:induction false} ChunkAt(m: Msg, payload: u32, sid: u32, n: nat, k: u32)
    requires k < n <= U32
    ensures ChunkMsgs(m, payload, sid, n)[k] == ChunkMsg(m, sid, k, Piece(m.content, payload, k))
  {
    if k < n - 1 {
      ChunkAt(m, payload, sid, n - 1, k);
    }
  }

  /** For content shorter than 2^32 every message sent fits the chunk size. */
  lemma FramesFit(m: Msg, chunkSize: u32, sid: u32, i: nat)
    requires Frames(m, chunkSize, sid).Ok? && |m.content| < U32
    requires i < |Frames(m, chunkSize, sid).value|
    ensures |Frames(m, chunkSize, sid).value[i].content| <= chunkSize
  {
    hide Length32, Piece, ChunkMsg, ChunkMsgs;
    var payload := PayloadSize(chunkSize);
    var len := Length32(m.content);
    Length32OfShort(m.content);
    if !FitsOneMessage(m.content, payload) && i > 0 {
      var k: u32 := i - 1;
      ChunkAt(m, payload, sid, TotalChunks(m.content, payload), k);
      WholeChunks(len, payload);
      ChunkBody(m, sid, k, Piece(m.content, payload, k));
      PieceFits(m.content, payload, k, len / payload, len % payload);
    }
  }

  lemma PieceFits(content: bytes, payload: u32, k: u32, whole: u32, rest: u32)
    requires |content| < U32 && rest < payload && whole * payload + rest == Length32(content)
    requires k < whole || (k == whole && rest > 0)
    ensures |Piece(content, payload, k)| <= payload
  {
    Length32OfShort(content);
    hide Piece, Length32;
    if k < whole {
      assert (k + 1) * payload == k * payload + payload;
      SliceInside(content, payload, whole, rest, k);
    } else {
      LastPiece(content, payload, whole, rest);
    }
  }

  /** A chunk size that was calculated is never refused as too small. */
  lemma CalculatedSizeIsUsable(limits: seq<i64>, m: Msg, sid: u32)
    requires ChunkSizeFor(limits).Ok?
    ensures Frames(m, ChunkSizeFor(limits).value, sid).Ok?
  {
    ChunkSizeRespectsLimits(limits, ChunkSizeFor(limits).value);
  }

  method SendChunked(node: MemoryNode, chunkSize: u32, m: Msg, sid: u32, clock: Clock) returns (r: Result<()>)
    modifies node`outbox
    ensures match Frames(m, chunkSize, sid)
            case Ok(frames) => r == Ok(()) && node.outbox == SentAll(node.codec, old(node.outbox), frames, clock)
            case Err(e) => r == Err(e) && node.outbox == old(node.outbox)
  {
    hide HeaderMsg, ChunkMsgs, Sent, SentAll, ValidUtf8, Divided, TotalChunks, Length32;
    var len: u32 := |m.content| % U32;
    var payload: u32 := if chunkSize >= CHUNK_HEADER_SIZE then chunkSize - CHUNK_HEADER_SIZE else 0;
    if payload == 0 {
      return Err(InvalidArgument);
    }
    var whole, rest := len / payload, len % payload;
    DividedByPayload(m.content, payload);
    var total: u32 := if rest > 0 then whole + 1 else whole;
    if total <= 1 && len <= payload {
      node.SendMsg(m, clock(0));
      SentOne(node.codec, old(node.outbox), m, clock);
      return Ok(());
    }
    var header := HeaderMsg(m, sid, total);
    node.SendMsg(header, clock(0));
    SentOne(node.codec, old(node.outbox), header, clock);
    SendChunks(node, payload, whole, rest, m, sid, clock, old(node.outbox), header);
    r := Ok(());
  }

  /** The division that the sender's chunk count rests on. */
  predicate Divided(content: bytes, payload: u32, whole: u32, rest: u32) {
    rest < payload && whole * payload + rest == Length32(content) && (rest > 0 ==> whole + 1 < U32)
  }

  lemma DividedByPayload(content: bytes, payload: u32)
    requires payload > 0
    ensures var len := |content| % U32;
            && len == Length32(content) && Divided(content, payload, len / payload, len % payload)
            && TotalChunks(content, payload) == if len % payload > 0 then len / payload + 1 else len / payload
  {
    WholeChunks(Length32(content), payload);
  }

  /** The loop over full chunks and the remainder chunk after it. */
  method SendChunks(node: MemoryNode, payload: u32, whole: u32, rest: u32, m: Msg, sid: u32, clock: Clock,
                    ghost before: Outbox, ghost header: Msg)
    requires Divided(m.content, payload, whole, rest)
    requires node.outbox == SentAll(node.codec, before, [header], clock)
    modifies node`outbox
    ensures var chunks := ChunkMsgs(m, payload, sid, if rest > 0 then whole + 1 else whole);
            node.outbox == SentAll(node.codec, before, [header] + chunks, clock)
  {
    hide ChunkMsg, ChunkMsgs, Sent, SentAll, Piece;
    assert [header] + ChunkMsgs(m, payload, sid, 0) == [header];
    for num := 0 to whole
      invariant node.outbox == SentAll(node.codec, before, [header] + ChunkMsgs(m, payload, sid, num), clock)
    {
      SliceInside(m.content, payload, whole, rest, num);
      // These assignments to u32 are the proof that the index arithmetic does not overflow.
      var start: u32 := num * payload;
      var end: u32 := (num + 1) * payload;
      var data := m.content[start..end];
      node.SendMsg(ChunkMsg(m, sid, num, data), clock(num + 1));
      SentNext(node.codec, before, header, m, payload, sid, num, clock);
    }
    if rest > 0 {
      LastPiece(m.content, payload, whole, rest);
      var start: u32 := whole * payload;
      var data := m.content[start..];
      node.SendMsg(ChunkMsg(m, sid, whole, data), clock(whole + 1));
      SentNext(node.codec, before, header, m, payload, sid, whole, clock);
    }
  }

  lemma SliceInside(content: bytes, payload: u32, whole: u32, rest: u32, num: u32)
    requires whole * payload + rest == Length32(content) && num < whole
    ensures 0 <= num * payload <= (num + 1) * payload <= Length32(content) <= |content|
    ensures Piece(content, payload, num) == content[num * payload..(num + 1) * payload]
  {
    Scaled(num, num + 1, payload);
    Scaled(num + 1, whole, payload);
  }

  lemma Scaled(a: nat, b: nat, c: nat)
    requires a <= b
    ensures a * c <= b * c
  {
    assert b * c - a * c == (b - a) * c;
  }

  lemma SentOne(codec: Codec, outbox: Outbox, m: Msg, clock: Clock)
    ensures SentAll(codec, outbox, [m], clock) == Sent(codec, outbox, m, clock(0))
  {
    assert [m][..0] == [];
  }

  lemma SentNext(codec: Codec, outbox: Outbox, header: Msg, m: Msg, payload: u32, sid: u32, num: u32, clock: Clock)
    ensures var sent := [header] + ChunkMsgs(m, payload, sid, num);
            var last := ChunkMsg(m, sid, num, Piece(m.content, payload, num));
            var next := [header] + ChunkMsgs(m, payload, sid, num + 1);
            SentAll(codec, outbox, next, clock)
            == Sent(codec, SentAll(codec, outbox, sent, clock), last, clock(num + 1))
  {
    hide ChunkMsg, Piece, Sent, ValidUtf8;
    var next := [header] + ChunkMsgs(m, payload, sid, num + 1);
    assert next[..|next| - 1] == [header] + ChunkMsgs(m, payload, sid, num);
  }

  // ---- Receiving ----

  /** The stream event a chunked message stands for; both kinds need their eight header bytes. */
  function EventOf(m: Msg): Result<Event> {
    if |m.content| < 8 then Err(TooShort)
    else
      var sid, second := U32At(m.content, 0), U32At(m.content, 4);
      if m.streamHeader then Ok(Header(sid, second, if m.isChan then m.name else []))
      else Ok(Chunk(sid, second, m.content[8..]))
  }

  /** The node after a chunked message: unchanged when the message is malformed. */
  function Handled(st: State, m: Msg): State {
    if EventOf(m).Ok? then Step(st, EventOf(m).value) else st
  }

  function HandledAll(st: State, msgs: seq<Msg>): State {
    if msgs == [] then st else Handled(HandledAll(st, msgs[..|msgs| - 1]), msgs[|msgs| - 1])
  }

  method HandleChunked(node: MemoryNode, m: Msg) returns (r: Result<()>)
    modifies node`streams, node`chunks, node`inbox
    ensures node.View() == Handled(old(node.View()), m)
    ensures r == if EventOf(m).Ok? then Ok(()) else Err(TooShort)
  {
    if |m.content| < 8 {
      return Err(TooShort);
    }
    var sid, second := U32At(m.content, 0), U32At(m.content, 4);
    if m.streamHeader {
      node.AddStream(sid, second, if m.isChan then m.name else []);
    } else {
      node.AddChunk(sid, second, m.content[8..]);
      node.CheckStreamComplete(sid);
    }
    r := Ok(());
  }

  // ---- From sender to receiver ----

  /** The header of a split message, then its chunks in the order of nums. */
  function Delivery(frames: seq<Msg>, nums: seq<u32>): seq<Msg>
    requires |frames| > 0 && InRange(nums, |frames| - 1)
  {
    if nums == [] then [frames[0]]
    else Delivery(frames, nums[..|nums| - 1]) + [frames[1 + nums[|nums| - 1]]]
  }

  /** A chunked message is its stream's id and a number, four bytes each; what follows is ignored in a header. */
  lemma MessagesAreEvents(m: Msg, sid: u32, second: u32, rest: bytes)
    ensures EventOf(m).Err? <==> |m.content| < 8
    ensures m.content == LittleEndian(sid, 4) + LittleEndian(second, 4) + rest ==>
              EventOf(m) == Ok(if m.streamHeader then Header(sid, second, if m.isChan then m.name else [])
                               else Chunk(sid, second, rest))
  {
    NumbersAreRead(sid, second, rest);
  }

  lemma HeaderIsRead(m: Msg, sid: u32, total: u32)
    ensures EventOf(HeaderMsg(m, sid, total)) == Ok(Header(sid, total, if m.isChan then m.name else []))
  {
    NumbersAreRead(sid, total, []);
    assert HeaderMsg(m, sid, total).content == LittleEndian(sid, 4) + LittleEndian(total, 4) + [];
  }

  lemma ChunkIsRead(m: Msg, sid: u32, num: u32, data: bytes)
    ensures EventOf(ChunkMsg(m, sid, num, data)) == Ok(Chunk(sid, num, data))
  {
    NumbersAreRead(sid, num, data);
  }

  lemma NumbersAreRead(a: u32, b: u32, rest: bytes)
    ensures var s := LittleEndian(a, 4) + LittleEndian(b, 4) + rest;
            U32At(s, 0) == a && U32At(s, 4) == b && s[8..] == rest
  {
    var s := LittleEndian(a, 4) + LittleEndian(b, 4) + rest;
    Pow256Values();
    LittleEndianRoundTrip(a, 4);
    LittleEndianRoundTrip(b, 4);
    assert s[0..4] == LittleEndian(a, 4);
    assert s[4..8] == LittleEndian(b, 4);
  }

  /** Handling the delivered frames is running the arrivals of one stream. */
  lemma {:induction false} DeliveryIsArrivals(st: State, m: Msg, payload: u32, sid: u32, total: u32, nums: seq<u32>)
    requires InRange(nums, total)
    ensures var frames := [HeaderMsg(m, sid, total)] + ChunkMsgs(m, payload, sid, total);
            var channel := if m.isChan then m.name else [];
            var events := Arrivals(sid, channel, total, Pieces(m.content, payload), nums);
            HandledAll(st, Delivery(frames, nums)) == Run(st, events)
  {
    var frames := [HeaderMsg(m, sid, total)] + ChunkMsgs(m, payload, sid, total);
    var channel := if m.isChan then m.name else [];
    var data := Pieces(m.content, payload);
    var msgs, events := Delivery(frames, nums), Arrivals(sid, channel, total, data, nums);
    if nums == [] {
      HeaderIsRead(m, sid, total);
      assert msgs[..0] == [] && events[..0] == [];
    } else {
      var earlier, last := nums[..|nums| - 1], nums[|nums| - 1];
      DeliveryIsArrivals(st, m, payload, sid, total, earlier);
      ChunkAt(m, payload, sid, total, last);
      ChunkIsRead(m, sid, last, data(last));
      assert msgs[..|msgs| - 1] == Delivery(frames, earlier);
      assert events[..|events| - 1] == Arrivals(sid, channel, total, data, earlier);
    }
  }

  /**
   * End to end: whatever a receiver's state, the header of a split message followed by its chunks in any order and
   * with any repetitions hands nothing over while a chunk is missing, and exactly one message from the first arrival
   * that leaves none missing. Content shorter than 2^32 is intact; name and channel flag survive for channel messages
   * with a name.
   */
  lemma EndToEnd(st: State, m: Msg, chunkSize: u32, sid: u32, nums: seq<u32>)
    requires chunkSize > CHUNK_HEADER_SIZE && InRange(nums, TotalChunks(m.content, PayloadSize(chunkSize)))
    ensures !FitsOneMessage(m.content, PayloadSize(chunkSize)) ==>
              var frames := Frames(m, chunkSize, sid).value;
              var handed := Msg(if m.isChan then m.name else [], CarriedContent(m.content, PayloadSize(chunkSize)),
                                m.isChan && m.name != [], NilKey, false, false);
              var end := HandledAll(st, Delivery(frames, nums));
              end.inbox == st.inbox + if Covers(nums, |frames| - 1) then [handed] else []
    ensures |m.content| < U32 ==> CarriedContent(m.content, PayloadSize(chunkSize)) == m.content
  {
    hide HandledAll, Run, Delivery, Arrivals, Length32, Assembled, ChunkMsgs, Completed, Covers, Collecting, HeaderMsg;
    var payload := PayloadSize(chunkSize);
    var total := TotalChunks(m.content, payload);
    var channel := if m.isChan then m.name else [];
    Length32OfShort(m.content);
    if !FitsOneMessage(m.content, payload) {
      DeliveryIsArrivals(st, m, payload, sid, total, nums);
      DeliveredOnceComplete(st, sid, channel, total, Pieces(m.content, payload), nums);
      CompletedInRange(nums, total);
      PiecesRebuildContent(m.content, payload);
    }
  }
}
