/** The in-memory node: stream reassembly, the outbox, and message hand-over. */
module Nodes {
  import opened Bytes

  datatype PubKey = NilKey | Key(id: bytes)

  datatype Msg = Msg(name: utf8, content: bytes, isChan: bool, pubkey: PubKey, chunked: bool, streamHeader: bool)

  datatype StreamInfo = StreamInfo(total: u32, channel: utf8, received: set<u32>)

  datatype OutboxMsg = OutboxMsg(channel: Option<utf8>, msg: bytes, timestamp: int)

  datatype Bundle = Bundle(data: bytes, time: int)

  type Streams = map<u32, StreamInfo>
  type Chunks = map<(u32, u32), bytes>
  type Outbox = map<utf8, seq<OutboxMsg>>

  /** The JSON texts of one message and of a list of messages, and their readers. */
  datatype Codec = Codec(
    encode: Msg -> bytes,
    decode: bytes -> Option<Msg>,
    encodeAll: seq<Msg> -> bytes,
    decodeAll: bytes -> Option<seq<Msg>>)

  ghost predicate Inverse(codec: Codec) {
    && (forall m :: codec.encode(m) != [] && codec.decode(codec.encode(m)) == Some(m))
    && (forall ms :: codec.encodeAll(ms) != [] && codec.decodeAll(codec.encodeAll(ms)) == Some(ms))
  }

  /** The state of a node: open streams, stored chunks, outgoing messages, and messages handed to the application. */
  datatype State = State(streams: Streams, chunks: Chunks, outbox: Outbox, inbox: seq<Msg>)

  // ---- Reassembly ----

  function AddedStream(st: State, sid: u32, total: u32, channel: utf8): State {
    st.(streams := st.streams[sid := StreamInfo(total, channel, {})])
  }

  /** A stored chunk; it counts as received only while its stream is open. */
  function Marked(st: State, sid: u32, num: u32, data: bytes): State {
    var stored := st.(chunks := st.chunks[(sid, num) := data]);
    if sid in st.streams then
      stored.(streams := st.streams[sid := Received(st.streams[sid], num)])
    else stored
  }

  function Received(info: StreamInfo, num: u32): StreamInfo {
    info.(received := info.received + {num})
  }

  /** The completeness test compares a count, cut to 32 bits, with the announced total. */
  predicate CountReached(info: StreamInfo) {
    |info.received| % U32 == info.total
  }

  function AddedChunk(st: State, sid: u32, num: u32, data: bytes): State {
    var marked := Marked(st, sid, num, data);
    if sid in st.streams && CountReached(marked.streams[sid]) then Checked(marked, sid) else marked
  }

  /** Chunks 0 to n of a stream joined in order, or nothing when one is missing. */
  function Joined(chunks: Chunks, sid: u32, n: nat): Option<bytes>
    requires n <= U32
  {
    if n == 0 then Some([])
    else
      match Joined(chunks, sid, n - 1)
      case None => None
      case Some(b) => if (sid, n - 1) in chunks then Some(b + chunks[(sid, n - 1)]) else None
  }

  function Without(chunks: Chunks, sid: u32, n: nat): Chunks {
    map key | key in chunks && !(key.0 == sid && key.1 < n) :: chunks[key]
  }

  /** What is handed over for a finished stream: name and channel flag come from the channel name alone. */
  function Reassembled(channel: utf8, content: bytes): Msg {
    Msg(channel, content, channel != [], NilKey, false, false)
  }

  function Checked(st: State, sid: u32): State {
    if sid !in st.streams || !CountReached(st.streams[sid]) then st
    else
      var info := st.streams[sid];
      match Joined(st.chunks, sid, info.total)
      case None => st
      case Some(content) =>
        st.(streams := st.streams - {sid}, chunks := Without(st.chunks, sid, info.total),
            inbox := st.inbox + [Reassembled(info.channel, content)])
  }

  // ---- Outbox ----

  /** Channel messages queue under their channel, all others under the empty name. */
  function OutboxKey(m: Msg): utf8 {
    if m.isChan then m.name else []
  }

  function Entry(codec: Codec, m: Msg, now: int): OutboxMsg {
    OutboxMsg(if m.isChan then Some(m.name) else None, codec.encode(m), now)
  }

  function Queue(outbox: Outbox, key: utf8): seq<OutboxMsg> {
    if key in outbox then outbox[key] else []
  }

  function Sent(codec: Codec, outbox: Outbox, m: Msg, now: int): Outbox {
    outbox[OutboxKey(m) := Queue(outbox, OutboxKey(m)) + [Entry(codec, m, now)]]
  }

  function Fresh(msgs: seq<OutboxMsg>, now: int, maxAge: int): seq<OutboxMsg> {
    if msgs == [] then []
    else
      var last := msgs[|msgs| - 1];
      Fresh(msgs[..|msgs| - 1], now, maxAge) + if now - last.timestamp < maxAge then [last] else []
  }

  function Flushed(outbox: Outbox, now: int, maxAge: int): Outbox {
    map key | key in outbox :: Fresh(outbox[key], now, maxAge)
  }

  /** The queues of the named channels one after the other. */
  function Candidates(outbox: Outbox, names: seq<utf8>): seq<OutboxMsg> {
    if names == [] then []
    else Candidates(outbox, names[..|names| - 1]) + Queue(outbox, names[|names| - 1])
  }

  /** The messages a pickup takes: their positions, their decoded forms and their stored size. */
  datatype Picked = Picked(positions: seq<nat>, msgs: seq<Msg>, size: nat)

  function Pick(codec: Codec, queue: seq<OutboxMsg>, lastTime: int, maxBytes: int): (p: Picked)
    ensures |p.positions| == |p.msgs|
  {
    if queue == [] then Picked([], [], 0)
    else
      var n := |queue| - 1;
      var p := Pick(codec, queue[..n], lastTime, maxBytes);
      var entry := queue[n];
      if entry.timestamp >= lastTime && p.size + |entry.msg| <= maxBytes && codec.decode(entry.msg).Some? then
        Picked(p.positions + [n], p.msgs + [codec.decode(entry.msg).value], p.size + |entry.msg|)
      else p
  }

  lemma PickOneMore(codec: Codec, queue: seq<OutboxMsg>, entry: OutboxMsg, lastTime: int, maxBytes: int)
    ensures var p := Pick(codec, queue, lastTime, maxBytes);
            Pick(codec, queue + [entry], lastTime, maxBytes)
            == if entry.timestamp >= lastTime && p.size + |entry.msg| <= maxBytes && codec.decode(entry.msg).Some? then
                 Picked(p.positions + [|queue|], p.msgs + [codec.decode(entry.msg).value], p.size + |entry.msg|)
               else p
  {
    hide ValidUtf8;
    assert (queue + [entry])[..|queue|] == queue;
  }

  function BundleData(codec: Codec, msgs: seq<Msg>): bytes {
    if msgs == [] then [] else codec.encodeAll(msgs)
  }

  /** The messages read from bundle data: a list, else a single message, else nothing. */
  function BundleMsgs(codec: Codec, data: bytes): seq<Msg> {
    if data == [] then []
    else match codec.decodeAll(data)
      case Some(msgs) => msgs
      case None =>
        match codec.decode(data)
        case Some(m) => [m]
        case None => []
  }

  /** A node after a dropoff: the bundle's messages have been handed over one by one, and that is all. */
  function DroppedOff(codec: Codec, st: State, bundle: Bundle): State {
    st.(inbox := st.inbox + BundleMsgs(codec, bundle.data))
  }

  /** A bundle carries its messages through both JSON conversions. */
  lemma BundleRoundTrip(codec: Codec, msgs: seq<Msg>)
    requires Inverse(codec)
    ensures BundleMsgs(codec, BundleData(codec, msgs)) == msgs
    ensures BundleData(codec, msgs) == [] <==> msgs == []
  {
    if msgs != [] {
      assert codec.decodeAll(codec.encodeAll(msgs)) == Some(msgs);
    }
  }

  // ---- The node ----

  class MemoryNode {
    const codec: Codec
    var streams: Streams
    var chunks: Chunks
    var outbox: Outbox
    var inbox: seq<Msg>

    function View(): State
      reads this
    {
      State(streams, chunks, outbox, inbox)
    }

    constructor (codec: Codec)
      ensures this.codec == codec && View() == State(map[], map[], map[], [])
    {
      this.codec := codec;
      streams, chunks, outbox, inbox := map[], map[], map[], [];
    }

    method Handle(m: Msg)
      modifies this`inbox
      ensures View() == old(View()).(inbox := old(inbox) + [m])
    {
      inbox := inbox + [m];
    }

    method AddStream(sid: u32, total: u32, channel: utf8)
      modifies this`streams
      ensures View() == AddedStream(old(View()), sid, total, channel)
    {
      streams := streams[sid := StreamInfo(total, channel, {})];
    }

    method AddChunk(sid: u32, num: u32, data: bytes)
      modifies this`streams, this`chunks, this`inbox
      ensures View() == AddedChunk(old(View()), sid, num, data)
    {
      chunks := chunks[(sid, num) := data];
      if sid in streams {
        var info := streams[sid];
        info := info.(received := info.received + {num});
        streams := streams[sid := info];
        if |info.received| % U32 == info.total {
          CheckStreamComplete(sid);
        }
      }
    }

    method CheckStreamComplete(sid: u32)
      modifies this`streams, this`chunks, this`inbox
      ensures View() == Checked(old(View()), sid)
    {
      if sid !in streams {
        return;
      }
      var info := streams[sid];
      if |info.received| % U32 != info.total {
        return;
      }
      var content: bytes := [];
      for num := 0 to info.total
        invariant Joined(chunks, sid, num) == Some(content)
      {
        if (sid, num) !in chunks {
          MissingChunk(chunks, sid, num, info.total);
          return;
        }
        content := content + chunks[(sid, num)];
      }
      assert Without(chunks, sid, 0) == chunks;
      for num := 0 to info.total
        invariant View() == old(View()).(chunks := Without(old(chunks), sid, num))
      {
        chunks := chunks - {(sid, num)};
      }
      streams := streams - {sid};
      Handle(Msg(info.channel, content, info.channel != [], NilKey, false, false));
    }

    method SendMsg(m: Msg, now: int)
      modifies this`outbox
      ensures View() == old(View()).(outbox := Sent(codec, old(outbox), m, now))
    {
      var entry := OutboxMsg(if m.isChan then Some(m.name) else None, codec.encode(m), now);
      var key: utf8 := if entry.channel.Some? then entry.channel.value else [];
      var queue := if key in outbox then outbox[key] else [];
      outbox := outbox[key := queue + [entry]];
    }

    method FlushOutbox(now: int, maxAge: int)
      modifies this`outbox
      ensures View() == old(View()).(outbox := Flushed(old(outbox), now, maxAge))
    {
      var keys := outbox.Keys;
      while keys != {}
        invariant keys <= outbox.Keys == old(outbox).Keys
        invariant forall key :: key in keys ==> outbox[key] == old(outbox)[key]
        invariant forall key :: key in outbox && key !in keys ==> outbox[key] == Fresh(old(outbox)[key], now, maxAge)
        decreases keys
      {
        var key :| key in keys;
        var retained := Retain(outbox[key], now, maxAge);
        outbox := outbox[key := retained];
        keys := keys - {key};
      }
      assert outbox == Flushed(old(outbox), now, maxAge);
    }

    /** The loop over the messages of one channel. */
    method PickFrom(queue: seq<OutboxMsg>, lastTime: int, maxBytes: int, picked: seq<Msg>, size: nat,
                    ghost before: seq<OutboxMsg>)
        returns (msgs: seq<Msg>, totalBytes: nat)
      requires var p := Pick(codec, before, lastTime, maxBytes);
               picked == p.msgs && size == p.size
      ensures var p := Pick(codec, before + queue, lastTime, maxBytes);
              msgs == p.msgs && totalBytes == p.size
    {
      hide Pick, ValidUtf8;
      msgs, totalBytes := picked, size;
      assert before + queue[..0] == before;
      for j := 0 to |queue|
        invariant var p := Pick(codec, before + queue[..j], lastTime, maxBytes);
                  msgs == p.msgs && totalBytes == p.size
      {
        var entry := queue[j];
        assert before + queue[..j + 1] == before + queue[..j] + [entry];
        PickOneMore(codec, before + queue[..j], entry, lastTime, maxBytes);
        if entry.timestamp >= lastTime && totalBytes + |entry.msg| <= maxBytes {
          var m := codec.decode(entry.msg);
          if m.Some? {
            msgs := msgs + [m.value];
            totalBytes := totalBytes + |entry.msg|;
          }
        }
      }
      assert queue[..|queue|] == queue;
    }

    method Pickup(lastTime: int, maxBytes: int, names: seq<utf8>, now: int) returns (bundle: Bundle)
      ensures bundle == Bundle(BundleData(codec, Pick(codec, Candidates(outbox, names), lastTime, maxBytes).msgs), now)
    {
      assert Pick(codec, [], lastTime, maxBytes) == Picked([], [], 0);
      hide Pick, ValidUtf8;
      var msgs: seq<Msg> := [];
      var totalBytes := 0;
      for i := 0 to |names|
        invariant var p := Pick(codec, Candidates(outbox, names[..i]), lastTime, maxBytes);
                  msgs == p.msgs && totalBytes == p.size
      {
        ghost var before := Candidates(outbox, names[..i]);
        assert names[..i + 1][..i] == names[..i];
        assert Candidates(outbox, names[..i + 1]) == before + Queue(outbox, names[i]);
        if names[i] in outbox {
          msgs, totalBytes := PickFrom(outbox[names[i]], lastTime, maxBytes, msgs, totalBytes, before);
        } else {
          assert before + [] == before;
        }
      }
      assert names[..|names|] == names;
      bundle := Bundle(if msgs == [] then [] else codec.encodeAll(msgs), now);
    }

    method Dropoff(bundle: Bundle)
      modifies this`inbox
      ensures View() == DroppedOff(codec, old(View()), bundle)
    {
      var msgs := BundleMsgs(codec, bundle.data);
      for i := 0 to |msgs|
        invariant View() == old(View()).(inbox := old(inbox) + msgs[..i])
      {
        Handle(msgs[i]);
      }
    }
  }

  method Retain(msgs: seq<OutboxMsg>, now: int, maxAge: int) returns (kept: seq<OutboxMsg>)
    ensures kept == Fresh(msgs, now, maxAge)
  {
    kept := [];
    for i := 0 to |msgs|
      invariant kept == Fresh(msgs[..i], now, maxAge)
    {
      assert msgs[..i + 1][..i] == msgs[..i];
      if now - msgs[i].timestamp < maxAge {
        kept := kept + [msgs[i]];
      }
    }
    assert msgs[..|msgs|] == msgs;
  }

  /** One missing chunk is enough for the join to fail. */
  lemma {:induction false} MissingChunk(chunks: Chunks, sid: u32, num: nat, n: nat)
    requires num < n <= U32 && (sid, num) !in chunks
    ensures Joined(chunks, sid, n).None?
  {
    if num < n - 1 {
      MissingChunk(chunks, sid, num, n - 1);
    }
  }
}
