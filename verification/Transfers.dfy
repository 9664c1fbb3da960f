/** Messages from one node's outbox to another node's application: picked up, bundled, dropped off. */
module Transfers {
  import opened Bytes
  import opened Nodes
  import opened Chunking
  import opened Pickups

  /** The bundle that a pickup of one channel makes. */
  function PickedUp(codec: Codec, outbox: Outbox, key: utf8, lastTime: int, maxBytes: int, now: int): Bundle {
    Bundle(BundleData(codec, PickedMsgs(codec, outbox, [key], lastTime, maxBytes)), now)
  }

  /** The entries that sending messages makes, each with its time. */
  function Entries(codec: Codec, msgs: seq<Msg>, clock: Clock): (r: seq<OutboxMsg>)
    ensures |r| == |msgs|
  {
    if msgs == [] then []
    else
      var n := |msgs| - 1;
      Entries(codec, msgs[..n], clock) + [Entry(codec, msgs[n], clock(n))]
  }

  /** Messages of one queue are appended to it in order. */
  lemma {:induction false} SentAreQueued(codec: Codec, outbox: Outbox, msgs: seq<Msg>, clock: Clock, key: utf8)
    requires forall i :: 0 <= i < |msgs| ==> OutboxKey(msgs[i]) == key
    ensures Queue(SentAll(codec, outbox, msgs, clock), key) == Queue(outbox, key) + Entries(codec, msgs, clock)
  {
    hide ValidUtf8, Entry;
    if msgs == [] {
      assert Queue(outbox, key) + [] == Queue(outbox, key);
    } else {
      var n := |msgs| - 1;
      SentAreQueued(codec, outbox, msgs[..n], clock, key);
      var before := SentAll(codec, outbox, msgs[..n], clock);
      hide SentAll, Entries;
      OneMoreEntry(codec, msgs, clock);
      assert OutboxKey(msgs[n]) == key;
      OneMoreQueued(codec, before, msgs[n], clock(n), key);
      SentLast(codec, outbox, msgs, clock);
    }
  }

  /** So message i of those sent stands behind what was queued, with its text and the time of its own sending. */
  lemma SentAt(codec: Codec, outbox: Outbox, msgs: seq<Msg>, clock: Clock, key: utf8, i: nat)
    requires i < |msgs| && forall j :: 0 <= j < |msgs| ==> OutboxKey(msgs[j]) == key
    ensures var queue, before := Queue(SentAll(codec, outbox, msgs, clock), key), |Queue(outbox, key)|;
            && |queue| == before + |msgs|
            && queue[before + i]
               == OutboxMsg(if msgs[i].isChan then Some(msgs[i].name) else None, codec.encode(msgs[i]), clock(i))
  {
    SentAreQueued(codec, outbox, msgs, clock, key);
    EntryAt(codec, msgs, clock, i);
    hide SentAll, Entries, ValidUtf8;
  }

  lemma {:induction false} EntryAt(codec: Codec, msgs: seq<Msg>, clock: Clock, i: nat)
    requires i < |msgs|
    ensures Entries(codec, msgs, clock)[i]
         == OutboxMsg(if msgs[i].isChan then Some(msgs[i].name) else None, codec.encode(msgs[i]), clock(i))
  {
    hide ValidUtf8;
    if i < |msgs| - 1 {
      EntryAt(codec, msgs[..|msgs| - 1], clock, i);
    }
  }

  lemma OneMoreEntry(codec: Codec, msgs: seq<Msg>, clock: Clock)
    requires msgs != []
    ensures var n := |msgs| - 1;
            Entries(codec, msgs, clock) == Entries(codec, msgs[..n], clock) + [Entry(codec, msgs[n], clock(n))]
  {
    hide Entry;
  }

  lemma SentLast(codec: Codec, outbox: Outbox, msgs: seq<Msg>, clock: Clock)
    requires msgs != []
    ensures var n := |msgs| - 1;
            SentAll(codec, outbox, msgs, clock)
            == Sent(codec, SentAll(codec, outbox, msgs[..n], clock), msgs[n], clock(n))
  {
    hide Sent;
  }

  lemma OneMoreQueued(codec: Codec, outbox: Outbox, m: Msg, now: int, key: utf8)
    requires OutboxKey(m) == key
    ensures Queue(Sent(codec, outbox, m, now), key) == Queue(outbox, key) + [Entry(codec, m, now)]
  {
  }

  /** With room for everything, what is queued behind other messages is picked after them, in order. */
  lemma {:induction false} EntriesArePicked(
      codec: Codec, queue: seq<OutboxMsg>, msgs: seq<Msg>, clock: Clock, lastTime: int, maxBytes: int)
    requires Inverse(codec) && forall i: nat :: i < |msgs| ==> clock(i) >= lastTime
    requires EligibleSize(codec, queue + Entries(codec, msgs, clock), lastTime) <= maxBytes
    ensures var all := Pick(codec, queue + Entries(codec, msgs, clock), lastTime, maxBytes);
            all.msgs == Pick(codec, queue, lastTime, maxBytes).msgs + msgs
            && all.size == EligibleSize(codec, queue + Entries(codec, msgs, clock), lastTime)
  {
    hide Pick, ValidUtf8, Inverse;
    if msgs == [] {
      assert queue + Entries(codec, [], clock) == queue;
      FittingAreTaken(codec, queue, lastTime, maxBytes);
      assert Pick(codec, queue, lastTime, maxBytes).msgs + [] == Pick(codec, queue, lastTime, maxBytes).msgs;
    } else {
      var n := |msgs| - 1;
      var before, entry := queue + Entries(codec, msgs[..n], clock), Entry(codec, msgs[n], clock(n));
      OneMoreEntry(codec, msgs, clock);
      assert queue + Entries(codec, msgs, clock) == before + [entry];
      hide Entries;
      EncodedIsReadable(codec, msgs[n], clock(n), lastTime);
      SizeOneMore(codec, before, entry, lastTime);
      EntriesArePicked(codec, queue, msgs[..n], clock, lastTime, maxBytes);
      PickOneMore(codec, before, entry, lastTime, maxBytes);
      assert msgs == msgs[..n] + [msgs[n]];
    }
  }

  lemma EncodedIsReadable(codec: Codec, m: Msg, now: int, lastTime: int)
    requires Inverse(codec) && now >= lastTime
    ensures var entry := Entry(codec, m, now);
            codec.decode(entry.msg) == Some(m) && entry.timestamp >= lastTime && Eligible(codec, entry, lastTime)
  {
    assert codec.decode(codec.encode(m)) == Some(m);
  }

  lemma SizeOneMore(codec: Codec, queue: seq<OutboxMsg>, entry: OutboxMsg, lastTime: int)
    ensures EligibleSize(codec, queue + [entry], lastTime)
         == EligibleSize(codec, queue, lastTime) + if Eligible(codec, entry, lastTime) then |entry.msg| else 0
  {
    hide ValidUtf8;
    assert (queue + [entry])[..|queue|] == queue;
  }

  /**
   * Messages sent to one queue of a node, picked up with room for all and dropped off at another node, reach its
   * application in order, behind what the pickup takes of the messages queued before; nothing else there changes.
   */
  lemma SentReachApplication(
      codec: Codec, outbox: Outbox, there: State, msgs: seq<Msg>, key: utf8, clock: Clock, lastTime: int,
      maxBytes: int, now: int)
    requires Inverse(codec)
    requires forall i: nat :: i < |msgs| ==> OutboxKey(msgs[i]) == key && clock(i) >= lastTime
    requires EligibleSize(codec, Queue(SentAll(codec, outbox, msgs, clock), key), lastTime) <= maxBytes
    ensures var bundle := PickedUp(codec, SentAll(codec, outbox, msgs, clock), key, lastTime, maxBytes, now);
            var earlier := PickedMsgs(codec, outbox, [key], lastTime, maxBytes);
            DroppedOff(codec, there, bundle) == there.(inbox := there.inbox + (earlier + msgs))
  {
    var after := SentAll(codec, outbox, msgs, clock);
    OnlyQueue(outbox, key);
    OnlyQueue(after, key);
    hide Pick, Candidates, SentAll, EligibleSize, ValidUtf8, BundleMsgs, BundleData, Entries;
    SentAreQueued(codec, outbox, msgs, clock, key);
    EntriesArePicked(codec, Queue(outbox, key), msgs, clock, lastTime, maxBytes);
    BundleRoundTrip(codec, PickedMsgs(codec, after, [key], lastTime, maxBytes));
  }

  lemma OnlyQueue(outbox: Outbox, key: utf8)
    ensures Candidates(outbox, [key]) == Queue(outbox, key)
  {
    assert [key][..0] == [];
    assert Candidates(outbox, [key]) == Candidates(outbox, [key][..0]) + Queue(outbox, key);
  }

  /**
   * So a message that is sent unsplit arrives as it was, while the header and the chunks of a split one arrive as they
   * were cut: dropping off hands each of them to the application, opens no stream and stores no chunk. The same frames
   * given to the chunk handlers become one message (Chunking.EndToEnd).
   */
  lemma SplitMessageArrivesInPieces(
      codec: Codec, outbox: Outbox, there: State, m: Msg, chunkSize: u32, sid: u32, clock: Clock, lastTime: int,
      maxBytes: int, now: int)
    requires Inverse(codec) && chunkSize > CHUNK_HEADER_SIZE && forall i: nat :: clock(i) >= lastTime
    requires var sent := SentAll(codec, outbox, Frames(m, chunkSize, sid).value, clock);
             EligibleSize(codec, Queue(sent, OutboxKey(m)), lastTime) <= maxBytes
    ensures var frames := Frames(m, chunkSize, sid).value;
            var bundle := PickedUp(codec, SentAll(codec, outbox, frames, clock), OutboxKey(m), lastTime, maxBytes, now);
            var after := DroppedOff(codec, there, bundle);
            && after.inbox == there.inbox + (PickedMsgs(codec, outbox, [OutboxKey(m)], lastTime, maxBytes) + frames)
            && after.streams == there.streams && after.chunks == there.chunks
            && (if FitsOneMessage(m.content, PayloadSize(chunkSize)) then frames == [m]
                else |frames| > 1 && forall i :: 0 <= i < |frames| ==> frames[i].chunked)
  {
    hide Frames, FitsOneMessage, SentAll, EligibleSize, PickedUp, PickedMsgs, Queue, OutboxKey, ValidUtf8, Inverse;
    FramesAreFragments(m, chunkSize, sid);
    var frames := Frames(m, chunkSize, sid).value;
    SentReachApplication(codec, outbox, there, frames, OutboxKey(m), clock, lastTime, maxBytes, now);
  }

  /** The frames of a message keep its name and channel flag; those of a split message are all marked as chunked. */
  lemma FramesAreFragments(m: Msg, chunkSize: u32, sid: u32)
    requires chunkSize > CHUNK_HEADER_SIZE
    ensures Frames(m, chunkSize, sid).Ok?
    ensures var frames := Frames(m, chunkSize, sid).value;
            && (forall i :: 0 <= i < |frames| ==> OutboxKey(frames[i]) == OutboxKey(m))
            && (if FitsOneMessage(m.content, PayloadSize(chunkSize)) then frames == [m]
                else |frames| > 1 && forall i :: 0 <= i < |frames| ==> frames[i].chunked)
  {
    hide Length32, Piece, ValidUtf8;
    var payload := PayloadSize(chunkSize);
    if !FitsOneMessage(m.content, payload) {
      var total := TotalChunks(m.content, payload);
      SplitHasChunks(m.content, payload);
      var header, chunks := HeaderMsg(m, sid, total), ChunkMsgs(m, payload, sid, total);
      hide TotalChunks, ChunkMsgs;
      forall i: nat | 0 < i < 1 + |chunks|
        ensures OutboxKey(([header] + chunks)[i]) == OutboxKey(m) && ([header] + chunks)[i].chunked
      {
        ChunkAt(m, payload, sid, total, i - 1);
      }
    }
  }

  lemma SplitHasChunks(content: bytes, payload: u32)
    requires payload > 0 && !FitsOneMessage(content, payload)
    ensures TotalChunks(content, payload) >= 1
  {
  }
}
