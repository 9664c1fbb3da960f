/** What a chunk handler leaves in the two maps, and that a delivered stream leaves nothing of itself behind. */
module Cleanup {
  import opened Bytes
  import opened Nodes
  import opened StreamRuns

  // ---- One handler call ----

  /**
   * A check that hands a message over removes the stream and its announced chunks and nothing else; any other one
   * changes nothing.
   */
  lemma CheckRemovesExactly(st: State, sid: u32)
    ensures var after, total := Checked(st, sid), if sid in st.streams then st.streams[sid].total else 0;
            if after.inbox == st.inbox then after == st
            else
              && sid in st.streams && after.streams == st.streams - {sid}
              && (forall key :: key in after.chunks <==> key in st.chunks && (key.0 != sid || key.1 >= total))
              && (forall key :: key in after.chunks ==> after.chunks[key] == st.chunks[key])
              && |after.inbox| == |st.inbox| + 1 && after.outbox == st.outbox
  {
    hide ValidUtf8, Joined, Reassembled;
  }

  /** The pieces of a stream once a chunk is stored. */
  function PiecesWith(st: State, sid: u32, num: u32, data: bytes): u32 -> bytes {
    (k: u32) => if k != num && (sid, k) in st.chunks then st.chunks[(sid, k)] else data
  }

  /** A chunk that makes the count match while every announced chunk is stored. */
  predicate Completes(st: State, sid: u32, num: u32) {
    && sid in st.streams
    && |st.streams[sid].received + {num}| % U32 == st.streams[sid].total
    && forall k: u32 :: k < st.streams[sid].total ==> k == num || (sid, k) in st.chunks
  }

  /** The chunk is stored in any case, whether its stream is open or not; it is marked when that is open. */
  lemma IncompleteChunkIsKept(st: State, sid: u32, num: u32, data: bytes)
    requires !Completes(st, sid, num)
    ensures var after := HandledChunk(st, sid, num, data);
            && after.chunks == st.chunks[(sid, num) := data]
            && after.streams == (if sid in st.streams then
                                   st.streams[sid := StreamInfo(st.streams[sid].total, st.streams[sid].channel,
                                                                st.streams[sid].received + {num})]
                                 else st.streams)
            && after.inbox == st.inbox && after.outbox == st.outbox
  {
    hide ValidUtf8;
    OneCheckIsEnough(st, sid, num, data);
    var marked := Marked(st, sid, num, data);
    if sid in st.streams && CountReached(marked.streams[sid]) {
      var k: u32 :| k < st.streams[sid].total && k != num && (sid, k) !in st.chunks;
      MissingChunk(marked.chunks, sid, k, st.streams[sid].total);
    }
  }

  /** A chunk that completes its stream hands over all pieces in order; of the stream only strangers stay. */
  lemma CompletingChunkDelivers(st: State, sid: u32, num: u32, data: bytes)
    requires Completes(st, sid, num)
    ensures var after, info := HandledChunk(st, sid, num, data), st.streams[sid];
            var content := Assembled(PiecesWith(st, sid, num, data), info.total);
            && after.inbox == st.inbox + [Msg(info.channel, content, info.channel != [], NilKey, false, false)]
            && after.streams == st.streams - {sid} && after.outbox == st.outbox
            && (forall key :: key in after.chunks <==>
                  (key in st.chunks || key == (sid, num)) && (key.0 != sid || key.1 >= info.total))
            && (forall key :: key in after.chunks ==>
                  after.chunks[key] == if key == (sid, num) then data else st.chunks[key])
  {
    hide ValidUtf8;
    OneCheckIsEnough(st, sid, num, data);
    var marked := Marked(st, sid, num, data);
    JoinedIsAssembled(marked.chunks, sid, PiecesWith(st, sid, num, data), st.streams[sid].total);
    hide Joined, Assembled;
    CheckRemovesExactly(marked, sid);
  }

  /** A header opens its stream with nothing received and touches no stored chunk. */
  lemma HeaderKeepsChunks(st: State, sid: u32, total: u32, channel: utf8)
    ensures Step(st, Header(sid, total, channel))
         == State(st.streams[sid := StreamInfo(total, channel, {})], st.chunks, st.outbox, st.inbox)
  {
  }

  // ---- Whole runs ----

  /** How many chunks had arrived when the stream was complete for the first time. */
  function CompletedAt(nums: seq<u32>, n: nat): (c: nat)
    requires Completed(nums, n)
    ensures 0 < c <= |nums| && Covers(nums[..c], n) && InRange(nums[..c], n)
    ensures forall d :: 0 <= d < c ==> !Completed(nums[..d], n)
  {
    var earlier := nums[..|nums| - 1];
    if Completed(earlier, n) then
      var c := CompletedAt(earlier, n);
      assert earlier[..c] == nums[..c];
      assert forall d :: 0 <= d < c ==> earlier[..d] == nums[..d];
      c
    else
      assert nums[..|nums|] == nums;
      NotCompletedBefore(nums, n);
      |nums|
  }

  /** Once complete, complete for ever. */
  lemma {:induction false} NotCompletedBefore(nums: seq<u32>, n: nat)
    requires nums != [] && !Completed(nums[..|nums| - 1], n)
    ensures forall d :: 0 <= d < |nums| ==> !Completed(nums[..d], n)
  {
    var earlier := nums[..|nums| - 1];
    if earlier != [] {
      NotCompletedBefore(earlier, n);
      assert forall d :: 0 <= d < |earlier| ==> earlier[..d] == nums[..d];
    }
    forall d | 0 <= d < |nums|
      ensures !Completed(nums[..d], n)
    {
      if d == |earlier| {
        assert nums[..d] == earlier;
      }
    }
  }

  /** The chunks that arrived after the delivery, or all of them when there was none. */
  function Late(nums: seq<u32>, n: nat): seq<u32> {
    if Completed(nums, n) then nums[CompletedAt(nums, n)..] else nums
  }

  /**
   * What is stored after a run of one stream: of the announced chunks those that arrived after the delivery, or without
   * one all that had arrived or were stored before, each with its bytes; chunks of other streams as before.
   */
  ghost predicate LeftOver(st: State, end: State, sid: u32, n: u32, data: u32 -> bytes, nums: seq<u32>) {
    && (forall k: u32 :: k < n ==>
          ((sid, k) in end.chunks <==> k in Late(nums, n) || (!Completed(nums, n) && (sid, k) in st.chunks)))
    && (forall k: u32 :: k in Late(nums, n) ==> (sid, k) in end.chunks && end.chunks[(sid, k)] == data(k))
    && (forall key: (u32, u32) :: key.0 != sid ==> (key in end.chunks <==> key in st.chunks))
    && (forall key: (u32, u32) :: key.0 != sid && key in st.chunks ==> end.chunks[key] == st.chunks[key])
  }

  lemma {:induction false} DeliveryLeavesNothing(
      st: State, sid: u32, channel: utf8, n: u32, data: u32 -> bytes, nums: seq<u32>)
    requires n > 0 && (InRange(nums, n) || OnlyStored(st, sid, []))
    ensures LeftOver(st, Run(st, Arrivals(sid, channel, n, data, nums)), sid, n, data, nums)
  {
    hide Run, Arrivals, LeftOver, Late, Completed, Checked, Marked, Assembled, Reassembled;
    if nums == [] {
      HeaderLeavesChunks(st, sid, channel, n, data);
    } else {
      var earlier, last := nums[..|nums| - 1], nums[|nums| - 1];
      assert nums == earlier + [last];
      DeliveryLeavesNothing(st, sid, channel, n, data, earlier);
      DeliveredOnceComplete(st, sid, channel, n, data, earlier);
      var was := Run(st, Arrivals(sid, channel, n, data, earlier));
      var end := Run(st, Arrivals(sid, channel, n, data, nums));
      var marked := Marked(was, sid, last, data(last));
      LastArrival(st, sid, channel, n, data, nums);
      LateOneMore(nums, n);
      MarkedChunks(was, sid, last, data(last));
      hide Covers, InRange, Collecting, OnlyStored;
      if Completed(earlier, n) {
        ClosedStaysClosed(was, sid, last, data(last));
        KeepsOneMore(st, was, end, sid, n, data, nums);
      } else {
        ChunkArrives(was, sid, channel, n, data, earlier, last);
        CheckCollecting(marked, sid, channel, n, data, nums);
        CheckRemovesExactly(marked, sid);
        if Completed(nums, n) {
          TotalOf(marked, sid, channel, n, data, nums);
          LeavesNothing(st, was, end, sid, n, data, nums);
        } else {
          KeepsOneMore(st, was, end, sid, n, data, nums);
        }
      }
    }
  }

  lemma HeaderLeavesChunks(st: State, sid: u32, channel: utf8, n: u32, data: u32 -> bytes)
    ensures LeftOver(st, Run(st, Arrivals(sid, channel, n, data, [])), sid, n, data, [])
  {
    assert Run(st, []) == st;
    assert Run(st, [Header(sid, n, channel)]) == AddedStream(st, sid, n, channel);
  }

  lemma MarkedChunks(st: State, sid: u32, num: u32, data: bytes)
    ensures Marked(st, sid, num, data).chunks == st.chunks[(sid, num) := data]
  {
  }

  lemma TotalOf(st: State, sid: u32, channel: utf8, n: u32, data: u32 -> bytes, nums: seq<u32>)
    requires Collecting(st, sid, channel, n, data, nums)
    ensures sid in st.streams && st.streams[sid].total == n
  {
  }

  /** A chunk that stays. */
  lemma KeepsOneMore(st: State, was: State, end: State, sid: u32, n: u32, data: u32 -> bytes, nums: seq<u32>)
    requires nums != [] && LeftOver(st, was, sid, n, data, nums[..|nums| - 1])
    requires end.chunks == was.chunks[(sid, nums[|nums| - 1]) := data(nums[|nums| - 1])]
    requires Completed(nums, n) <==> Completed(nums[..|nums| - 1], n)
    requires Late(nums, n) == Late(nums[..|nums| - 1], n) + [nums[|nums| - 1]]
    ensures LeftOver(st, end, sid, n, data, nums)
  {
    hide Completed, Late;
    var before, last := Late(nums[..|nums| - 1], n), nums[|nums| - 1];
    assert (before + [last])[|before|] == last;
    forall k: u32
      ensures k in before + [last] <==> k in before || k == last
    {
    }
  }

  /** The chunk that completes the stream. */
  lemma LeavesNothing(st: State, was: State, end: State, sid: u32, n: u32, data: u32 -> bytes, nums: seq<u32>)
    requires nums != [] && LeftOver(st, was, sid, n, data, nums[..|nums| - 1])
    requires Completed(nums, n) && Late(nums, n) == []
    requires var last := nums[|nums| - 1];
             var stored := was.chunks[(sid, last) := data(last)];
             && (forall key :: key in end.chunks <==> key in stored && (key.0 != sid || key.1 >= n))
             && (forall key :: key in end.chunks ==> end.chunks[key] == stored[key])
    ensures LeftOver(st, end, sid, n, data, nums)
  {
    hide Completed, Late;
  }

  lemma LateOneMore(nums: seq<u32>, n: nat)
    requires nums != []
    ensures var earlier, last := nums[..|nums| - 1], nums[|nums| - 1];
            && (Completed(nums, n) <==> Completed(earlier, n) || (Covers(nums, n) && InRange(nums, n)))
            && Late(nums, n) == if Completed(nums, n) && !Completed(earlier, n) then [] else Late(earlier, n) + [last]
  {
    hide Covers, InRange;
    var earlier := nums[..|nums| - 1];
    if Completed(earlier, n) {
      var c := CompletedAt(earlier, n);
      assert nums[c..] == earlier[c..] + [nums[|nums| - 1]];
    }
  }

  lemma ClosedStaysClosed(st: State, sid: u32, num: u32, data: bytes)
    requires sid !in st.streams
    ensures Checked(Marked(st, sid, num, data), sid) == st.(chunks := st.chunks[(sid, num) := data])
  {
  }
}
