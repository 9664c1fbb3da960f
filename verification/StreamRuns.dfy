/** Whole runs of stream headers and chunks through a node, each handler call taken as one step. */
module StreamRuns {
  import opened Bytes
  import opened Nodes

  datatype Event =
    | Header(sid: u32, total: u32, channel: utf8)
    | Chunk(sid: u32, num: u32, data: bytes)

  /** A chunk handler adds the chunk, which may check for completion, and then checks again. */
  function HandledChunk(st: State, sid: u32, num: u32, data: bytes): State {
    Checked(AddedChunk(st, sid, num, data), sid)
  }

  function Step(st: State, e: Event): State {
    match e
    case Header(sid, total, channel) => AddedStream(st, sid, total, channel)
    case Chunk(sid, num, data) => HandledChunk(st, sid, num, data)
  }

  function Run(st: State, events: seq<Event>): State {
    if events == [] then st else Step(Run(st, events[..|events| - 1]), events[|events| - 1])
  }

  /** The message a step hands over, if any. */
  function Output(st: State, e: Event): Option<Msg> {
    var after := Step(st, e).inbox;
    if |after| > |st.inbox| then Some(after[|st.inbox|]) else None
  }

  /** The messages handed over on behalf of one stream, in order. */
  function Deliveries(st: State, events: seq<Event>, sid: u32): seq<Msg> {
    if events == [] then []
    else
      var before, e := events[..|events| - 1], events[|events| - 1];
      var out := Output(Run(st, before), e);
      Deliveries(st, before, sid) + if e.sid == sid && out.Some? then [out.value] else []
  }

  function OnlyOf(sid: u32, events: seq<Event>): seq<Event> {
    if events == [] then []
    else
      var e := events[|events| - 1];
      OnlyOf(sid, events[..|events| - 1]) + if e.sid == sid then [e] else []
  }

  // ---- One step ----

  /** The second check of a chunk handler never finds anything left to do. */
  lemma OneCheckIsEnough(st: State, sid: u32, num: u32, data: bytes)
    ensures HandledChunk(st, sid, num, data) == Checked(Marked(st, sid, num, data), sid)
  {
  }

  lemma StepAppends(st: State, e: Event)
    ensures Step(st, e).inbox == st.inbox + if Output(st, e).Some? then [Output(st, e).value] else []
    ensures Step(st, e).outbox == st.outbox
  {
  }

  // ---- Isolation ----

  /** Two nodes that cannot be told apart by looking at one stream. */
  ghost predicate Agree(a: State, b: State, sid: u32) {
    && (sid in a.streams <==> sid in b.streams)
    && (sid in a.streams ==> a.streams[sid] == b.streams[sid])
    && (forall num: u32 :: (sid, num) in a.chunks <==> (sid, num) in b.chunks)
    && (forall num: u32 :: (sid, num) in a.chunks ==> a.chunks[(sid, num)] == b.chunks[(sid, num)])
  }

  lemma {:induction false} JoinedAgree(a: State, b: State, sid: u32, n: nat)
    requires Agree(a, b, sid) && n <= U32
    ensures Joined(a.chunks, sid, n) == Joined(b.chunks, sid, n)
  {
    if n > 0 {
      JoinedAgree(a, b, sid, n - 1);
      var last: u32 := n - 1;
      assert (sid, last) in a.chunks <==> (sid, last) in b.chunks;
    }
  }

  lemma CheckedAgree(a: State, b: State, sid: u32)
    requires Agree(a, b, sid)
    ensures Agree(Checked(a, sid), Checked(b, sid), sid)
    ensures |Checked(a, sid).inbox| - |a.inbox| == |Checked(b, sid).inbox| - |b.inbox|
    ensures Checked(a, sid).inbox[|a.inbox|..] == Checked(b, sid).inbox[|b.inbox|..]
  {
    if sid in a.streams {
      JoinedAgree(a, b, sid, a.streams[sid].total);
    }
  }

  lemma MarkedAgree(a: State, b: State, sid: u32, num: u32, data: bytes)
    requires Agree(a, b, sid)
    ensures Agree(Marked(a, sid, num, data), Marked(b, sid, num, data), sid)
    ensures Marked(a, sid, num, data).inbox == a.inbox && Marked(b, sid, num, data).inbox == b.inbox
  {
  }

  lemma StepAgrees(a: State, b: State, e: Event)
    requires Agree(a, b, e.sid)
    ensures Agree(Step(a, e), Step(b, e), e.sid)
    ensures Output(a, e) == Output(b, e)
  {
    match e
    case Header(sid, total, channel) =>
      assert Agree(AddedStream(a, sid, total, channel), AddedStream(b, sid, total, channel), sid);
    case Chunk(sid, num, data) =>
      hide Checked, Marked, AddedChunk, Agree;
      var ma, mb := Marked(a, sid, num, data), Marked(b, sid, num, data);
      MarkedAgree(a, b, sid, num, data);
      OneCheckIsEnough(a, sid, num, data);
      OneCheckIsEnough(b, sid, num, data);
      CheckedAgree(ma, mb, sid);
      assert Output(a, e).Some? ==> Output(a, e).value == Checked(ma, sid).inbox[|ma.inbox|..][0];
      assert Output(b, e).Some? ==> Output(b, e).value == Checked(mb, sid).inbox[|mb.inbox|..][0];
  }

  lemma StepLeavesOthers(st: State, e: Event, sid: u32)
    requires e.sid != sid
    ensures Agree(Step(st, e), st, sid)
  {
  }

  /** What happens to one stream among many is what happens to it alone. */
  lemma {:induction false} Isolation(st: State, events: seq<Event>, sid: u32)
    ensures Agree(Run(st, events), Run(st, OnlyOf(sid, events)), sid)
    ensures Deliveries(st, events, sid) == Deliveries(st, OnlyOf(sid, events), sid)
  {
    if events != [] {
      var before, e := events[..|events| - 1], events[|events| - 1];
      Isolation(st, before, sid);
      var together, alone := Run(st, before), Run(st, OnlyOf(sid, before));
      if e.sid == sid {
        StepAgrees(together, alone, e);
        assert OnlyOf(sid, events)[..|OnlyOf(sid, before)|] == OnlyOf(sid, before);
      } else {
        StepLeavesOthers(together, e, sid);
        assert OnlyOf(sid, events) == OnlyOf(sid, before);
      }
    }
  }

  // ---- What an open stream has received ----

  /** The last bytes sent for a chunk since the last header of its stream. */
  function LatestSince(events: seq<Event>, sid: u32, num: u32): Option<bytes> {
    if events == [] then None
    else
      var e := events[|events| - 1];
      if e.sid == sid && e.Header? then None
      else if e.sid == sid && e.num == num then Some(e.data)
      else LatestSince(events[..|events| - 1], sid, num)
  }

  function LatestHeader(events: seq<Event>, sid: u32): Option<Event> {
    if events == [] then None
    else
      var e := events[|events| - 1];
      if e.sid == sid && e.Header? then Some(e) else LatestHeader(events[..|events| - 1], sid)
  }

  ghost predicate Records(info: StreamInfo, chunks: Chunks, events: seq<Event>, sid: u32) {
    && LatestHeader(events, sid) == Some(Header(sid, info.total, info.channel))
    && forall num: u32 ::
         && (num in info.received <==> LatestSince(events, sid, num).Some?)
         && (num in info.received ==>
               (sid, num) in chunks && LatestSince(events, sid, num) == Some(chunks[(sid, num)]))
  }

  /**
   * In every state a node can reach, an open stream has marked exactly the chunk numbers sent since its
   * last header, and each of them is stored with the last bytes sent for it.
   */
  lemma {:induction false} OpenStreamsRecordTheirChunks(st: State, events: seq<Event>, sid: u32)
    requires st.streams == map[]
    requires sid in Run(st, events).streams
    ensures Records(Run(st, events).streams[sid], Run(st, events).chunks, events, sid)
  {
    if events != [] {
      var before, e := events[..|events| - 1], events[|events| - 1];
      var was := Run(st, before);
      if e.Header? && e.sid == sid {
      } else {
        StillOpen(was, e, sid);
        OpenStreamsRecordTheirChunks(st, before, sid);
        if e.sid != sid {
          StepLeavesOthers(was, e, sid);
        } else {
          OneCheckIsEnough(was, sid, e.num, e.data);
          assert Run(st, events) == Marked(was, sid, e.num, e.data);
        }
      }
    }
  }

  /** Only a header opens a stream. */
  lemma StillOpen(st: State, e: Event, sid: u32)
    requires sid in Step(st, e).streams && !(e.Header? && e.sid == sid)
    ensures sid in st.streams
  {
  }

  // ---- One stream from its header to its delivery ----

  /** The pieces 0 to n joined in order. */
  function Assembled(data: u32 -> bytes, n: nat): bytes
    requires n <= U32
  {
    if n == 0 then [] else Assembled(data, n - 1) + data(n - 1)
  }

  predicate Covers(nums: seq<u32>, n: nat) {
    forall k: u32 :: k < n ==> k in nums
  }

  predicate InRange(nums: seq<u32>, n: nat) {
    forall i :: 0 <= i < |nums| ==> nums[i] < n
  }

  /** At some point every announced number had arrived and no other one. */
  predicate Completed(nums: seq<u32>, n: nat) {
    nums != [] && (Completed(nums[..|nums| - 1], n) || (Covers(nums, n) && InRange(nums, n)))
  }

  /** A header announcing n chunks, then chunks in the order of `nums`, with whatever repetitions that has. */
  function Arrivals(sid: u32, channel: utf8, n: u32, data: u32 -> bytes, nums: seq<u32>): seq<Event> {
    if nums == [] then [Header(sid, n, channel)]
    else
      var last := nums[|nums| - 1];
      Arrivals(sid, channel, n, data, nums[..|nums| - 1]) + [Chunk(sid, last, data(last))]
  }

  /** A set of numbers below n has at most n members, and n only when none is missing. */
  lemma {:induction false} Pigeonhole(s: set<u32>, n: nat)
    requires n <= U32 && forall k :: k in s ==> k < n
    ensures |s| <= n
    ensures |s| == n <==> forall k: u32 :: k < n ==> k in s
  {
    if n == 0 {
      assert s == {};
    } else {
      var top: u32 := n - 1;
      Pigeonhole(s - {top}, n - 1);
      assert top !in s ==> s - {top} == s;
    }
  }

  /** When every announced number is in, the count test says whether another number is in as well. */
  lemma CountTellsStrangers(info: StreamInfo)
    requires info.total > 0 && forall k: u32 :: k < info.total ==> k in info.received
    ensures CountReached(info) <==> forall k :: k in info.received ==> k < info.total
  {
    var known := set k | k in info.received && k < info.total;
    var strangers := info.received - known;
    Pigeonhole(known, info.total);
    Pigeonhole(info.received, U32);
    assert info.received == known + strangers;
    assert |info.received| == info.total + |strangers|;
    if strangers != {} {
      assert |strangers| > 0;
    }
  }

  lemma {:induction false} JoinedIsAssembled(chunks: Chunks, sid: u32, data: u32 -> bytes, n: nat)
    requires n <= U32
    requires forall k: u32 :: k < n ==> (sid, k) in chunks && chunks[(sid, k)] == data(k)
    ensures Joined(chunks, sid, n) == Some(Assembled(data, n))
  {
    if n > 0 {
      var last: u32 := n - 1;
      JoinedIsAssembled(chunks, sid, data, n - 1);
      assert (sid, last) in chunks;
    }
  }

  /** An open stream that has received exactly `nums`. */
  ghost predicate Collecting(st: State, sid: u32, channel: utf8, n: u32, data: u32 -> bytes, nums: seq<u32>) {
    && sid in st.streams
    && st.streams[sid] == StreamInfo(n, channel, set k | k in nums)
    && forall k: u32 :: k in nums ==> (sid, k) in st.chunks && st.chunks[(sid, k)] == data(k)
  }

  /** No chunk of the stream is stored beyond those in `nums`. */
  ghost predicate OnlyStored(st: State, sid: u32, nums: seq<u32>) {
    forall k: u32 :: (sid, k) in st.chunks ==> k in nums
  }

  /**
   * After its header a stream is handed over at most once, and exactly when at some point all announced chunk
   * numbers had arrived and no number out of range: nothing before that, the joined pieces from then on. The node
   * may be in any state; only for numbers out of range no chunk of the stream may have been stored beforehand.
   */
  lemma {:induction false} DeliveredOnceComplete(
      st: State, sid: u32, channel: utf8, n: u32, data: u32 -> bytes, nums: seq<u32>)
    requires n > 0 && (InRange(nums, n) || OnlyStored(st, sid, []))
    ensures var end := Run(st, Arrivals(sid, channel, n, data, nums));
            if Completed(nums, n)
            then sid !in end.streams && end.inbox == st.inbox + [Reassembled(channel, Assembled(data, n))]
            else Collecting(end, sid, channel, n, data, nums) && end.inbox == st.inbox
                 && (OnlyStored(st, sid, []) ==> OnlyStored(end, sid, nums))
  {
    hide Run, Arrivals, Assembled, Checked, Marked, Covers, Collecting, OnlyStored, Reassembled;
    if nums == [] {
      HeaderArrives(st, sid, channel, n, data);
    } else {
      var earlier, last := nums[..|nums| - 1], nums[|nums| - 1];
      DeliveredOnceComplete(st, sid, channel, n, data, earlier);
      LastArrival(st, sid, channel, n, data, nums);
      var was := Run(st, Arrivals(sid, channel, n, data, earlier));
      assert Completed(nums, n) <==> Completed(earlier, n) || (Covers(nums, n) && InRange(nums, n));
      assert nums == earlier + [last];
      hide Completed, InRange;
      if Completed(earlier, n) {
        ClosedStays(was, sid, last, data(last));
      } else {
        ChunkArrives(was, sid, channel, n, data, earlier, last);
        CheckCollecting(Marked(was, sid, last, data(last)), sid, channel, n, data, nums);
      }
    }
  }

  lemma HeaderArrives(st: State, sid: u32, channel: utf8, n: u32, data: u32 -> bytes)
    ensures var end := Run(st, Arrivals(sid, channel, n, data, []));
            && Collecting(end, sid, channel, n, data, []) && end.inbox == st.inbox
            && (OnlyStored(st, sid, []) ==> OnlyStored(end, sid, []))
  {
    assert Run(st, []) == st;
    assert Run(st, [Header(sid, n, channel)]) == AddedStream(st, sid, n, channel);
  }

  lemma LastArrival(st: State, sid: u32, channel: utf8, n: u32, data: u32 -> bytes, nums: seq<u32>)
    requires nums != []
    ensures var was := Run(st, Arrivals(sid, channel, n, data, nums[..|nums| - 1]));
            var last := nums[|nums| - 1];
            Run(st, Arrivals(sid, channel, n, data, nums)) == Checked(Marked(was, sid, last, data(last)), sid)
  {
    var last := nums[|nums| - 1];
    var events := Arrivals(sid, channel, n, data, nums);
    assert events[..|events| - 1] == Arrivals(sid, channel, n, data, nums[..|nums| - 1]);
    var was := Run(st, events[..|events| - 1]);
    assert Run(st, events) == HandledChunk(was, sid, last, data(last));
    hide Run, Arrivals;
    OneCheckIsEnough(was, sid, last, data(last));
  }

  lemma ClosedStays(st: State, sid: u32, num: u32, data: bytes)
    requires sid !in st.streams
    ensures var end := Checked(Marked(st, sid, num, data), sid);
            end.streams == st.streams && end.inbox == st.inbox
  {
  }

  lemma ChunkArrives(st: State, sid: u32, channel: utf8, n: u32, data: u32 -> bytes, nums: seq<u32>, num: u32)
    requires Collecting(st, sid, channel, n, data, nums)
    ensures var marked := Marked(st, sid, num, data(num));
            && Collecting(marked, sid, channel, n, data, nums + [num])
            && marked.inbox == st.inbox
            && (OnlyStored(st, sid, nums) ==> OnlyStored(marked, sid, nums + [num]))
  {
    var marked := Marked(st, sid, num, data(num));
    assert marked.streams[sid].received == set k | k in nums + [num];
  }

  /** A check hands a collecting stream over exactly when it has all its chunks and no stranger. */
  lemma CheckCollecting(st: State, sid: u32, channel: utf8, n: u32, data: u32 -> bytes, nums: seq<u32>)
    requires n > 0 && Collecting(st, sid, channel, n, data, nums)
    requires InRange(nums, n) || OnlyStored(st, sid, nums)
    ensures var end := Checked(st, sid);
            if Covers(nums, n) && InRange(nums, n)
            then sid !in end.streams && end.inbox == st.inbox + [Reassembled(channel, Assembled(data, n))]
            else end == st
  {
    var info := st.streams[sid];
    assert forall k: u32 :: k in info.received <==> k in nums;
    if Covers(nums, n) {
      CountTellsStrangers(info);
      JoinedIsAssembled(st.chunks, sid, data, n);
      assert forall i :: 0 <= i < |nums| ==> nums[i] in info.received;
      assert InRange(nums, n) <==> forall k :: k in info.received ==> k < n;
    } else {
      var missing: u32 :| missing < n && missing !in nums;
      if InRange(nums, n) {
        Pigeonhole(info.received, n);
        assert missing !in info.received;
      } else {
        MissingChunk(st.chunks, sid, missing, n);
      }
    }
  }

  /** With announced numbers only, complete means that none is missing. */
  lemma {:induction false} CompletedInRange(nums: seq<u32>, n: nat)
    requires 0 < n <= U32 && InRange(nums, n)
    ensures Completed(nums, n) <==> Covers(nums, n)
  {
    if nums != [] {
      CompletedInRange(nums[..|nums| - 1], n);
      assert forall k :: k in nums[..|nums| - 1] ==> k in nums;
    } else {
      var first: u32 := 0;
      assert first !in nums;
    }
  }

  /** The same with any traffic of other streams in between. */
  lemma DeliveredOnceAmongOthers(
      st: State, events: seq<Event>, sid: u32, channel: utf8, n: u32, data: u32 -> bytes, nums: seq<u32>)
    requires n > 0 && (InRange(nums, n) || OnlyStored(st, sid, []))
    requires OnlyOf(sid, events) == Arrivals(sid, channel, n, data, nums)
    ensures Deliveries(st, events, sid)
         == if Completed(nums, n) then [Reassembled(channel, Assembled(data, n))] else []
  {
    hide Run, Deliveries, Arrivals, OnlyOf;
    Isolation(st, events, sid);
    DeliveredOnceComplete(st, sid, channel, n, data, nums);
    ArrivalsAreOfOneStream(sid, channel, n, data, nums);
    var alone := Deliveries(st, OnlyOf(sid, events), sid);
    DeliveriesAreTheInbox(st, OnlyOf(sid, events), sid);
    assert alone == (st.inbox + alone)[|st.inbox|..];
  }

  lemma {:induction false} ArrivalsAreOfOneStream(sid: u32, channel: utf8, n: u32, data: u32 -> bytes, nums: seq<u32>)
    ensures forall e :: e in Arrivals(sid, channel, n, data, nums) ==> e.sid == sid
  {
    if nums != [] {
      ArrivalsAreOfOneStream(sid, channel, n, data, nums[..|nums| - 1]);
    }
  }

  lemma {:induction false} DeliveriesAreTheInbox(st: State, events: seq<Event>, sid: u32)
    requires forall e :: e in events ==> e.sid == sid
    ensures Run(st, events).inbox == st.inbox + Deliveries(st, events, sid)
  {
    if events == [] {
      assert st.inbox + [] == st.inbox;
    } else {
      var before, e := events[..|events| - 1], events[|events| - 1];
      DeliveriesAreTheInbox(st, before, sid);
      StepAppends(Run(st, before), e);
      assert e in events;
    }
  }
}
