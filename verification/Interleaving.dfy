/** Chunk handlers running at the same time: every access to a shared map is one step, in any interleaving. */
module Interleaving {
  import opened Bytes
  import opened Nodes
  import opened StreamRuns

  /**
   * Where a handler stands. Adding a chunk may run a first completeness check; a second one always follows.
   * A check takes a copy of the stream's record, joins the chunks one lookup at a time, removes them one by one,
   * removes the stream, and hands the message over.
   */
  datatype Pc =
    | InsertChunk
    | MarkReceived
    | Snapshot(second: bool)
    | Collect(second: bool, info: StreamInfo, next: nat, content: bytes)
    | RemoveChunks(second: bool, info: StreamInfo, next: nat, content: bytes)
    | RemoveStream(second: bool, info: StreamInfo, content: bytes)
    | HandOver(second: bool, info: StreamInfo, content: bytes)
    | Finished

  /** The chunk a handler was called with. */
  datatype Task = Task(sid: u32, num: u32, data: bytes)

  /** The shared maps, the messages handed over (with their stream), and one position per handler. */
  datatype System = System(streams: Streams, chunks: Chunks, delivered: seq<(u32, Msg)>, pcs: seq<Pc>)

  /** Where a handler goes when a check ends. */
  function Return(second: bool): Pc {
    if second then Finished else Snapshot(true)
  }

  /** One step of handler h. */
  function Step(tasks: seq<Task>, sys: System, h: nat): System
    requires h < |tasks| == |sys.pcs|
  {
    var t := tasks[h];
    match sys.pcs[h]
    case InsertChunk =>
      sys.(chunks := sys.chunks[(t.sid, t.num) := t.data], pcs := sys.pcs[h := MarkReceived])
    case MarkReceived =>
      if t.sid !in sys.streams then sys.(pcs := sys.pcs[h := Snapshot(true)])
      else
        var info := Received(sys.streams[t.sid], t.num);
        sys.(streams := sys.streams[t.sid := info], pcs := sys.pcs[h := Snapshot(!CountReached(info))])
    case Snapshot(second) =>
      if t.sid !in sys.streams || !CountReached(sys.streams[t.sid]) then sys.(pcs := sys.pcs[h := Return(second)])
      else sys.(pcs := sys.pcs[h := Collect(second, sys.streams[t.sid], 0, [])])
    case Collect(second, info, next, content) =>
      if next >= info.total then sys.(pcs := sys.pcs[h := RemoveChunks(second, info, 0, content)])
      else if (t.sid, next) !in sys.chunks then sys.(pcs := sys.pcs[h := Return(second)])
      else sys.(pcs := sys.pcs[h := Collect(second, info, next + 1, content + sys.chunks[(t.sid, next)])])
    case RemoveChunks(second, info, next, content) =>
      if next >= info.total then sys.(pcs := sys.pcs[h := RemoveStream(second, info, content)])
      else sys.(chunks := sys.chunks - {(t.sid, next)},
                pcs := sys.pcs[h := RemoveChunks(second, info, next + 1, content)])
    case RemoveStream(second, info, content) =>
      sys.(streams := sys.streams - {t.sid}, pcs := sys.pcs[h := HandOver(second, info, content)])
    case HandOver(second, info, content) =>
      sys.(delivered := sys.delivered + [(t.sid, Reassembled(info.channel, content))],
           pcs := sys.pcs[h := Return(second)])
    case Finished => sys
  }

  /** A schedule names the handler that moves next; names of no handler are skipped. */
  function Run(tasks: seq<Task>, sys: System, schedule: seq<nat>): (end: System)
    requires |tasks| == |sys.pcs|
    ensures |end.pcs| == |tasks|
  {
    if schedule == [] then sys
    else
      var before := Run(tasks, sys, schedule[..|schedule| - 1]);
      var h := schedule[|schedule| - 1];
      if h < |tasks| then Step(tasks, before, h) else before
  }

  // ---- What is sent ----

  /** The announced size, the channel and the pieces of a stream. */
  datatype Source = Source(total: u32, channel: utf8, data: u32 -> bytes)

  function Original(src: Source): Msg {
    Reassembled(src.channel, Assembled(src.data, src.total))
  }

  /** Headers have been handled, no chunk of these streams has been stored, and no handler has begun. */
  ghost predicate Initial(tasks: seq<Task>, sys: System, sources: map<u32, Source>) {
    && |tasks| == |sys.pcs|
    && (forall sid :: sid in sources ==>
          && sources[sid].total > 0
          && sid in sys.streams
          && sys.streams[sid] == StreamInfo(sources[sid].total, sources[sid].channel, {})
          && forall k: u32 :: (sid, k) !in sys.chunks)
    && (forall h :: 0 <= h < |tasks| ==> sys.pcs[h] == InsertChunk && Genuine(tasks[h], sources))
    && sys.delivered == []
  }

  /** A chunk of one of the streams, with its number in range and its own bytes. */
  predicate Genuine(t: Task, sources: map<u32, Source>) {
    t.sid in sources && t.num < sources[t.sid].total && t.data == sources[t.sid].data(t.num)
  }

  // ---- Safety ----

  predicate GoodRecord(info: StreamInfo, src: Source) {
    info.total == src.total && info.channel == src.channel && forall k :: k in info.received ==> k < src.total
  }

  /** What a handler carries along agrees with the stream. */
  predicate GoodPc(pc: Pc, src: Source) {
    match pc
    case Collect(_, info, next, content) =>
      GoodRecord(info, src) && next <= src.total && content == Assembled(src.data, next)
    case RemoveChunks(_, info, _, content) => GoodRecord(info, src) && content == Assembled(src.data, src.total)
    case RemoveStream(_, info, content) => GoodRecord(info, src) && content == Assembled(src.data, src.total)
    case HandOver(_, info, content) => GoodRecord(info, src) && content == Assembled(src.data, src.total)
    case _ => true
  }

  /** Everything the system holds about stream sid is a true part of it. */
  ghost predicate Safe(tasks: seq<Task>, sys: System, sid: u32, src: Source)
    requires |tasks| == |sys.pcs|
  {
    && (forall k: u32 :: (sid, k) in sys.chunks ==> sys.chunks[(sid, k)] == src.data(k))
    && (sid in sys.streams ==> GoodRecord(sys.streams[sid], src))
    && (forall h :: 0 <= h < |tasks| && tasks[h].sid == sid ==>
          GoodPc(sys.pcs[h], src) && tasks[h].num < src.total && tasks[h].data == src.data(tasks[h].num))
    && (forall i :: 0 <= i < |sys.delivered| && sys.delivered[i].0 == sid ==> sys.delivered[i].1 == Original(src))
  }

  lemma StepKeepsSafe(tasks: seq<Task>, sys: System, h: nat, sid: u32, src: Source)
    requires h < |tasks| == |sys.pcs| && Safe(tasks, sys, sid, src)
    ensures Safe(tasks, Step(tasks, sys, h), sid, src)
  {
    if tasks[h].sid == sid {
      OwnPcStaysGood(tasks, sys, h, src);
      OwnStepKeepsSafe(tasks, sys, h, src);
    } else {
      OtherStepKeepsSafe(tasks, sys, h, sid, src);
    }
  }

  /** A step for another stream leaves this one alone. */
  lemma OtherStepLeaves(tasks: seq<Task>, sys: System, h: nat, sid: u32)
    requires h < |tasks| == |sys.pcs| && tasks[h].sid != sid
    ensures var after := Step(tasks, sys, h);
            && (sid in after.streams <==> sid in sys.streams)
            && (sid in sys.streams ==> after.streams[sid] == sys.streams[sid])
            && (forall k: u32 :: (sid, k) in after.chunks <==> (sid, k) in sys.chunks)
            && (forall k: u32 :: (sid, k) in sys.chunks ==> after.chunks[(sid, k)] == sys.chunks[(sid, k)])
            && (forall g :: 0 <= g < |tasks| && tasks[g].sid == sid ==> after.pcs[g] == sys.pcs[g])
            && |after.pcs| == |sys.pcs|
            && sys.delivered <= after.delivered
            && (forall i :: |sys.delivered| <= i < |after.delivered| ==> after.delivered[i].0 != sid)
  {
    hide CountReached, Reassembled, Received;
  }

  lemma OtherStepKeepsSafe(tasks: seq<Task>, sys: System, h: nat, sid: u32, src: Source)
    requires h < |tasks| == |sys.pcs| && tasks[h].sid != sid && Safe(tasks, sys, sid, src)
    ensures Safe(tasks, Step(tasks, sys, h), sid, src)
  {
    OtherStepLeaves(tasks, sys, h, sid);
    hide Step, GoodPc, GoodRecord, Original;
  }

  lemma OwnStepKeepsSafe(tasks: seq<Task>, sys: System, h: nat, src: Source)
    requires h < |tasks| == |sys.pcs| && Safe(tasks, sys, tasks[h].sid, src)
    requires GoodPc(Step(tasks, sys, h).pcs[h], src)
    requires sys.pcs[h].HandOver? ==> Reassembled(sys.pcs[h].info.channel, sys.pcs[h].content) == Original(src)
    ensures Safe(tasks, Step(tasks, sys, h), tasks[h].sid, src)
  {
    OwnStepKeepsMaps(tasks, sys, h, src);
    OwnStepKeepsDeliveries(tasks, sys, h, src);
    forall g | 0 <= g < |tasks| && tasks[g].sid == tasks[h].sid && g != h
      ensures Step(tasks, sys, h).pcs[g] == sys.pcs[g]
    {
      OtherHandlersStay(tasks, sys, h, g);
    }
    hide Step, GoodPc, GoodRecord, Original;
  }

  lemma OtherHandlersStay(tasks: seq<Task>, sys: System, h: nat, g: nat)
    requires h < |tasks| == |sys.pcs| && g < |tasks| && g != h
    ensures Step(tasks, sys, h).pcs[g] == sys.pcs[g]
  {
    hide CountReached, Received, Reassembled;
  }

  lemma OwnStepKeepsMaps(tasks: seq<Task>, sys: System, h: nat, src: Source)
    requires h < |tasks| == |sys.pcs| && Safe(tasks, sys, tasks[h].sid, src)
    ensures var after, sid := Step(tasks, sys, h), tasks[h].sid;
            && (forall k: u32 :: (sid, k) in after.chunks ==> after.chunks[(sid, k)] == src.data(k))
            && (sid in after.streams ==> GoodRecord(after.streams[sid], src))
  {
    hide CountReached, GoodPc, Original, Reassembled;
  }

  lemma OwnStepKeepsDeliveries(tasks: seq<Task>, sys: System, h: nat, src: Source)
    requires h < |tasks| == |sys.pcs| && Safe(tasks, sys, tasks[h].sid, src)
    requires sys.pcs[h].HandOver? ==> Reassembled(sys.pcs[h].info.channel, sys.pcs[h].content) == Original(src)
    ensures var after, sid := Step(tasks, sys, h), tasks[h].sid;
            forall i :: 0 <= i < |after.delivered| && after.delivered[i].0 == sid ==>
              after.delivered[i].1 == Original(src)
  {
    hide CountReached, GoodPc, Original, Reassembled, Received;
  }

  lemma OwnPcStaysGood(tasks: seq<Task>, sys: System, h: nat, src: Source)
    requires h < |tasks| == |sys.pcs| && Safe(tasks, sys, tasks[h].sid, src)
    ensures GoodPc(Step(tasks, sys, h).pcs[h], src)
    ensures sys.pcs[h].HandOver? ==> Reassembled(sys.pcs[h].info.channel, sys.pcs[h].content) == Original(src)
  {
    hide CountReached;
    assert GoodPc(sys.pcs[h], src);
  }

  // ---- Progress ----

  predicate Removes(pc: Pc) {
    pc.RemoveChunks? || pc.RemoveStream? || pc.HandOver?
  }

  predicate Pending(pc: Pc) {
    pc.Snapshot? || pc.Collect?
  }

  predicate PastMark(pc: Pc) {
    !pc.InsertChunk? && !pc.MarkReceived?
  }

  ghost predicate SomeRemoves(tasks: seq<Task>, sys: System, sid: u32)
    requires |tasks| == |sys.pcs|
  {
    exists h :: 0 <= h < |tasks| && tasks[h].sid == sid && Removes(sys.pcs[h])
  }

  ghost predicate SomePending(tasks: seq<Task>, sys: System, sid: u32)
    requires |tasks| == |sys.pcs|
  {
    exists h :: 0 <= h < |tasks| && tasks[h].sid == sid && Pending(sys.pcs[h])
  }

  ghost predicate SomeDelivered(sys: System, sid: u32) {
    exists i :: 0 <= i < |sys.delivered| && sys.delivered[i].0 == sid
  }

  predicate AllReceived(info: StreamInfo) {
    forall k: u32 :: k < info.total ==> k in info.received
  }

  /** No handler has begun to remove stream sid: every chunk stored stays stored and every mark stays. */
  ghost predicate Intact(tasks: seq<Task>, sys: System, sid: u32)
    requires |tasks| == |sys.pcs|
  {
    && sid in sys.streams
    && (forall k :: k in sys.streams[sid].received ==> (sid, k) in sys.chunks)
    && (forall h :: 0 <= h < |tasks| && tasks[h].sid == sid ==>
          && (!sys.pcs[h].InsertChunk? ==> (sid, tasks[h].num) in sys.chunks)
          && (PastMark(sys.pcs[h]) ==> tasks[h].num in sys.streams[sid].received)
          && (sys.pcs[h].Collect? ==> AllReceived(sys.streams[sid])))
    && (AllReceived(sys.streams[sid]) ==> SomePending(tasks, sys, sid))
  }

  /** Stream sid is intact, or some handler is removing it and will deliver it, or it was delivered. */
  ghost predicate Alive(tasks: seq<Task>, sys: System, sid: u32)
    requires |tasks| == |sys.pcs|
  {
    SomeDelivered(sys, sid) || SomeRemoves(tasks, sys, sid) || Intact(tasks, sys, sid)
  }

  lemma StepKeepsAlive(tasks: seq<Task>, sys: System, h: nat, sid: u32, src: Source)
    requires h < |tasks| == |sys.pcs| && Safe(tasks, sys, sid, src) && src.total > 0
    requires Alive(tasks, sys, sid)
    ensures Alive(tasks, Step(tasks, sys, h), sid)
  {
    hide CountReached, Intact, Safe, Reassembled;
    var after := Step(tasks, sys, h);
    assert forall g :: 0 <= g < |tasks| && g != h ==> after.pcs[g] == sys.pcs[g];
    if SomeDelivered(sys, sid) {
      var i :| 0 <= i < |sys.delivered| && sys.delivered[i].0 == sid;
      assert after.delivered[i].0 == sid;
    } else if SomeRemoves(tasks, sys, sid) {
      var g :| 0 <= g < |tasks| && tasks[g].sid == sid && Removes(sys.pcs[g]);
      if g != h {
        assert Removes(after.pcs[g]);
      } else if sys.pcs[h].HandOver? {
        assert after.delivered[|sys.delivered|].0 == sid;
      } else {
        assert Removes(after.pcs[h]);
      }
    } else if tasks[h].sid != sid {
      OtherStepKeepsIntact(tasks, sys, h, sid);
    } else {
      OwnStepKeepsAlive(tasks, sys, h, sid, src);
    }
  }

  lemma OtherStepKeepsIntact(tasks: seq<Task>, sys: System, h: nat, sid: u32)
    requires h < |tasks| == |sys.pcs| && tasks[h].sid != sid && Intact(tasks, sys, sid)
    ensures Intact(tasks, Step(tasks, sys, h), sid)
  {
    OtherStepLeaves(tasks, sys, h, sid);
    hide Step;
    if AllReceived(sys.streams[sid]) {
      var g :| 0 <= g < |tasks| && tasks[g].sid == sid && Pending(sys.pcs[g]);
      assert Pending(Step(tasks, sys, h).pcs[g]);
    }
  }

  lemma OwnStepKeepsAlive(tasks: seq<Task>, sys: System, h: nat, sid: u32, src: Source)
    requires h < |tasks| == |sys.pcs| && tasks[h].sid == sid && src.total > 0
    requires Safe(tasks, sys, sid, src) && Intact(tasks, sys, sid) && !Removes(sys.pcs[h])
    ensures Alive(tasks, Step(tasks, sys, h), sid)
  {
    hide CountReached;
    var after := Step(tasks, sys, h);
    if sys.pcs[h].InsertChunk? {
      InsertKeepsIntact(tasks, sys, h, sid);
    } else if sys.pcs[h].MarkReceived? {
      MarkKeepsIntact(tasks, sys, h, sid);
    } else if sys.pcs[h].Snapshot? {
      CountTellsCompleteness(sys.streams[sid]);
      SnapshotKeepsIntact(tasks, sys, h, sid);
    } else if sys.pcs[h].Collect? {
      var Collect(_, copy, next, _) := sys.pcs[h];
      assert GoodPc(sys.pcs[h], src) && AllReceived(sys.streams[sid]);
      if next >= copy.total {
        assert Removes(after.pcs[h]);
      } else {
        CollectKeepsIntact(tasks, sys, h, sid);
      }
    }
  }

  lemma InsertKeepsIntact(tasks: seq<Task>, sys: System, h: nat, sid: u32)
    requires h < |tasks| == |sys.pcs| && tasks[h].sid == sid && sys.pcs[h].InsertChunk?
    requires Intact(tasks, sys, sid)
    ensures Intact(tasks, Step(tasks, sys, h), sid)
  {
    var after := Step(tasks, sys, h);
    assert forall g :: 0 <= g < |tasks| && g != h ==> after.pcs[g] == sys.pcs[g];
    if AllReceived(sys.streams[sid]) {
      var g :| 0 <= g < |tasks| && tasks[g].sid == sid && Pending(sys.pcs[g]);
      assert Pending(after.pcs[g]);
    }
  }

  lemma MarkKeepsIntact(tasks: seq<Task>, sys: System, h: nat, sid: u32)
    requires h < |tasks| == |sys.pcs| && tasks[h].sid == sid && sys.pcs[h].MarkReceived?
    requires Intact(tasks, sys, sid)
    ensures Intact(tasks, Step(tasks, sys, h), sid)
  {
    hide CountReached;
    var after := Step(tasks, sys, h);
    assert forall g :: 0 <= g < |tasks| && g != h ==> after.pcs[g] == sys.pcs[g];
    assert Pending(after.pcs[h]);
  }

  lemma SnapshotKeepsIntact(tasks: seq<Task>, sys: System, h: nat, sid: u32)
    requires h < |tasks| == |sys.pcs| && tasks[h].sid == sid && sys.pcs[h].Snapshot?
    requires Intact(tasks, sys, sid) && (CountReached(sys.streams[sid]) <==> AllReceived(sys.streams[sid]))
    ensures Intact(tasks, Step(tasks, sys, h), sid)
  {
    hide CountReached;
    var after := Step(tasks, sys, h);
    assert forall g :: 0 <= g < |tasks| && g != h ==> after.pcs[g] == sys.pcs[g];
    assert AllReceived(sys.streams[sid]) ==> Pending(after.pcs[h]);
  }

  lemma CollectKeepsIntact(tasks: seq<Task>, sys: System, h: nat, sid: u32)
    requires h < |tasks| == |sys.pcs| && tasks[h].sid == sid && sys.pcs[h].Collect?
    requires Intact(tasks, sys, sid) && sys.pcs[h].next < sys.pcs[h].info.total == sys.streams[sid].total
    ensures Intact(tasks, Step(tasks, sys, h), sid)
  {
    var after := Step(tasks, sys, h);
    assert forall g :: 0 <= g < |tasks| && g != h ==> after.pcs[g] == sys.pcs[g];
    var next: u32 := sys.pcs[h].next;
    assert next in sys.streams[sid].received;
    assert Pending(after.pcs[h]);
  }

  /** The count test is completeness while only announced numbers are marked. */
  lemma CountTellsCompleteness(info: StreamInfo)
    requires forall k :: k in info.received ==> k < info.total
    ensures CountReached(info) <==> AllReceived(info)
  {
    Pigeonhole(info.received, info.total);
  }

  // ---- Main results ----

  lemma {:induction false} RunsStaySafeAndAlive(
      tasks: seq<Task>, sys: System, sources: map<u32, Source>, schedule: seq<nat>, sid: u32)
    requires Initial(tasks, sys, sources) && sid in sources
    ensures Safe(tasks, Run(tasks, sys, schedule), sid, sources[sid])
    ensures Alive(tasks, Run(tasks, sys, schedule), sid)
  {
    if schedule == [] {
      var first: u32 := 0;
      assert first !in sys.streams[sid].received;
      assert Intact(tasks, sys, sid);
    } else {
      RunsStaySafeAndAlive(tasks, sys, sources, schedule[..|schedule| - 1], sid);
      var before, h := Run(tasks, sys, schedule[..|schedule| - 1]), schedule[|schedule| - 1];
      if h < |tasks| {
        StepKeepsSafe(tasks, before, h, sid, sources[sid]);
        StepKeepsAlive(tasks, before, h, sid, sources[sid]);
      }
    }
  }

  /** In every interleaving, at every moment, every message handed over for a stream is the original message. */
  lemma DeliveriesAreOriginals(
      tasks: seq<Task>, sys: System, sources: map<u32, Source>, schedule: seq<nat>, i: nat)
    requires Initial(tasks, sys, sources)
    requires i < |Run(tasks, sys, schedule).delivered|
    requires Run(tasks, sys, schedule).delivered[i].0 in sources
    ensures Run(tasks, sys, schedule).delivered[i].1 == Original(sources[Run(tasks, sys, schedule).delivered[i].0])
  {
    RunsStaySafeAndAlive(tasks, sys, sources, schedule, Run(tasks, sys, schedule).delivered[i].0);
  }

  ghost predicate Handles(tasks: seq<Task>, sid: u32, k: u32) {
    exists h :: 0 <= h < |tasks| && tasks[h].sid == sid && tasks[h].num == k
  }

  /** There is a handler for each of the n chunks of a stream. */
  ghost predicate AllHandled(tasks: seq<Task>, sid: u32, n: nat) {
    forall k: u32 :: k < n ==> Handles(tasks, sid, k)
  }

  /** Once all handlers have finished, every stream whose chunks were all handled has been delivered. */
  lemma FinishedMeansDelivered(tasks: seq<Task>, sys: System, sources: map<u32, Source>, schedule: seq<nat>, sid: u32)
    requires Initial(tasks, sys, sources) && sid in sources
    requires AllHandled(tasks, sid, sources[sid].total)
    requires forall h :: 0 <= h < |tasks| ==> Run(tasks, sys, schedule).pcs[h] == Finished
    ensures SomeDelivered(Run(tasks, sys, schedule), sid)
  {
    RunsStaySafeAndAlive(tasks, sys, sources, schedule, sid);
    var end := Run(tasks, sys, schedule);
    if Intact(tasks, end, sid) {
      forall k: u32 | k < end.streams[sid].total
        ensures k in end.streams[sid].received
      {
        assert Handles(tasks, sid, k);
        var h :| 0 <= h < |tasks| && tasks[h].sid == sid && tasks[h].num == k;
        assert PastMark(end.pcs[h]);
      }
    }
  }
}
