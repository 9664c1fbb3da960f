/** Overlapping handlers, one for each chunk, leave nothing of their stream behind. */
module Leftovers {
  import opened Bytes
  import opened Nodes
  import StreamRuns
  import opened Interleaving

  /** No two handlers of the stream have the same chunk. */
  ghost predicate Distinct(tasks: seq<Task>, sid: u32) {
    forall g, h :: 0 <= g < h < |tasks| && tasks[g].sid == tasks[h].sid == sid ==> tasks[g].num != tasks[h].num
  }

  /** All handlers of the stream have stored their chunks. */
  ghost predicate AllStored(tasks: seq<Task>, sys: System, sid: u32)
    requires |tasks| == |sys.pcs|
  {
    forall h :: 0 <= h < |tasks| && tasks[h].sid == sid ==> !sys.pcs[h].InsertChunk?
  }

  /** No chunk below n is stored. */
  ghost predicate ClearBelow(sys: System, sid: u32, n: nat) {
    forall k: u32 :: k < n ==> (sid, k) !in sys.chunks
  }

  ghost predicate MarkedBy(tasks: seq<Task>, sys: System, sid: u32, k: u32)
    requires |tasks| == |sys.pcs|
  {
    exists h :: 0 <= h < |tasks| && tasks[h].sid == sid && tasks[h].num == k && PastMark(sys.pcs[h])
  }

  /** What each handler position says about the chunk map. */
  ghost predicate PcTidy(tasks: seq<Task>, sys: System, sid: u32, total: u32, pc: Pc)
    requires |tasks| == |sys.pcs|
  {
    && (pc.Collect? || Removes(pc) ==> AllStored(tasks, sys, sid))
    && (pc.RemoveChunks? ==> pc.info.total == total && ClearBelow(sys, sid, pc.next))
    && (pc.RemoveStream? || pc.HandOver? ==> ClearBelow(sys, sid, total))
    && (pc.HandOver? ==> sid !in sys.streams)
  }

  ghost predicate Tidy(tasks: seq<Task>, sys: System, sid: u32, total: u32)
    requires |tasks| == |sys.pcs|
  {
    && (forall h :: 0 <= h < |tasks| && tasks[h].sid == sid ==> PcTidy(tasks, sys, sid, total, sys.pcs[h]))
    && (sid in sys.streams ==> forall k :: k in sys.streams[sid].received ==> MarkedBy(tasks, sys, sid, k))
    && (sid !in sys.streams ==> AllStored(tasks, sys, sid) && ClearBelow(sys, sid, total))
    && (SomeDelivered(sys, sid) ==> sid !in sys.streams)
    && (forall k: u32 :: k >= total ==> (sid, k) !in sys.chunks)
  }

  /** When the last chunk is marked, every handler has stored its own. */
  lemma CompleteMeansStored(tasks: seq<Task>, sys: System, sid: u32, src: Source)
    requires |tasks| == |sys.pcs| && Distinct(tasks, sid) && Safe(tasks, sys, sid, src) && sid in sys.streams
    requires Tidy(tasks, sys, sid, src.total) && CountReached(sys.streams[sid])
    ensures AllStored(tasks, sys, sid)
  {
    assert GoodRecord(sys.streams[sid], src);
    CountTellsCompleteness(sys.streams[sid]);
    hide CountReached;
    forall g | 0 <= g < |tasks| && tasks[g].sid == sid
      ensures !sys.pcs[g].InsertChunk?
    {
      assert tasks[g].num < src.total;
      assert MarkedBy(tasks, sys, sid, tasks[g].num);
      var h :| 0 <= h < |tasks| && tasks[h].sid == sid && tasks[h].num == tasks[g].num && PastMark(sys.pcs[h]);
      assert h == g;
    }
  }

  lemma StepKeepsTidy(tasks: seq<Task>, sys: System, h: nat, sid: u32, src: Source)
    requires h < |tasks| == |sys.pcs| && Distinct(tasks, sid) && Safe(tasks, sys, sid, src)
    requires Tidy(tasks, sys, sid, src.total)
    ensures Tidy(tasks, Step(tasks, sys, h), sid, src.total)
  {
    if tasks[h].sid != sid {
      OtherStepKeepsTidy(tasks, sys, h, sid, src.total);
    } else {
      if sys.pcs[h].Snapshot? && sid in sys.streams && CountReached(sys.streams[sid]) {
        CompleteMeansStored(tasks, sys, sid, src);
      }
      assert GoodPc(sys.pcs[h], src) && tasks[h].num < src.total;
      hide Safe, Distinct, CountReached, Step, Tidy;
      OwnStepKeepsTidy(tasks, sys, h, src);
    }
  }

  lemma OtherStepKeepsTidy(tasks: seq<Task>, sys: System, h: nat, sid: u32, total: u32)
    requires h < |tasks| == |sys.pcs| && tasks[h].sid != sid && Tidy(tasks, sys, sid, total)
    ensures Tidy(tasks, Step(tasks, sys, h), sid, total)
  {
    OtherStepLeaves(tasks, sys, h, sid);
    hide Step;
    var after := Step(tasks, sys, h);
    if sid in sys.streams {
      forall k | k in after.streams[sid].received
        ensures MarkedBy(tasks, after, sid, k)
      {
        assert MarkedBy(tasks, sys, sid, k);
        var g :| 0 <= g < |tasks| && tasks[g].sid == sid && tasks[g].num == k && PastMark(sys.pcs[g]);
        assert PastMark(after.pcs[g]);
      }
    }
  }

  lemma OwnStepKeepsTidy(tasks: seq<Task>, sys: System, h: nat, src: Source)
    requires h < |tasks| == |sys.pcs| && GoodPc(sys.pcs[h], src) && tasks[h].num < src.total
    requires Tidy(tasks, sys, tasks[h].sid, src.total)
    requires sys.pcs[h].Snapshot? && tasks[h].sid in sys.streams && CountReached(sys.streams[tasks[h].sid]) ==>
               AllStored(tasks, sys, tasks[h].sid)
    ensures Tidy(tasks, Step(tasks, sys, h), tasks[h].sid, src.total)
  {
    hide CountReached, StreamRuns.Assembled, Reassembled;
    var after, sid := Step(tasks, sys, h), tasks[h].sid;
    assert PcTidy(tasks, sys, sid, src.total, sys.pcs[h]);
    assert forall g :: 0 <= g < |tasks| && g != h ==> after.pcs[g] == sys.pcs[g];
    StepMovesOn(tasks, sys, h);
    StepClears(tasks, sys, h, src);
    MarksStay(tasks, sys, h);
    hide Step, GoodPc;
    forall g | 0 <= g < |tasks| && tasks[g].sid == sid && g != h
      ensures PcTidy(tasks, after, sid, src.total, after.pcs[g])
    {
      assert PcTidy(tasks, sys, sid, src.total, sys.pcs[g]);
    }
  }

  /** A handler that has stored its chunk never goes back, and streams are only removed. */
  lemma StepMovesOn(tasks: seq<Task>, sys: System, h: nat)
    requires h < |tasks| == |sys.pcs|
    ensures var after, sid := Step(tasks, sys, h), tasks[h].sid;
            && |after.pcs| == |tasks| && !after.pcs[h].InsertChunk?
            && (PastMark(sys.pcs[h]) ==> PastMark(after.pcs[h]))
            && (AllStored(tasks, sys, sid) ==> AllStored(tasks, after, sid))
            && (sid in after.streams ==> sid in sys.streams)
            && (sys.pcs[h].RemoveStream? <==> after.pcs[h].HandOver?)
            && (after.pcs[h].HandOver? ==> sid !in after.streams)
            && (sid in sys.streams && !sys.pcs[h].RemoveStream? ==> sid in after.streams)
            && (SomeDelivered(after, sid) ==> SomeDelivered(sys, sid) || sys.pcs[h].HandOver?)
  {
    hide CountReached, Received, Reassembled;
    var after := Step(tasks, sys, h);
    assert forall g :: 0 <= g < |tasks| && g != h ==> after.pcs[g] == sys.pcs[g];
  }

  /** What happens to the stream's chunks: one is stored, or the next one is removed, or nothing. */
  lemma StepClears(tasks: seq<Task>, sys: System, h: nat, src: Source)
    requires h < |tasks| == |sys.pcs| && GoodPc(sys.pcs[h], src) && tasks[h].num < src.total
    requires Tidy(tasks, sys, tasks[h].sid, src.total)
    requires sys.pcs[h].Snapshot? && tasks[h].sid in sys.streams && CountReached(sys.streams[tasks[h].sid]) ==>
               AllStored(tasks, sys, tasks[h].sid)
    ensures var after, sid := Step(tasks, sys, h), tasks[h].sid;
            && (!sys.pcs[h].InsertChunk? ==> forall k: u32 :: (sid, k) in after.chunks ==> (sid, k) in sys.chunks)
            && (forall k: u32 :: k >= src.total ==> (sid, k) !in after.chunks)
            && |after.pcs| == |tasks| && PcTidy(tasks, after, sid, src.total, after.pcs[h])
  {
    hide CountReached, Received, Reassembled, StreamRuns.Assembled;
    StepMovesOn(tasks, sys, h);
    var sid := tasks[h].sid;
    assert PcTidy(tasks, sys, sid, src.total, sys.pcs[h]);
  }

  lemma MarksStay(tasks: seq<Task>, sys: System, h: nat)
    requires h < |tasks| == |sys.pcs|
    requires tasks[h].sid in sys.streams ==>
               forall k :: k in sys.streams[tasks[h].sid].received ==> MarkedBy(tasks, sys, tasks[h].sid, k)
    ensures var after, sid := Step(tasks, sys, h), tasks[h].sid;
            |after.pcs| == |tasks|
            && (sid in after.streams ==>
                  forall k :: k in after.streams[sid].received ==> MarkedBy(tasks, after, sid, k))
  {
    hide CountReached, Reassembled;
    var after, sid := Step(tasks, sys, h), tasks[h].sid;
    assert forall g :: 0 <= g < |tasks| && g != h ==> after.pcs[g] == sys.pcs[g];
    if sid in after.streams {
      forall k | k in after.streams[sid].received
        ensures MarkedBy(tasks, after, sid, k)
      {
        if k in sys.streams[sid].received {
          assert MarkedBy(tasks, sys, sid, k);
          var g :| 0 <= g < |tasks| && tasks[g].sid == sid && tasks[g].num == k && PastMark(sys.pcs[g]);
          assert PastMark(after.pcs[g]);
        } else {
          assert PastMark(after.pcs[h]) && tasks[h].num == k;
        }
      }
    }
  }

  lemma {:induction false} RunsStayTidy(
      tasks: seq<Task>, sys: System, sources: map<u32, Source>, schedule: seq<nat>, sid: u32)
    requires Initial(tasks, sys, sources) && sid in sources && Distinct(tasks, sid)
    ensures Tidy(tasks, Run(tasks, sys, schedule), sid, sources[sid].total)
  {
    if schedule != [] {
      var earlier, h := schedule[..|schedule| - 1], schedule[|schedule| - 1];
      RunsStayTidy(tasks, sys, sources, earlier, sid);
      RunsStaySafeAndAlive(tasks, sys, sources, earlier, sid);
      if h < |tasks| {
        hide Step, Tidy, Safe, Alive, Distinct;
        StepKeepsTidy(tasks, Run(tasks, sys, earlier), h, sid, sources[sid]);
      }
    }
  }

  /**
   * When each chunk of a stream has exactly one handler, then in every interleaving, once all handlers have finished,
   * the stream has been delivered and neither it nor any chunk of it is left in the maps.
   */
  lemma NothingIsLeft(tasks: seq<Task>, sys: System, sources: map<u32, Source>, schedule: seq<nat>, sid: u32)
    requires Initial(tasks, sys, sources) && sid in sources
    requires AllHandled(tasks, sid, sources[sid].total) && Distinct(tasks, sid)
    requires forall h :: 0 <= h < |tasks| ==> Run(tasks, sys, schedule).pcs[h] == Finished
    ensures var end := Run(tasks, sys, schedule);
            SomeDelivered(end, sid) && sid !in end.streams && forall k: u32 :: (sid, k) !in end.chunks
  {
    FinishedMeansDelivered(tasks, sys, sources, schedule, sid);
    RunsStayTidy(tasks, sys, sources, schedule, sid);
  }
}
