/** How often a stream is delivered by handlers running at the same time, and that they all finish. */
module Overlaps {
  import opened Bytes
  import opened Nodes
  import StreamRuns
  import opened Interleaving

  // ---- Every handler finishes ----

  /** The steps of one completeness check that finds the stream complete. */
  function CheckSteps(total: nat): nat {
    2 * total + 5
  }

  /** How many steps a handler can still take. */
  function StepsLeft(pc: Pc, total: nat): nat {
    match pc
    case InsertChunk => 2 + 2 * CheckSteps(total)
    case MarkReceived => 1 + 2 * CheckSteps(total)
    case Snapshot(second) => CheckSteps(total) + StepsAfter(second, total)
    case Collect(second, _, next, _) => Remaining(total, next) + 1 + total + 3 + StepsAfter(second, total)
    case RemoveChunks(second, _, next, _) => Remaining(total, next) + 3 + StepsAfter(second, total)
    case RemoveStream(second, _, _) => 2 + StepsAfter(second, total)
    case HandOver(second, _, _) => 1 + StepsAfter(second, total)
    case Finished => 0
  }

  function StepsAfter(second: bool, total: nat): nat {
    if second then 0 else CheckSteps(total)
  }

  function Remaining(total: nat, next: nat): nat {
    if next < total then total - next else 0
  }

  /** How often a schedule lets handler h move. */
  function Moves(schedule: seq<nat>, h: nat): nat {
    if schedule == [] then 0
    else Moves(schedule[..|schedule| - 1], h) + if schedule[|schedule| - 1] == h then 1 else 0
  }

  const STEPS_PER_CHUNK := 4
  const STEPS_BESIDES := 12

  function StepBound(total: nat): nat {
    STEPS_PER_CHUNK * total + STEPS_BESIDES
  }

  lemma StepMakesProgress(tasks: seq<Task>, sys: System, h: nat, src: Source)
    requires h < |tasks| == |sys.pcs| && GoodPc(sys.pcs[h], src) && sys.pcs[h] != Finished
    ensures StepsLeft(Step(tasks, sys, h).pcs[h], src.total) < StepsLeft(sys.pcs[h], src.total)
  {
    hide CountReached, Received, StreamRuns.Assembled, Reassembled;
  }

  lemma {:induction false} MovesUseUpSteps(
      tasks: seq<Task>, sys: System, sources: map<u32, Source>, schedule: seq<nat>, h: nat)
    requires Initial(tasks, sys, sources) && h < |tasks|
    ensures tasks[h].sid in sources
    ensures var total := sources[tasks[h].sid].total;
            var left := StepsLeft(Run(tasks, sys, schedule).pcs[h], total);
            left == 0 || left + Moves(schedule, h) <= StepBound(total)
  {
    var src := sources[tasks[h].sid];
    if schedule != [] {
      var earlier, g := schedule[..|schedule| - 1], schedule[|schedule| - 1];
      MovesUseUpSteps(tasks, sys, sources, earlier, h);
      RunsStaySafeAndAlive(tasks, sys, sources, earlier, tasks[h].sid);
      var before := Run(tasks, sys, earlier);
      assert GoodPc(before.pcs[h], src);
      hide GoodPc, Step, StepsLeft, Initial, Alive, Safe;
      if g < |tasks| && g != h {
        OtherHandlersStay(tasks, before, g, h);
      } else if g == h && before.pcs[h] != Finished {
        StepMakesProgress(tasks, before, h, src);
      } else if g == h {
        FinishedStays(tasks, before, h, src.total);
      }
    }
  }

  lemma FinishedStays(tasks: seq<Task>, sys: System, h: nat, total: nat)
    requires h < |tasks| == |sys.pcs| && sys.pcs[h] == Finished
    ensures StepsLeft(Step(tasks, sys, h).pcs[h], total) == 0
  {
  }

  /** In every schedule a handler has finished once it has moved 4 * total + 12 times, whatever the others do. */
  lemma HandlersFinish(tasks: seq<Task>, sys: System, sources: map<u32, Source>, schedule: seq<nat>, h: nat)
    requires Initial(tasks, sys, sources) && h < |tasks|
    requires Moves(schedule, h) >= StepBound(sources[tasks[h].sid].total)
    ensures Run(tasks, sys, schedule).pcs[h] == Finished
  {
    MovesUseUpSteps(tasks, sys, sources, schedule, h);
  }

  /** So a schedule that lets every handler move that often delivers every stream whose chunks are all handled. */
  lemma FairSchedulesDeliver(tasks: seq<Task>, sys: System, sources: map<u32, Source>, schedule: seq<nat>, sid: u32)
    requires Initial(tasks, sys, sources) && sid in sources && AllHandled(tasks, sid, sources[sid].total)
    requires forall h :: 0 <= h < |tasks| ==> Moves(schedule, h) >= StepBound(sources[tasks[h].sid].total)
    ensures SomeDelivered(Run(tasks, sys, schedule), sid)
  {
    forall h | 0 <= h < |tasks|
      ensures Run(tasks, sys, schedule).pcs[h] == Finished
    {
      HandlersFinish(tasks, sys, sources, schedule, h);
    }
    FinishedMeansDelivered(tasks, sys, sources, schedule, sid);
  }

  /** And there is such a schedule. */
  lemma AllCanFinish(tasks: seq<Task>, sys: System, sources: map<u32, Source>) returns (schedule: seq<nat>)
    requires Initial(tasks, sys, sources)
    ensures forall h :: 0 <= h < |tasks| ==> Moves(schedule, h) >= StepBound(sources[tasks[h].sid].total)
    ensures forall h :: 0 <= h < |tasks| ==> Run(tasks, sys, schedule).pcs[h] == Finished
  {
    schedule := [];
    for h := 0 to |tasks|
      invariant forall g :: 0 <= g < h ==> Moves(schedule, g) >= StepBound(sources[tasks[g].sid].total)
    {
      var longer := MoveOften(schedule, h, StepBound(sources[tasks[h].sid].total));
      schedule := longer;
    }
    forall h | 0 <= h < |tasks|
      ensures Run(tasks, sys, schedule).pcs[h] == Finished
    {
      HandlersFinish(tasks, sys, sources, schedule, h);
    }
  }

  lemma MoveOften(schedule: seq<nat>, h: nat, n: nat) returns (longer: seq<nat>)
    ensures Moves(longer, h) >= n
    ensures forall g: nat :: Moves(longer, g) >= Moves(schedule, g)
  {
    longer := schedule;
    for i := 0 to n
      invariant Moves(longer, h) >= i
      invariant forall g: nat :: Moves(longer, g) >= Moves(schedule, g)
    {
      assert (longer + [h])[..|longer|] == longer;
      longer := longer + [h];
    }
  }

  // ---- How often a stream is delivered ----

  function CountFor(delivered: seq<(u32, Msg)>, sid: u32): nat {
    if delivered == [] then 0
    else CountFor(delivered[..|delivered| - 1], sid) + if delivered[|delivered| - 1].0 == sid then 1 else 0
  }

  lemma CountOneMore(delivered: seq<(u32, Msg)>, d: (u32, Msg), sid: u32)
    ensures CountFor(delivered + [d], sid) == CountFor(delivered, sid) + if d.0 == sid then 1 else 0
  {
    assert (delivered + [d])[..|delivered|] == delivered;
  }

  lemma {:induction false} CountIgnoresOthers(shorter: seq<(u32, Msg)>, longer: seq<(u32, Msg)>, sid: u32)
    requires shorter <= longer && forall i :: |shorter| <= i < |longer| ==> longer[i].0 != sid
    ensures CountFor(longer, sid) == CountFor(shorter, sid)
  {
    if |shorter| < |longer| {
      CountIgnoresOthers(shorter, longer[..|longer| - 1], sid);
    } else {
      assert longer == shorter;
    }
  }

  /** How many handlers a stream has. */
  function HandlersOf(tasks: seq<Task>, sid: u32): nat {
    if tasks == [] then 0
    else HandlersOf(tasks[..|tasks| - 1], sid) + if tasks[|tasks| - 1].sid == sid then 1 else 0
  }

  /** No schedule delivers the stream more than n times. */
  ghost predicate AtMost(tasks: seq<Task>, sys: System, sid: u32, n: nat)
    requires |tasks| == |sys.pcs|
  {
    forall schedule :: CountFor(Run(tasks, sys, schedule).delivered, sid) <= n
  }

  /**
   * How often overlapping handlers can deliver a stream all of whose chunks are handled: as often as it has handlers,
   * and no more. Other streams may have any handlers. A stream with a chunk nobody handles is never delivered.
   */
  lemma MostDeliveries(tasks: seq<Task>, sys: System, sources: map<u32, Source>, sid: u32)
    requires Initial(tasks, sys, sources) && sid in sources
    ensures AtMost(tasks, sys, sid, HandlersOf(tasks, sid))
    ensures AllHandled(tasks, sid, sources[sid].total) ==>
              exists schedule :: CountFor(Run(tasks, sys, schedule).delivered, sid) == HandlersOf(tasks, sid)
    ensures !AllHandled(tasks, sid, sources[sid].total) ==> AtMost(tasks, sys, sid, 0)
  {
    forall schedule: seq<nat>
      ensures CountFor(Run(tasks, sys, schedule).delivered, sid) <= HandlersOf(tasks, sid)
    {
      DeliveriesSpendHandlers(tasks, sys, sources, schedule, sid);
      SpentAreHandlers(tasks, Run(tasks, sys, schedule), sid, |tasks|);
      assert tasks[..|tasks|] == tasks;
    }
    if AllHandled(tasks, sid, sources[sid].total) {
      var schedule := EverybodyDelivers(tasks, sys, sources, sid);
      assert CountFor(Run(tasks, sys, schedule).delivered, sid) == HandlersOf(tasks, sid);
    } else {
      var k: u32 :| k < sources[sid].total && !Handles(tasks, sid, k);
      forall schedule: seq<nat>
        ensures CountFor(Run(tasks, sys, schedule).delivered, sid) <= 0
      {
        NeverDelivered(tasks, sys, sources, schedule, sid, k);
      }
    }
  }

  /** So exactly-once delivery holds in every schedule if and only if the stream has a single handler. */
  lemma DeliveredAtMostOnce(tasks: seq<Task>, sys: System, sources: map<u32, Source>, sid: u32)
    requires Initial(tasks, sys, sources) && sid in sources && AllHandled(tasks, sid, sources[sid].total)
    ensures AtMost(tasks, sys, sid, 1) <==> HandlersOf(tasks, sid) == 1
  {
    MostDeliveries(tasks, sys, sources, sid);
    hide Run, Initial;
    var first: u32 := 0;
    assert Handles(tasks, sid, first);
    var h :| 0 <= h < |tasks| && tasks[h].sid == sid;
    HandlerIsCounted(tasks, sid, h);
    if HandlersOf(tasks, sid) > 1 {
      var schedule :| CountFor(Run(tasks, sys, schedule).delivered, sid) == HandlersOf(tasks, sid);
    }
  }

  lemma {:induction false} HandlerIsCounted(tasks: seq<Task>, sid: u32, h: nat)
    requires h < |tasks| && tasks[h].sid == sid
    ensures HandlersOf(tasks, sid) >= 1
  {
    if h < |tasks| - 1 {
      HandlerIsCounted(tasks[..|tasks| - 1], sid, h);
    }
  }

  // ---- A chunk is missing ----

  /** Nobody gets past the missing chunk. */
  ghost predicate HeldUp(tasks: seq<Task>, sys: System, sid: u32, k: u32)
    requires |tasks| == |sys.pcs|
  {
    && (sid, k) !in sys.chunks
    && CountFor(sys.delivered, sid) == 0
    && forall h :: 0 <= h < |tasks| && tasks[h].sid == sid ==>
         !Removes(sys.pcs[h]) && (sys.pcs[h].Collect? ==> sys.pcs[h].next <= k)
  }

  lemma {:induction false} NeverDelivered(
      tasks: seq<Task>, sys: System, sources: map<u32, Source>, schedule: seq<nat>, sid: u32, k: u32)
    requires Initial(tasks, sys, sources) && sid in sources && k < sources[sid].total && !Handles(tasks, sid, k)
    ensures HeldUp(tasks, Run(tasks, sys, schedule), sid, k)
  {
    if schedule != [] {
      var earlier, h := schedule[..|schedule| - 1], schedule[|schedule| - 1];
      NeverDelivered(tasks, sys, sources, earlier, sid, k);
      RunsStaySafeAndAlive(tasks, sys, sources, earlier, sid);
      var before := Run(tasks, sys, earlier);
      if h < |tasks| {
        if tasks[h].sid == sid {
          assert GoodPc(before.pcs[h], sources[sid]);
          hide Initial, Safe, Alive;
          OwnStepHeldUp(tasks, before, h, sources[sid], k);
        } else {
          hide Initial, Safe, Alive;
          OtherStepHeldUp(tasks, before, h, sid, k);
        }
      }
    }
  }

  lemma OwnStepHeldUp(tasks: seq<Task>, sys: System, h: nat, src: Source, k: u32)
    requires h < |tasks| == |sys.pcs| && HeldUp(tasks, sys, tasks[h].sid, k) && tasks[h].num != k < src.total
    requires GoodPc(sys.pcs[h], src)
    ensures HeldUp(tasks, Step(tasks, sys, h), tasks[h].sid, k)
  {
    hide CountReached, Received, StreamRuns.Assembled, Reassembled, CountFor;
    var after := Step(tasks, sys, h);
    assert forall g :: 0 <= g < |tasks| && g != h ==> after.pcs[g] == sys.pcs[g];
  }

  lemma OtherStepHeldUp(tasks: seq<Task>, sys: System, h: nat, sid: u32, k: u32)
    requires h < |tasks| == |sys.pcs| && HeldUp(tasks, sys, sid, k) && tasks[h].sid != sid
    ensures HeldUp(tasks, Step(tasks, sys, h), sid, k)
  {
    OtherStepLeaves(tasks, sys, h, sid);
    CountIgnoresOthers(sys.delivered, Step(tasks, sys, h).delivered, sid);
    hide Step, CountFor;
  }

  // ---- No handler delivers twice ----

  /** Handler h can no longer deliver its stream. */
  predicate Spent(tasks: seq<Task>, sys: System, sid: u32, h: nat)
    requires h < |tasks| == |sys.pcs|
  {
    tasks[h].sid == sid && (sys.pcs[h] == Finished || (sys.pcs[h] == Snapshot(true) && sid !in sys.streams))
  }

  /** How many of the first n handlers are spent. */
  function SpentCount(tasks: seq<Task>, sys: System, sid: u32, n: nat): nat
    requires n <= |tasks| == |sys.pcs|
  {
    if n == 0 then 0 else SpentCount(tasks, sys, sid, n - 1) + if Spent(tasks, sys, sid, n - 1) then 1 else 0
  }

  lemma {:induction false} SpentAreHandlers(tasks: seq<Task>, sys: System, sid: u32, n: nat)
    requires n <= |tasks| == |sys.pcs|
    ensures SpentCount(tasks, sys, sid, n) <= HandlersOf(tasks[..n], sid)
  {
    if n > 0 {
      SpentAreHandlers(tasks, sys, sid, n - 1);
      assert tasks[..n][..n - 1] == tasks[..n - 1];
    }
  }

  /** A spent handler stays spent, and one more may be. */
  lemma {:induction false} SpentStay(tasks: seq<Task>, sys: System, after: System, sid: u32, h: nat, n: nat)
    requires n <= |tasks| == |sys.pcs| == |after.pcs| && h < |tasks|
    requires forall g :: 0 <= g < |tasks| && Spent(tasks, sys, sid, g) ==> Spent(tasks, after, sid, g)
    ensures SpentCount(tasks, after, sid, n) >= SpentCount(tasks, sys, sid, n)
    ensures h < n && !Spent(tasks, sys, sid, h) && Spent(tasks, after, sid, h) ==>
              SpentCount(tasks, after, sid, n) > SpentCount(tasks, sys, sid, n)
  {
    if n > 0 {
      SpentStay(tasks, sys, after, sid, h, n - 1);
    }
  }

  /** Each delivery has spent a handler, and what is about to be handed over has been removed. */
  ghost predicate Accounted(tasks: seq<Task>, sys: System, sid: u32)
    requires |tasks| == |sys.pcs|
  {
    && CountFor(sys.delivered, sid) <= SpentCount(tasks, sys, sid, |tasks|)
    && forall h :: 0 <= h < |tasks| && tasks[h].sid == sid && sys.pcs[h].HandOver? ==> sid !in sys.streams
  }

  lemma {:induction false} DeliveriesSpendHandlers(
      tasks: seq<Task>, sys: System, sources: map<u32, Source>, schedule: seq<nat>, sid: u32)
    requires Initial(tasks, sys, sources)
    ensures Accounted(tasks, Run(tasks, sys, schedule), sid)
  {
    if schedule != [] {
      var earlier, h := schedule[..|schedule| - 1], schedule[|schedule| - 1];
      DeliveriesSpendHandlers(tasks, sys, sources, earlier, sid);
      if h < |tasks| {
        StepKeepsAccounted(tasks, Run(tasks, sys, earlier), h, sid);
      }
    }
  }

  lemma StepKeepsAccounted(tasks: seq<Task>, sys: System, h: nat, sid: u32)
    requires h < |tasks| == |sys.pcs| && Accounted(tasks, sys, sid)
    ensures Accounted(tasks, Step(tasks, sys, h), sid)
  {
    var after := Step(tasks, sys, h);
    StepSpends(tasks, sys, h, sid);
    SpentStay(tasks, sys, after, sid, h, |tasks|);
    hide Step, CountFor, SpentCount, Spent;
  }

  lemma StepSpends(tasks: seq<Task>, sys: System, h: nat, sid: u32)
    requires h < |tasks| == |sys.pcs|
    requires forall g :: 0 <= g < |tasks| && tasks[g].sid == sid && sys.pcs[g].HandOver? ==> sid !in sys.streams
    ensures var after := Step(tasks, sys, h);
            var more := CountFor(after.delivered, sid) - CountFor(sys.delivered, sid);
            && |after.pcs| == |sys.pcs|
            && (more == 0 || (more == 1 && !Spent(tasks, sys, sid, h) && Spent(tasks, after, sid, h)))
            && (forall g :: 0 <= g < |tasks| && Spent(tasks, sys, sid, g) ==> Spent(tasks, after, sid, g))
            && (forall g :: 0 <= g < |tasks| && tasks[g].sid == sid && after.pcs[g].HandOver? ==> sid !in after.streams)
  {
    hide CountReached, Received, Reassembled, CountFor;
    var after := Step(tasks, sys, h);
    assert forall g :: 0 <= g < |tasks| && g != h ==> after.pcs[g] == sys.pcs[g];
    if sys.pcs[h].HandOver? {
      var d := (tasks[h].sid, Reassembled(sys.pcs[h].info.channel, sys.pcs[h].content));
      CountOneMore(sys.delivered, d, sid);
    }
  }

  // ---- All handlers deliver ----

  ghost predicate Reaches(tasks: seq<Task>, from: System, to: System)
    requires |tasks| == |from.pcs|
  {
    exists schedule :: Run(tasks, from, schedule) == to
  }

  lemma Advance(tasks: seq<Task>, from: System, to: System, h: nat)
    requires h < |tasks| == |from.pcs| == |to.pcs| && Reaches(tasks, from, to)
    ensures Reaches(tasks, from, Step(tasks, to, h))
  {
    var schedule :| Run(tasks, from, schedule) == to;
    assert (schedule + [h])[..|schedule|] == schedule;
    assert Run(tasks, from, schedule + [h]) == Step(tasks, to, h);
  }

  /** All handlers of the stream have stored and marked their chunks, and none has looked further. */
  ghost predicate AllMarked(tasks: seq<Task>, sys: System, sid: u32)
    requires |tasks| == |sys.pcs|
  {
    && sid in sys.streams
    && forall h :: 0 <= h < |tasks| && tasks[h].sid == sid ==>
         && sys.pcs[h].Snapshot?
         && (sid, tasks[h].num) in sys.chunks
         && tasks[h].num in sys.streams[sid].received
  }

  lemma StoresAndMarks(tasks: seq<Task>, from: System, sys: System, h: nat) returns (to: System)
    requires h < |tasks| == |from.pcs| == |sys.pcs| && Reaches(tasks, from, sys) && sys.pcs[h] == InsertChunk
    requires tasks[h].sid in sys.streams
    ensures Reaches(tasks, from, to)
    ensures var t := tasks[h];
            var info := Received(sys.streams[t.sid], t.num);
            to == System(sys.streams[t.sid := info], sys.chunks[(t.sid, t.num) := t.data],
                         sys.delivered, sys.pcs[h := Snapshot(!CountReached(info))])
  {
    hide Reaches, CountReached, Received;
    Advance(tasks, from, sys, h);
    var stored := Step(tasks, sys, h);
    Advance(tasks, from, stored, h);
    to := Step(tasks, stored, h);
    assert to.pcs == sys.pcs[h := Snapshot(!CountReached(Received(sys.streams[tasks[h].sid], tasks[h].num)))];
  }

  /** All handlers of a stream can store and mark their chunks before any of them looks whether it is complete. */
  lemma EverybodyMarks(tasks: seq<Task>, sys: System, sources: map<u32, Source>, sid: u32) returns (to: System)
    requires Initial(tasks, sys, sources) && sid in sources
    ensures |to.pcs| == |tasks| && Reaches(tasks, sys, to) && AllMarked(tasks, to, sid) && to.delivered == []
  {
    assert Run(tasks, sys, []) == sys;
    hide Reaches, Run, CountReached;
    to := sys;
    for h := 0 to |tasks|
      invariant |to.pcs| == |tasks| && Reaches(tasks, sys, to) && to.delivered == []
      invariant sid in to.streams
      invariant forall g :: 0 <= g < h && tasks[g].sid == sid ==> to.pcs[g].Snapshot?
      invariant forall g :: 0 <= g < h && tasks[g].sid == sid ==> (sid, tasks[g].num) in to.chunks
      invariant forall g :: 0 <= g < h && tasks[g].sid == sid ==> tasks[g].num in to.streams[sid].received
      invariant forall g :: h <= g < |tasks| ==> to.pcs[g] == InsertChunk
    {
      if tasks[h].sid == sid {
        to := StoresAndMarks(tasks, sys, to, h);
      }
    }
  }

  lemma SeesComplete(tasks: seq<Task>, from: System, sys: System, h: nat) returns (to: System)
    requires h < |tasks| == |from.pcs| == |sys.pcs| && Reaches(tasks, from, sys) && sys.pcs[h].Snapshot?
    requires tasks[h].sid in sys.streams && CountReached(sys.streams[tasks[h].sid])
    ensures Reaches(tasks, from, to)
    ensures to == sys.(pcs := sys.pcs[h := Collect(sys.pcs[h].second, sys.streams[tasks[h].sid], 0, [])])
  {
    Advance(tasks, from, sys, h);
    to := Step(tasks, sys, h);
  }

  /** A handler about to join a stored stream joins it, other handlers standing still. */
  lemma Joins(tasks: seq<Task>, from: System, sys: System, h: nat) returns (to: System)
    requires h < |tasks| == |from.pcs| == |sys.pcs| && Reaches(tasks, from, sys)
    requires sys.pcs[h].Collect? && sys.pcs[h].next == 0
    requires forall k: u32 :: k < sys.pcs[h].info.total ==> (tasks[h].sid, k) in sys.chunks
    ensures |to.pcs| == |sys.pcs| && Reaches(tasks, from, to) && to == sys.(pcs := to.pcs)
    ensures to.pcs[h].RemoveChunks? && to.pcs[h].next == 0
    ensures forall g :: 0 <= g < |tasks| && g != h ==> to.pcs[g] == sys.pcs[g]
  {
    hide Reaches;
    var info := sys.pcs[h].info;
    to := sys;
    for next := 0 to info.total
      invariant |to.pcs| == |sys.pcs| && Reaches(tasks, from, to) && to == sys.(pcs := to.pcs)
      invariant to.pcs[h].Collect? && to.pcs[h].info == info && to.pcs[h].next == next
      invariant forall g :: 0 <= g < |tasks| && g != h ==> to.pcs[g] == sys.pcs[g]
    {
      var k: u32 := next;
      assert (tasks[h].sid, k) in to.chunks;
      Advance(tasks, from, to, h);
      to := Step(tasks, to, h);
    }
    Advance(tasks, from, to, h);
    to := Step(tasks, to, h);
  }

  /** A handler that has joined a stream delivers it, however often it was delivered before. */
  lemma Delivers(tasks: seq<Task>, from: System, sys: System, h: nat) returns (to: System)
    requires h < |tasks| == |from.pcs| == |sys.pcs| && Reaches(tasks, from, sys)
    requires sys.pcs[h].RemoveChunks? && sys.pcs[h].next == 0
    ensures |to.pcs| == |sys.pcs| && Reaches(tasks, from, to)
    ensures to.delivered
         == sys.delivered + [(tasks[h].sid, Reassembled(sys.pcs[h].info.channel, sys.pcs[h].content))]
    ensures forall g :: 0 <= g < |tasks| && g != h ==> to.pcs[g] == sys.pcs[g]
  {
    hide Reaches, Reassembled;
    var RemoveChunks(second, info, _, content) := sys.pcs[h];
    to := sys;
    for next := 0 to info.total
      invariant |to.pcs| == |sys.pcs| && Reaches(tasks, from, to) && to.delivered == sys.delivered
      invariant to.pcs[h] == RemoveChunks(second, info, next, content)
      invariant forall g :: 0 <= g < |tasks| && g != h ==> to.pcs[g] == sys.pcs[g]
    {
      Advance(tasks, from, to, h);
      to := Step(tasks, to, h);
    }
    for i := 0 to 3
      invariant |to.pcs| == |sys.pcs| && Reaches(tasks, from, to)
      invariant i == 0 ==> to.pcs[h] == RemoveChunks(second, info, info.total, content)
      invariant i == 1 ==> to.pcs[h] == RemoveStream(second, info, content)
      invariant i == 2 ==> to.pcs[h] == HandOver(second, info, content)
      invariant i < 3 ==> to.delivered == sys.delivered
      invariant i == 3 ==> to.delivered == sys.delivered + [(tasks[h].sid, Reassembled(info.channel, content))]
      invariant forall g :: 0 <= g < |tasks| && g != h ==> to.pcs[g] == sys.pcs[g]
    {
      Advance(tasks, from, to, h);
      to := Step(tasks, to, h);
    }
  }

  /** What everybody has marked is complete, in count and in the chunk map. */
  lemma MarkedMeansComplete(tasks: seq<Task>, sys: System, sources: map<u32, Source>, sid: u32, to: System)
    requires Initial(tasks, sys, sources) && sid in sources && AllHandled(tasks, sid, sources[sid].total)
    requires |to.pcs| == |tasks| && Reaches(tasks, sys, to) && AllMarked(tasks, to, sid)
    ensures CountReached(to.streams[sid])
    ensures forall k: u32 :: k < to.streams[sid].total ==> (sid, k) in to.chunks
  {
    var schedule :| Run(tasks, sys, schedule) == to;
    RunsStaySafeAndAlive(tasks, sys, sources, schedule, sid);
    assert GoodRecord(to.streams[sid], sources[sid]);
    hide Run, Safe, Alive, CountReached, Reaches;
    forall k: u32 | k < to.streams[sid].total
      ensures k in to.streams[sid].received && (sid, k) in to.chunks
    {
      assert Handles(tasks, sid, k);
    }
    CountTellsCompleteness(to.streams[sid]);
  }

  /** All of them can then see the stream complete before any of them removes anything. */
  lemma EverybodySees(tasks: seq<Task>, from: System, sys: System, sid: u32) returns (to: System)
    requires |tasks| == |from.pcs| == |sys.pcs| && Reaches(tasks, from, sys) && AllMarked(tasks, sys, sid)
    requires CountReached(sys.streams[sid])
    ensures |to.pcs| == |tasks| && Reaches(tasks, from, to) && to == sys.(pcs := to.pcs)
    ensures forall h :: 0 <= h < |tasks| && tasks[h].sid == sid ==>
              to.pcs[h].Collect? && to.pcs[h].next == 0 && to.pcs[h].info == sys.streams[sid]
  {
    hide Reaches, CountReached;
    to := sys;
    for h := 0 to |tasks|
      invariant |to.pcs| == |tasks| && Reaches(tasks, from, to) && to == sys.(pcs := to.pcs)
      invariant forall g :: 0 <= g < h && tasks[g].sid == sid ==>
                  to.pcs[g].Collect? && to.pcs[g].next == 0 && to.pcs[g].info == sys.streams[sid]
      invariant forall g :: h <= g < |tasks| ==> to.pcs[g] == sys.pcs[g]
    {
      if tasks[h].sid == sid {
        to := SeesComplete(tasks, from, to, h);
      }
    }
  }

  lemma EverybodyJoins(tasks: seq<Task>, from: System, sys: System, sid: u32) returns (to: System)
    requires |tasks| == |from.pcs| == |sys.pcs| && Reaches(tasks, from, sys) && sid in sys.streams
    requires forall h :: 0 <= h < |tasks| && tasks[h].sid == sid ==>
               sys.pcs[h].Collect? && sys.pcs[h].next == 0 && sys.pcs[h].info == sys.streams[sid]
    requires forall k: u32 :: k < sys.streams[sid].total ==> (sid, k) in sys.chunks
    ensures |to.pcs| == |tasks| && Reaches(tasks, from, to) && to == sys.(pcs := to.pcs)
    ensures forall h :: 0 <= h < |tasks| && tasks[h].sid == sid ==> to.pcs[h].RemoveChunks? && to.pcs[h].next == 0
  {
    hide Reaches;
    to := sys;
    for h := 0 to |tasks|
      invariant |to.pcs| == |tasks| && Reaches(tasks, from, to) && to == sys.(pcs := to.pcs)
      invariant forall g :: 0 <= g < h && tasks[g].sid == sid ==> to.pcs[g].RemoveChunks? && to.pcs[g].next == 0
      invariant forall g :: h <= g < |tasks| ==> to.pcs[g] == sys.pcs[g]
    {
      if tasks[h].sid == sid {
        to := Joins(tasks, from, to, h);
      }
    }
  }

  /** After that each of them delivers the stream. */
  lemma EverybodyRemoves(tasks: seq<Task>, from: System, sys: System, sid: u32) returns (to: System)
    requires |tasks| == |from.pcs| == |sys.pcs| && Reaches(tasks, from, sys) && sys.delivered == []
    requires forall h :: 0 <= h < |tasks| && tasks[h].sid == sid ==> sys.pcs[h].RemoveChunks? && sys.pcs[h].next == 0
    ensures |to.pcs| == |tasks| && Reaches(tasks, from, to) && CountFor(to.delivered, sid) == HandlersOf(tasks, sid)
  {
    to := sys;
    assert tasks[..0] == [];
    hide Reaches, Reassembled;
    for h := 0 to |tasks|
      invariant |to.pcs| == |tasks| && Reaches(tasks, from, to)
      invariant CountFor(to.delivered, sid) == HandlersOf(tasks[..h], sid)
      invariant forall g :: h <= g < |tasks| ==> to.pcs[g] == sys.pcs[g]
    {
      assert tasks[..h + 1][..h] == tasks[..h];
      if tasks[h].sid == sid {
        var next := Delivers(tasks, from, to, h);
        CountOneMore(to.delivered, next.delivered[|to.delivered|], sid);
        to := next;
      }
    }
    assert tasks[..|tasks|] == tasks;
  }

  /** A schedule in which every handler of the stream delivers it. */
  lemma EverybodyDelivers(tasks: seq<Task>, sys: System, sources: map<u32, Source>, sid: u32)
      returns (schedule: seq<nat>)
    requires Initial(tasks, sys, sources) && sid in sources && AllHandled(tasks, sid, sources[sid].total)
    ensures CountFor(Run(tasks, sys, schedule).delivered, sid) == HandlersOf(tasks, sid)
  {
    var marked := EverybodyMarks(tasks, sys, sources, sid);
    MarkedMeansComplete(tasks, sys, sources, sid, marked);
    hide CountReached, Run, Initial, AllHandled, Reaches, CountFor, HandlersOf;
    var seen := EverybodySees(tasks, sys, marked, sid);
    var joined := EverybodyJoins(tasks, sys, seen, sid);
    var end := EverybodyRemoves(tasks, sys, joined, sid);
    schedule := ScheduleOf(tasks, sys, end);
  }

  lemma ScheduleOf(tasks: seq<Task>, from: System, to: System) returns (schedule: seq<nat>)
    requires |tasks| == |from.pcs| && Reaches(tasks, from, to)
    ensures Run(tasks, from, schedule) == to
  {
    schedule :| Run(tasks, from, schedule) == to;
  }
}
