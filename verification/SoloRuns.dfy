/** A handler that runs alone does, access by access, what a handler call taken as one step does. */
module SoloRuns {
  import opened Bytes
  import opened Nodes
  import StreamRuns
  import opened Interleaving

  /** The system after handler h has moved n times in a row. */
  function Solo(tasks: seq<Task>, sys: System, h: nat, n: nat): (end: System)
    requires h < |tasks| == |sys.pcs|
    ensures |end.pcs| == |tasks|
  {
    if n == 0 then sys else Step(tasks, Solo(tasks, sys, h, n - 1), h)
  }

  /** The node that the shared maps belong to, with the messages delivered so far. */
  function NodeOf(sys: System, outbox: Outbox): State {
    State(sys.streams, sys.chunks, outbox, Messages(sys.delivered))
  }

  function Messages(delivered: seq<(u32, Msg)>): seq<Msg> {
    seq(|delivered|, i requires 0 <= i < |delivered| => delivered[i].1)
  }

  lemma {:induction false} SoloAdds(tasks: seq<Task>, sys: System, h: nat, m: nat, n: nat)
    requires h < |tasks| == |sys.pcs|
    ensures Solo(tasks, sys, h, m + n) == Solo(tasks, Solo(tasks, sys, h, m), h, n)
  {
    hide Step;
    if n > 0 {
      SoloAdds(tasks, sys, h, m, n - 1);
    }
  }

  lemma OneMove(tasks: seq<Task>, sys: System, h: nat, n: nat)
    requires h < |tasks| == |sys.pcs|
    ensures Solo(tasks, sys, h, n + 1) == Step(tasks, Solo(tasks, sys, h, n), h)
    ensures Solo(tasks, sys, h, 0) == sys
  {
  }

  // ---- One check ----

  /** One move of joining. */
  lemma JoinMove(tasks: seq<Task>, sys: System, h: nat, second: bool, info: StreamInfo, n: u32, content: bytes)
    requires h < |tasks| == |sys.pcs|
    ensures var at := sys.(pcs := sys.pcs[h := Collect(second, info, n, content)]);
            var key := (tasks[h].sid, n);
            Step(tasks, at, h)
            == sys.(pcs := sys.pcs[h := if n >= info.total then RemoveChunks(second, info, 0, content)
                                        else if key !in sys.chunks then Return(second)
                                        else Collect(second, info, n + 1, content + sys.chunks[key])])
  {
    hide Return;
  }

  /** Joining: all chunks in order, or a return when one is missing; either way nothing shared changes. */
  lemma SoloJoin(tasks: seq<Task>, sys: System, h: nat) returns (n: nat)
    requires h < |tasks| == |sys.pcs| && sys.pcs[h].Collect? && sys.pcs[h].next == 0 && sys.pcs[h].content == []
    ensures var Collect(second, info, _, _) := sys.pcs[h];
            var end, joined := Solo(tasks, sys, h, n), Joined(sys.chunks, tasks[h].sid, info.total);
            end == sys.(pcs := sys.pcs[h := if joined.None? then Return(second)
                                            else RemoveChunks(second, info, 0, joined.value)])
  {
    hide Step, Solo, Return;
    var Collect(second, info, _, _) := sys.pcs[h];
    var sid := tasks[h].sid;
    n := 0;
    var content: bytes := [];
    OneMove(tasks, sys, h, 0);
    assert sys == sys.(pcs := sys.pcs[h := Collect(second, info, 0, [])]);
    while n < info.total
      invariant n <= info.total
      invariant Joined(sys.chunks, sid, n) == Some(content)
      invariant Solo(tasks, sys, h, n) == sys.(pcs := sys.pcs[h := Collect(second, info, n, content)])
    {
      OneMove(tasks, sys, h, n);
      JoinMove(tasks, sys, h, second, info, n, content);
      if (sid, n) !in sys.chunks {
        MissingChunk(sys.chunks, sid, n, info.total);
        n := n + 1;
        return;
      }
      content := content + sys.chunks[(sid, n)];
      n := n + 1;
    }
    OneMove(tasks, sys, h, n);
    JoinMove(tasks, sys, h, second, info, n, content);
    n := n + 1;
  }

  /** One move of removing. */
  lemma RemoveMove(tasks: seq<Task>, sys: System, h: nat, second: bool, info: StreamInfo, n: u32, content: bytes)
    requires h < |tasks| == |sys.pcs|
    ensures var sid := tasks[h].sid;
            var at := sys.(chunks := Without(sys.chunks, sid, n),
                           pcs := sys.pcs[h := RemoveChunks(second, info, n, content)]);
            Step(tasks, at, h)
            == if n >= info.total then at.(pcs := sys.pcs[h := RemoveStream(second, info, content)])
               else sys.(chunks := Without(sys.chunks, sid, n + 1),
                         pcs := sys.pcs[h := RemoveChunks(second, info, n + 1, content)])
  {
    hide Without, Reassembled, Return;
    WithoutOneMore(sys.chunks, tasks[h].sid, n);
  }

  /** The last two moves remove the stream and hand the message over. */
  lemma LastMoves(tasks: seq<Task>, sys: System, h: nat)
    requires h < |tasks| == |sys.pcs| && sys.pcs[h].RemoveStream?
    ensures var RemoveStream(second, info, content) := sys.pcs[h];
            var sid := tasks[h].sid;
            Step(tasks, Step(tasks, sys, h), h)
            == System(sys.streams - {sid}, sys.chunks,
                      sys.delivered + [(sid, Reassembled(info.channel, content))], sys.pcs[h := Return(second)])
  {
    hide Reassembled, Return;
  }

  /** Removing: all announced chunks, then the stream, then the hand-over. */
  lemma SoloRemove(tasks: seq<Task>, sys: System, h: nat) returns (n: nat)
    requires h < |tasks| == |sys.pcs| && sys.pcs[h].RemoveChunks? && sys.pcs[h].next == 0
    ensures var RemoveChunks(second, info, _, content) := sys.pcs[h];
            var sid := tasks[h].sid;
            Solo(tasks, sys, h, n)
            == System(sys.streams - {sid}, Without(sys.chunks, sid, info.total),
                      sys.delivered + [(sid, Reassembled(info.channel, content))], sys.pcs[h := Return(second)])
  {
    hide Step, Solo, Reassembled, Return;
    var RemoveChunks(second, info, _, content) := sys.pcs[h];
    var sid := tasks[h].sid;
    n := 0;
    OneMove(tasks, sys, h, 0);
    assert Without(sys.chunks, sid, 0) == sys.chunks;
    assert sys == sys.(pcs := sys.pcs[h := RemoveChunks(second, info, 0, content)]);
    hide Without;
    while n < info.total
      invariant n <= info.total
      invariant Solo(tasks, sys, h, n)
             == sys.(chunks := Without(sys.chunks, sid, n), pcs := sys.pcs[h := RemoveChunks(second, info, n, content)])
    {
      OneMove(tasks, sys, h, n);
      RemoveMove(tasks, sys, h, second, info, n, content);
      n := n + 1;
    }
    OneMove(tasks, sys, h, n);
    RemoveMove(tasks, sys, h, second, info, n, content);
    OneMove(tasks, sys, h, n + 1);
    OneMove(tasks, sys, h, n + 2);
    var at := Solo(tasks, sys, h, n + 1);
    LastMoves(tasks, at, h);
    assert at.pcs[h := Return(second)] == sys.pcs[h := Return(second)];
    n := n + 3;
  }

  lemma WithoutOneMore(chunks: Chunks, sid: u32, n: u32)
    ensures Without(chunks, sid, n) - {(sid, n)} == Without(chunks, sid, n + 1)
  {
  }

  /** The shared maps and the deliveries after a check. */
  function CheckedSystem(sys: System, sid: u32): System {
    if sid !in sys.streams || !CountReached(sys.streams[sid]) then sys
    else
      var info := sys.streams[sid];
      match Joined(sys.chunks, sid, info.total)
      case None => sys
      case Some(content) =>
        System(sys.streams - {sid}, Without(sys.chunks, sid, info.total),
               sys.delivered + [(sid, Reassembled(info.channel, content))], sys.pcs)
  }

  lemma CheckedSystemIsChecked(sys: System, sid: u32, outbox: Outbox)
    ensures NodeOf(CheckedSystem(sys, sid), outbox) == Checked(NodeOf(sys, outbox), sid)
  {
    hide CountReached, Without, Joined, Reassembled;
    if sid in sys.streams && CountReached(sys.streams[sid]) {
      var info := sys.streams[sid];
      var joined := Joined(sys.chunks, sid, info.total);
      if joined.Some? {
        MessagesOneMore(sys.delivered, (sid, Reassembled(info.channel, joined.value)));
      }
    }
  }

  lemma MessagesOneMore(delivered: seq<(u32, Msg)>, d: (u32, Msg))
    ensures Messages(delivered + [d]) == Messages(delivered) + [d.1]
  {
  }

  /** The first move of a check. */
  lemma SoloLook(tasks: seq<Task>, sys: System, h: nat)
    requires h < |tasks| == |sys.pcs| && sys.pcs[h].Snapshot?
    ensures var sid, second := tasks[h].sid, sys.pcs[h].second;
            Solo(tasks, sys, h, 1)
            == sys.(pcs := sys.pcs[h := if sid in sys.streams && CountReached(sys.streams[sid])
                                        then Collect(second, sys.streams[sid], 0, []) else Return(second)])
  {
    OneMove(tasks, sys, h, 0);
    hide CountReached;
  }

  /** A check that runs alone is a check. */
  lemma SoloCheck(tasks: seq<Task>, sys: System, h: nat) returns (n: nat)
    requires h < |tasks| == |sys.pcs| && sys.pcs[h].Snapshot?
    ensures Solo(tasks, sys, h, n)
         == CheckedSystem(sys, tasks[h].sid).(pcs := sys.pcs[h := Return(sys.pcs[h].second)])
  {
    hide Solo, CountReached, Joined, Reassembled, Without, Return;
    var sid, second := tasks[h].sid, sys.pcs[h].second;
    SoloLook(tasks, sys, h);
    var s1 := Solo(tasks, sys, h, 1);
    n := 1;
    if sid in sys.streams && CountReached(sys.streams[sid]) {
      var m := SoloJoin(tasks, s1, h);
      SoloAdds(tasks, sys, h, 1, m);
      n := 1 + m;
      var s2 := Solo(tasks, s1, h, m);
      assert s2.pcs == sys.pcs[h := s2.pcs[h]];
      if Joined(sys.chunks, sid, sys.streams[sid].total).Some? {
        var k := SoloRemove(tasks, s2, h);
        SoloAdds(tasks, sys, h, 1 + m, k);
        n := 1 + m + k;
        assert s2.pcs[h := Return(second)] == sys.pcs[h := Return(second)];
      }
    }
  }

  // ---- One handler ----

  /**
   * A handler that runs from its beginning to its end with nobody in between finishes, and leaves the maps and the
   * deliveries as a handler call taken as one step leaves them.
   */
  lemma SoloIsOneStep(tasks: seq<Task>, sys: System, h: nat, outbox: Outbox) returns (n: nat)
    requires h < |tasks| == |sys.pcs| && sys.pcs[h] == InsertChunk
    ensures var t, end := tasks[h], Solo(tasks, sys, h, n);
            && NodeOf(end, outbox) == StreamRuns.HandledChunk(NodeOf(sys, outbox), t.sid, t.num, t.data)
            && end.pcs == sys.pcs[h := Finished]
  {
    hide Marked, Received, Checked, CheckedSystem, CountReached, Solo;
    var t := tasks[h];
    SoloMark(tasks, sys, h, outbox);
    var s2 := Solo(tasks, sys, h, 2);
    n := SoloCheck(tasks, s2, h);
    SoloAdds(tasks, sys, h, 2, n);
    var s3 := Solo(tasks, s2, h, n);
    n := 2 + n;
    SameNode(CheckedSystem(s2, t.sid), s3.pcs, outbox);
    CheckedSystemIsChecked(s2, t.sid, outbox);
    if s3.pcs[h] != Finished {
      var m := SoloCheck(tasks, s3, h);
      SoloAdds(tasks, sys, h, n, m);
      n := n + m;
      SameNode(CheckedSystem(s3, t.sid), Solo(tasks, s3, h, m).pcs, outbox);
      CheckedSystemIsChecked(s3, t.sid, outbox);
    }
    assert Solo(tasks, sys, h, n).pcs == sys.pcs[h := Finished];
  }

  lemma SameNode(sys: System, pcs: seq<Pc>, outbox: Outbox)
    ensures NodeOf(sys.(pcs := pcs), outbox) == NodeOf(sys, outbox)
  {
  }

  /** The first two moves store and mark the chunk. */
  lemma SoloMark(tasks: seq<Task>, sys: System, h: nat, outbox: Outbox)
    requires h < |tasks| == |sys.pcs| && sys.pcs[h] == InsertChunk
    ensures var t, end := tasks[h], Solo(tasks, sys, h, 2);
            var marked := Marked(NodeOf(sys, outbox), t.sid, t.num, t.data);
            && NodeOf(end, outbox) == marked && |end.pcs| == |tasks|
            && end.pcs == sys.pcs[h := Snapshot(!(t.sid in sys.streams && CountReached(marked.streams[t.sid])))]
  {
    hide CountReached;
    OneMove(tasks, sys, h, 0);
    OneMove(tasks, sys, h, 1);
    var t := tasks[h];
    var s1 := Solo(tasks, sys, h, 1);
    assert s1 == sys.(chunks := sys.chunks[(t.sid, t.num) := t.data], pcs := sys.pcs[h := MarkReceived]);
    var s2 := Solo(tasks, sys, h, 2);
    assert s2.pcs == sys.pcs[h := s2.pcs[h]];
  }
}
