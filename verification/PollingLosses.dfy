/** What a poll without room for everything loses, a run that comes to it, and that nothing brings it back. */
module PollingLosses {
  import opened Bytes
  import opened Nodes
  import opened Pickups
  import opened Polling
  import opened PollingRuns

  // ---- When a poll has no room ----

  /** All queued messages of the polled channels are different. */
  predicate AllDifferent(codec: Codec, queue: seq<OutboxMsg>) {
    forall i, j :: 0 <= i < j < |queue| ==> codec.decode(queue[i].msg) != codec.decode(queue[j].msg)
  }

  /** Nothing that the poll may take has been accepted by the host already. */
  ghost predicate NoneDropped(codec: Codec, s: System, queue: seq<OutboxMsg>, host: utf8, lastLocal: int) {
    forall entry :: entry in queue && Eligible(codec, entry, lastLocal) ==>
      (host, codec.decode(entry.msg).value) !in s.dropped
  }

  /**
   * A poll whose calls succeed and whose cursor moves keeps every message exactly when the byte limit has room for
   * all it may take: otherwise some message is left out of the bundle and falls behind the cursor.
   */
  lemma PollLosesWithoutRoom(codec: Codec, names: seq<utf8>, s: System, e: Event)
    requires Inverse(codec) && Inv(codec, names, s) && e.PollHost? && e.now >= s.clock && e.limit >= 0
    requires e.replies.pickup.Ok? && e.replies.dropoff.Ok?
    requires var was, queue := Known(s.peers, e.host), Candidates(s.outbox, names);
             && was.key.Some? && was.tx > 0
             && PickedMsgs(codec, s.outbox, names, was.lastLocal, e.limit) != []
             && AllDifferent(codec, queue)
             && (forall entry :: entry in queue ==> entry.timestamp < e.now)
             && NoneDropped(codec, s, queue, e.host, was.lastLocal)
    ensures var after := Step(codec, names, s, e);
            NothingLost(codec, names, after, e.host, after.peers[e.host].lastLocal) <==>
              EligibleSize(codec, Candidates(s.outbox, names), Known(s.peers, e.host).lastLocal) <= e.limit
  {
    var after, was := Step(codec, names, s, e), Known(s.peers, e.host);
    var queue := Candidates(s.outbox, names);
    if EligibleSize(codec, queue, was.lastLocal) <= e.limit {
      PollKeepsHost(codec, names, s, e);
    } else {
      var p := Pick(codec, queue, was.lastLocal, e.limit);
      PollMovesCursor(codec, names, s, e);
      RoomDecides(codec, queue, was.lastLocal, e.limit);
      hide Step, Pick, EligibleSize, Candidates, Inv, Inverse;
      var j: nat :| j < |queue| && Eligible(codec, queue[j], was.lastLocal) && j !in p.positions;
      LeftOutIsNotPicked(codec, queue, was.lastLocal, e.limit, j);
      var m := codec.decode(queue[j].msg).value;
      assert queue[j] in queue;
      assert (e.host, m) !in Tagged(e.host, p.msgs);
    }
  }

  /** What such a poll does: the host accepts what was picked, and the cursor moves to the time of the poll. */
  lemma PollMovesCursor(codec: Codec, names: seq<utf8>, s: System, e: Event)
    requires Inverse(codec) && e.PollHost? && e.replies.pickup.Ok? && e.replies.dropoff.Ok?
    requires Known(s.peers, e.host).key.Some? && Known(s.peers, e.host).tx > 0
    requires PickedMsgs(codec, s.outbox, names, Known(s.peers, e.host).lastLocal, e.limit) != []
    ensures var after := Step(codec, names, s, e);
            var picked := PickedMsgs(codec, s.outbox, names, Known(s.peers, e.host).lastLocal, e.limit);
            && after.outbox == s.outbox && e.host in after.peers && after.peers[e.host].lastLocal == e.now
            && after.dropped == s.dropped + Tagged(e.host, picked)
  {
    hide PickedMsgs, Tagged;
    BundleRoundTrip(codec, PickedMsgs(codec, s.outbox, names, Known(s.peers, e.host).lastLocal, e.limit));
    hide BundleData, BundleMsgs;
  }

  /** Among different messages, one whose position is left out is left out. */
  lemma LeftOutIsNotPicked(codec: Codec, queue: seq<OutboxMsg>, lastTime: int, maxBytes: int, j: nat)
    requires AllDifferent(codec, queue) && j < |queue| && Eligible(codec, queue[j], lastTime)
    requires j !in Pick(codec, queue, lastTime, maxBytes).positions
    ensures codec.decode(queue[j].msg).value !in Pick(codec, queue, lastTime, maxBytes).msgs
  {
    var p := Pick(codec, queue, lastTime, maxBytes);
    PickTakesEligible(codec, queue, lastTime, maxBytes);
    hide Pick;
    forall i | 0 <= i < |p.msgs|
      ensures p.msgs[i] != codec.decode(queue[j].msg).value
    {
      assert p.positions[i] != j;
      assert codec.decode(queue[p.positions[i]].msg) == Some(p.msgs[i]);
    }
  }

  /** Replies with which an exchange goes through, the remote side having nothing to send. */
  const WILLING: Replies := Replies(Ok(None), Ok(None), Ok(()))

  /** A run from the start that fetches a host's key, sends it one message, and then queues another one. */
  function CrowdedRun(codec: Codec, host: utf8, first: Msg, second: Msg, key: PubKey): seq<Event> {
    [SendMessage(first, 1)]
    + [PollHost(host, |codec.encode(first)|, 1, WILLING.(id := Ok(Some(key))))]
    + [PollHost(host, |codec.encode(first)|, 1, WILLING)]
    + [SendMessage(second, 1)]
  }

  /** The state in which the key is cached and the first message is queued. */
  function Fetched(codec: Codec, name: utf8, host: utf8, first: Msg, key: PubKey): System {
    System(map[name := [Entry(codec, first, 1)]], 1, map[host := Peer(0, 0, 0, 0, Some(key))], [], [])
  }

  /** The state in which the first message has been accepted once and the second one is queued behind it. */
  function Crowded(codec: Codec, name: utf8, host: utf8, first: Msg, second: Msg, key: PubKey): System {
    System(map[name := [Entry(codec, first, 1), Entry(codec, second, 1)]], 1,
           map[host := Peer(0, 0, |codec.encodeAll([first])|, 0, Some(key))], [(host, first)], [])
  }

  lemma RunToFetched(codec: Codec, name: utf8, host: utf8, first: Msg, key: PubKey, e: Event)
    requires Inverse(codec) && first.isChan && first.name == name
    requires e == PollHost(host, |codec.encode(first)|, 1, WILLING.(id := Ok(Some(key))))
    ensures var events := [SendMessage(first, 1)] + [e];
            Run(codec, [name], events) == Fetched(codec, name, host, first, key) && LegalRun(codec, [name], events)
  {
    var e1 := Entry(codec, first, 1);
    var s1 := System(map[name := [e1]], 1, map[], [], []);
    OneQueue(s1.outbox, name);
    OnlyFirstFits(codec, e1, first);
    hide Step, EligibleSize, Candidates, Entry, Pick, LegalRun, Run, Inverse;
    SentIsQueued(codec, [name], START, first, 1, name);
    KeyIsFetched(codec, [name], s1, host, e, key);
    NothingRun(codec, [name]);
    RunOneMore(codec, [name], [], SendMessage(first, 1));
    RunOneMore(codec, [name], [SendMessage(first, 1)], e);
    assert [] + [SendMessage(first, 1)] == [SendMessage(first, 1)];
  }

  lemma RunToCrowded(codec: Codec, name: utf8, host: utf8, first: Msg, second: Msg, key: PubKey)
    requires Inverse(codec) && first != second && first.isChan && second.isChan && first.name == second.name == name
    ensures var events := CrowdedRun(codec, host, first, second, key);
            && Run(codec, [name], events) == Crowded(codec, name, host, first, second, key)
            && LegalRun(codec, [name], events)
  {
    var e1, e2 := Entry(codec, first, 1), Entry(codec, second, 1);
    var ask := PollHost(host, |codec.encode(first)|, 1, WILLING.(id := Ok(Some(key))));
    var send := PollHost(host, |codec.encode(first)|, 1, WILLING);
    var s2 := Fetched(codec, name, host, first, key);
    var sent := Peer(0, 0, |codec.encodeAll([first])|, 0, Some(key));
    var s3 := s2.(peers := map[host := sent], dropped := [(host, first)]);
    OneQueue(s2.outbox, name);
    OnlyFirstFits(codec, e1, first);
    hide Step, EligibleSize, Candidates, Entry, Pick, LegalRun, Run;
    RunToFetched(codec, name, host, first, key, ask);
    WillingPoll(codec, [name], s2, host, send, first, s2.peers[host]);
    SentIsQueued(codec, [name], s3, second, 1, name);
    assert [e1] + [e2] == [e1, e2] && [] + [(host, first)] == [(host, first)];
    RunOneMore(codec, [name], [SendMessage(first, 1)] + [ask], send);
    RunOneMore(codec, [name], [SendMessage(first, 1)] + [ask] + [send], SendMessage(second, 1));
  }

  /**
   * Two different messages of one channel, and a limit with room for the first: a poll that has only the room clause
   * against it takes the first one again and moves the cursor past the second, which the host has not accepted.
   */
  lemma CrowdedRunLoses(codec: Codec, name: utf8, host: utf8, first: Msg, second: Msg, key: PubKey)
    requires Inverse(codec) && first != second && first.isChan && second.isChan && first.name == second.name == name
    ensures var events := CrowdedRun(codec, host, first, second, key);
            var last := PollHost(host, |codec.encode(first)|, 2, WILLING);
            var before, end := Run(codec, [name], events), Run(codec, [name], events + [last]);
            && LegalRun(codec, [name], events) && last.now >= before.clock
            && host in before.peers && host in end.peers
            && EligibleSize(codec, Candidates(before.outbox, [name]), before.peers[host].lastLocal) > last.limit
            && events[3] == SendMessage(second, 1) && 1 < end.peers[host].lastLocal
            && CursorsInTime(end) && Behind(codec, [name], end, host, second)
  {
    var events := CrowdedRun(codec, host, first, second, key);
    var last := PollHost(host, |codec.encode(first)|, 2, WILLING);
    var s4 := Crowded(codec, name, host, first, second, key);
    OneQueue(s4.outbox, name);
    SecondDoesNotFit(codec, Entry(codec, first, 1), Entry(codec, second, 1), first);
    RunToCrowded(codec, name, host, first, second, key);
    hide Step, EligibleSize, Candidates, Entry, Pick, LegalRun, Run, Behind;
    WillingPoll(codec, [name], s4, host, last, first, s4.peers[host]);
    RunOneMore(codec, [name], events, last);
    SecondIsBehind(codec, Run(codec, [name], events + [last]), name, host, first, second);
  }

  lemma SecondIsBehind(codec: Codec, s: System, name: utf8, host: utf8, first: Msg, second: Msg)
    requires Inverse(codec) && first != second && host in s.peers && s.peers[host].lastLocal == 2
    requires s.outbox == map[name := [Entry(codec, first, 1), Entry(codec, second, 1)]]
    requires (host, second) !in s.dropped
    ensures Behind(codec, [name], s, host, second)
  {
    OneQueue(s.outbox, name);
    assert codec.decode(codec.encode(first)) == Some(first);
  }

  lemma NothingRun(codec: Codec, names: seq<utf8>)
    ensures Run(codec, names, []) == START && LegalRun(codec, names, [])
  {
  }

  lemma SentIsQueued(codec: Codec, names: seq<utf8>, s: System, m: Msg, now: int, name: utf8)
    requires OutboxKey(m) == name && s.outbox.Keys <= {name}
    ensures Step(codec, names, s, SendMessage(m, now))
         == s.(outbox := map[name := Queue(s.outbox, name) + [Entry(codec, m, now)]], clock := now)
  {
    hide Entry;
  }

  lemma OneQueue(outbox: Outbox, name: utf8)
    requires name in outbox
    ensures Candidates(outbox, [name]) == outbox[name]
  {
    assert Candidates(outbox, [name]) == Candidates(outbox, [name][..0]) + Queue(outbox, name);
  }

  lemma OnlyFirstFits(codec: Codec, e: OutboxMsg, m: Msg)
    requires codec.decode(e.msg) == Some(m) && e.timestamp >= 0
    ensures Pick(codec, [e], 0, |e.msg|) == Picked([0], [m], |e.msg|)
    ensures EligibleSize(codec, [e], 0) == |e.msg|
  {
    assert Pick(codec, [], 0, |e.msg|) == Picked([], [], 0);
    PickOneMore(codec, [], e, 0, |e.msg|);
    assert [] + [e] == [e] && [e][..0] == [];
  }

  lemma SecondDoesNotFit(codec: Codec, e1: OutboxMsg, e2: OutboxMsg, first: Msg)
    requires codec.decode(e1.msg) == Some(first) && codec.decode(e2.msg).Some? && e2.msg != []
    requires e1.timestamp >= 0 && e2.timestamp >= 0
    ensures Pick(codec, [e1, e2], 0, |e1.msg|).msgs == [first]
    ensures EligibleSize(codec, [e1, e2], 0) > |e1.msg|
  {
    OnlyFirstFits(codec, e1, first);
    PickOneMore(codec, [e1], e2, 0, |e1.msg|);
    assert [e1] + [e2] == [e1, e2] && [e1, e2][..1] == [e1];
  }

  lemma KeyIsFetched(codec: Codec, names: seq<utf8>, s: System, host: utf8, e: Event, key: PubKey)
    requires e.PollHost? && e.host == host && e.replies.id == Ok(Some(key)) && s.peers == map[]
    ensures Step(codec, names, s, e) == s.(clock := e.now, peers := map[host := NEW_PEER.(key := Some(key))])
  {
  }

  lemma WillingPoll(codec: Codec, names: seq<utf8>, s: System, host: utf8, e: Event, m: Msg, was: Peer)
    requires Inverse(codec) && e.PollHost? && e.host == host && e.replies == WILLING
    requires s.peers == map[host := was] && was.key.Some?
    requires PickedMsgs(codec, s.outbox, names, was.lastLocal, e.limit) == [m]
    ensures var size := |codec.encodeAll([m])|;
            size > 0 && Step(codec, names, s, e)
            == s.(clock := e.now, dropped := s.dropped + [(host, m)],
                  peers := map[host := was.(lastLocal := if was.tx > 0 then e.now else was.lastLocal,
                                            tx := was.tx + size)])
  {
    hide PickedMsgs;
    BundleRoundTrip(codec, [m]);
    var bundle := LocalBundle(codec, s.outbox, names, was, e.limit, e.now);
    assert bundle == Bundle(codec.encodeAll([m]), e.now);
    var accepted := Accepted(codec, host, Some(bundle));
    assert |accepted| == 1 && accepted[0] == (host, m);
    assert accepted == [(host, m)];
    assert s.peers[host := AfterDropoff(was, bundle)] == map[host := AfterDropoff(was, bundle)];
  }

  // ---- What is lost stays lost ----

  /** Cursors are not ahead of the clock. */
  predicate CursorsInTime(s: System) {
    s.clock >= 0 && forall host :: host in s.peers ==> s.peers[host].lastLocal <= s.clock
  }

  predicate Timely(s: System, e: Event) {
    match e
    case SendMessage(_, now) => now >= s.clock
    case PollHost(_, _, now, _) => now >= s.clock
    case _ => true
  }

  function RunFrom(codec: Codec, names: seq<utf8>, s: System, events: seq<Event>): System {
    if events == [] then s
    else Step(codec, names, RunFrom(codec, names, s, events[..|events| - 1]), events[|events| - 1])
  }

  predicate TimelyRun(codec: Codec, names: seq<utf8>, s: System, events: seq<Event>) {
    events == [] ||
    (TimelyRun(codec, names, s, events[..|events| - 1]) &&
     Timely(RunFrom(codec, names, s, events[..|events| - 1]), events[|events| - 1]))
  }

  /** The message is queued only behind the host's cursor, and the host has not accepted it. */
  ghost predicate Behind(codec: Codec, names: seq<utf8>, s: System, host: utf8, m: Msg) {
    && host in s.peers && (host, m) !in s.dropped
    && forall entry :: entry in Candidates(s.outbox, names) && codec.decode(entry.msg) == Some(m) ==>
         entry.timestamp < s.peers[host].lastLocal
  }

  /** The event neither makes the host's entry anew nor sends the message again. */
  predicate Unrelated(e: Event, host: utf8, m: Msg) {
    match e
    case SendMessage(sent, _) => sent != m
    case AddPeer(h) => h != host
    case RemovePeer(h) => h != host
    case _ => true
  }

  /**
   * A message behind a host's cursor is lost to it: no run without a new entry for the host and without sending the
   * message again, whatever its limits and replies, gets it accepted.
   */
  lemma {:induction false} LostStaysLost(
      codec: Codec, names: seq<utf8>, s: System, events: seq<Event>, host: utf8, m: Msg)
    requires Inverse(codec) && CursorsInTime(s) && TimelyRun(codec, names, s, events)
    requires Behind(codec, names, s, host, m)
    requires forall i :: 0 <= i < |events| ==> Unrelated(events[i], host, m)
    ensures var end := RunFrom(codec, names, s, events);
            CursorsInTime(end) && Behind(codec, names, end, host, m)
  {
    if events != [] {
      var earlier, e := events[..|events| - 1], events[|events| - 1];
      LostStaysLost(codec, names, s, earlier, host, m);
      var before := RunFrom(codec, names, s, earlier);
      assert Unrelated(e, host, m) && Timely(before, e);
      hide Step, Behind, Unrelated;
      StepKeepsCursorsInTime(codec, names, before, e);
      if e.SendMessage? {
        SendKeepsBehind(codec, names, before, e, host, m);
      } else {
        PollKeepsBehind(codec, names, before, e, host, m);
      }
    }
  }

  lemma StepKeepsCursorsInTime(codec: Codec, names: seq<utf8>, s: System, e: Event)
    requires CursorsInTime(s) && Timely(s, e)
    ensures CursorsInTime(Step(codec, names, s, e))
    ensures e.PollHost? ==> Step(codec, names, s, e).peers[e.host].lastLocal >= Known(s.peers, e.host).lastLocal
  {
    if e.PollHost? {
      CursorFollowsDropoff(codec, names, s, e);
      hide Poll;
    }
  }

  lemma SendKeepsBehind(codec: Codec, names: seq<utf8>, s: System, e: Event, host: utf8, m: Msg)
    requires Inverse(codec) && e.SendMessage? && e.m != m && Behind(codec, names, s, host, m)
    ensures Behind(codec, names, Step(codec, names, s, e), host, m)
  {
    var after := Step(codec, names, s, e);
    assert codec.decode(codec.encode(e.m)) == Some(e.m);
    forall entry | entry in Candidates(after.outbox, names) && codec.decode(entry.msg) == Some(m)
      ensures entry.timestamp < s.peers[host].lastLocal
    {
      CandidatesAfterSend(codec, s.outbox, names, e.m, e.now, entry);
    }
  }

  /** Other events than sending; a poll takes nothing from before its cursor. */
  lemma PollKeepsBehind(codec: Codec, names: seq<utf8>, s: System, e: Event, host: utf8, m: Msg)
    requires Inverse(codec) && !e.SendMessage? && Unrelated(e, host, m) && Behind(codec, names, s, host, m)
    requires e.PollHost? ==> Step(codec, names, s, e).peers[e.host].lastLocal >= Known(s.peers, e.host).lastLocal
    ensures Behind(codec, names, Step(codec, names, s, e), host, m)
  {
    if e.PollHost? && e.host == host {
      var picked := PickedMsgs(codec, s.outbox, names, s.peers[host].lastLocal, e.limit);
      AcceptedIsPicked(codec, names, s, e);
      OldIsNotPicked(codec, Candidates(s.outbox, names), s.peers[host].lastLocal, e.limit, m);
      hide Poll, Pick;
      assert (host, m) !in Tagged(host, picked);
    }
  }

  /** A host accepts all that was picked for it, or nothing. */
  lemma AcceptedIsPicked(codec: Codec, names: seq<utf8>, s: System, e: Event)
    requires Inverse(codec) && e.PollHost?
    ensures var accepted := Accepted(codec, e.host, EffectOf(codec, names, s, e).accepted);
            accepted == []
            || accepted == Tagged(e.host, PickedMsgs(codec, s.outbox, names, Known(s.peers, e.host).lastLocal, e.limit))
  {
    hide PickedMsgs, Tagged;
    BundleRoundTrip(codec, PickedMsgs(codec, s.outbox, names, Known(s.peers, e.host).lastLocal, e.limit));
  }

  lemma OldIsNotPicked(codec: Codec, queue: seq<OutboxMsg>, lastTime: int, maxBytes: int, m: Msg)
    requires forall entry :: entry in queue && codec.decode(entry.msg) == Some(m) ==> entry.timestamp < lastTime
    ensures m !in Pick(codec, queue, lastTime, maxBytes).msgs
  {
    var p := Pick(codec, queue, lastTime, maxBytes);
    PickTakesEligible(codec, queue, lastTime, maxBytes);
    hide Pick;
    forall i | 0 <= i < |p.msgs|
      ensures p.msgs[i] != m
    {
      assert queue[p.positions[i]] in queue;
    }
  }
}
