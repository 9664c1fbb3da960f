/** Whole runs of sends and polls: the poll cursor loses nothing. */
module PollingRuns {
  import opened Bytes
  import opened Nodes
  import opened Pickups
  import opened Polling

  datatype Event =
    | SendMessage(m: Msg, now: int)
    | PollHost(host: utf8, limit: int, now: int, replies: Replies)
    | AddPeer(host: utf8)
    | RemovePeer(host: utf8)

  /**
   * A node's outbox, the time, the peer table, which messages each host has accepted so far, and the messages that
   * polls have handed over locally.
   */
  datatype System = System(outbox: Outbox, clock: int, peers: Peers, dropped: seq<(utf8, Msg)>, inbox: seq<Msg>)

  const START: System := System(map[], 0, map[], [], [])

  function Tagged(host: utf8, msgs: seq<Msg>): (r: seq<(utf8, Msg)>)
    ensures |r| == |msgs| && forall i :: 0 <= i < |msgs| ==> r[i] == (host, msgs[i])
  {
    if msgs == [] then [] else Tagged(host, msgs[..|msgs| - 1]) + [(host, msgs[|msgs| - 1])]
  }

  /** The messages a host reads from the bundle it accepted. */
  function Accepted(codec: Codec, host: utf8, accepted: Option<Bundle>): seq<(utf8, Msg)> {
    if accepted.None? then [] else Tagged(host, BundleMsgs(codec, accepted.value.data))
  }

  function EffectOf(codec: Codec, names: seq<utf8>, s: System, e: Event): Effect
    requires e.PollHost?
  {
    Poll(codec, s.outbox, Known(s.peers, e.host), names, e.limit, e.now, e.replies)
  }

  function Step(codec: Codec, names: seq<utf8>, s: System, e: Event): System {
    match e
    case SendMessage(m, now) => s.(outbox := Sent(codec, s.outbox, m, now), clock := now)
    case PollHost(host, _, now, _) =>
      var effect := EffectOf(codec, names, s, e);
      s.(clock := now, peers := s.peers[host := effect.peer],
         dropped := s.dropped + Accepted(codec, host, effect.accepted), inbox := s.inbox + effect.received)
    case AddPeer(host) => s.(peers := s.peers[host := NEW_PEER])
    case RemovePeer(host) => s.(peers := s.peers - {host})
  }

  /** The clock does not go back, and a poll has room for all the messages it may take. */
  predicate Legal(codec: Codec, names: seq<utf8>, s: System, e: Event) {
    match e
    case SendMessage(_, now) => now >= s.clock
    case PollHost(host, limit, now, _) =>
      && now >= s.clock
      && EligibleSize(codec, Candidates(s.outbox, names), Known(s.peers, host).lastLocal) <= limit
    case _ => true
  }

  function Run(codec: Codec, names: seq<utf8>, events: seq<Event>): System {
    if events == [] then START
    else Step(codec, names, Run(codec, names, events[..|events| - 1]), events[|events| - 1])
  }

  predicate LegalRun(codec: Codec, names: seq<utf8>, events: seq<Event>) {
    events == [] ||
    (LegalRun(codec, names, events[..|events| - 1]) &&
     Legal(codec, names, Run(codec, names, events[..|events| - 1]), events[|events| - 1]))
  }

  lemma RunOneMore(codec: Codec, names: seq<utf8>, events: seq<Event>, e: Event)
    ensures Run(codec, names, events + [e]) == Step(codec, names, Run(codec, names, events), e)
    ensures LegalRun(codec, names, events + [e])
       <==> LegalRun(codec, names, events) && Legal(codec, names, Run(codec, names, events), e)
  {
    hide Step, Legal;
    assert (events + [e])[..|events|] == events;
  }

  // ---- Invariant ----

  /** Queued messages are readable and not from the future. */
  ghost predicate QueuesOk(codec: Codec, s: System) {
    forall key, entry :: key in s.outbox && entry in s.outbox[key] ==>
      0 <= entry.timestamp <= s.clock && codec.decode(entry.msg).Some?
  }

  /** A message of a polled channel stamped before the host's cursor has been accepted by the host. */
  ghost predicate NothingLost(codec: Codec, names: seq<utf8>, s: System, host: utf8, lastLocal: int) {
    forall entry :: entry in Candidates(s.outbox, names) && entry.timestamp < lastLocal ==>
      codec.decode(entry.msg).Some? && (host, codec.decode(entry.msg).value) in s.dropped
  }

  ghost predicate Inv(codec: Codec, names: seq<utf8>, s: System) {
    && s.clock >= 0
    && QueuesOk(codec, s)
    && forall host :: host in s.peers ==>
         0 <= s.peers[host].lastLocal <= s.clock && NothingLost(codec, names, s, host, s.peers[host].lastLocal)
  }

  lemma {:induction false} CandidatesAreQueued(outbox: Outbox, names: seq<utf8>, entry: OutboxMsg)
    ensures entry in Candidates(outbox, names) <==> exists name :: name in names && entry in Queue(outbox, name)
  {
    if names != [] {
      var last := names[|names| - 1];
      assert names == names[..|names| - 1] + [last];
      CandidatesAreQueued(outbox, names[..|names| - 1], entry);
      if name :| name in names && entry in Queue(outbox, name) {
        assert name == last || name in names[..|names| - 1];
      }
    }
  }

  /** A candidate after a send was one before, or is the message just sent. */
  lemma CandidatesAfterSend(codec: Codec, outbox: Outbox, names: seq<utf8>, m: Msg, now: int, entry: OutboxMsg)
    requires entry in Candidates(Sent(codec, outbox, m, now), names)
    ensures entry in Candidates(outbox, names) || entry == Entry(codec, m, now)
  {
    CandidatesAreQueued(Sent(codec, outbox, m, now), names, entry);
    CandidatesAreQueued(outbox, names, entry);
  }

  lemma SendKeepsInv(codec: Codec, names: seq<utf8>, s: System, m: Msg, now: int)
    requires Inverse(codec) && Inv(codec, names, s) && now >= s.clock
    ensures Inv(codec, names, Step(codec, names, s, SendMessage(m, now)))
  {
    var after := Step(codec, names, s, SendMessage(m, now));
    assert codec.decode(codec.encode(m)) == Some(m);
    forall host | host in s.peers
      ensures NothingLost(codec, names, after, host, s.peers[host].lastLocal)
    {
      assert NothingLost(codec, names, s, host, s.peers[host].lastLocal);
      forall entry | entry in Candidates(after.outbox, names) && entry.timestamp < s.peers[host].lastLocal
        ensures entry in Candidates(s.outbox, names)
      {
        CandidatesAfterSend(codec, s.outbox, names, m, now, entry);
      }
    }
  }

  /** What one poll does to the cursor: it stays, or it moves to the time of a bundle the host accepted. */
  lemma CursorFollowsDropoff(codec: Codec, names: seq<utf8>, s: System, e: Event)
    requires e.PollHost?
    ensures var effect := EffectOf(codec, names, s, e);
            var was := Known(s.peers, e.host);
            effect.peer.lastLocal == was.lastLocal
            || (effect.peer.lastLocal == e.now && was.tx > 0 && effect.outcome == Polled
                && effect.accepted == Some(LocalBundle(codec, s.outbox, names, was, e.limit, e.now)))
  {
  }

  lemma PollKeepsHost(codec: Codec, names: seq<utf8>, s: System, e: Event)
    requires Inverse(codec) && Inv(codec, names, s) && e.PollHost? && Legal(codec, names, s, e)
    ensures var after := Step(codec, names, s, e);
            NothingLost(codec, names, after, e.host, after.peers[e.host].lastLocal)
            && 0 <= after.peers[e.host].lastLocal <= e.now
  {
    var after := Step(codec, names, s, e);
    var was := Known(s.peers, e.host);
    var queue := Candidates(s.outbox, names);
    var picked := PickedMsgs(codec, s.outbox, names, was.lastLocal, e.limit);
    CursorFollowsDropoff(codec, names, s, e);
    EverythingFits(codec, queue, was.lastLocal, e.limit);
    BundleRoundTrip(codec, picked);
    hide Poll, Exchange, BundleData, BundleMsgs, Candidates, Pick, EligibleSize, Inverse;
    forall entry | entry in queue && entry.timestamp < after.peers[e.host].lastLocal
      ensures codec.decode(entry.msg).Some? && (e.host, codec.decode(entry.msg).value) in after.dropped
    {
      CandidatesAreQueued(s.outbox, names, entry);
      assert codec.decode(entry.msg).Some?;
      if entry.timestamp < was.lastLocal {
        assert e.host in s.peers;
        assert NothingLost(codec, names, s, e.host, was.lastLocal);
      } else {
        assert Eligible(codec, entry, was.lastLocal);
        var i :| 0 <= i < |picked| && picked[i] == codec.decode(entry.msg).value;
        assert Tagged(e.host, picked)[i] == (e.host, picked[i]);
      }
    }
  }

  lemma PollKeepsInv(codec: Codec, names: seq<utf8>, s: System, e: Event)
    requires Inverse(codec) && Inv(codec, names, s) && e.PollHost? && Legal(codec, names, s, e)
    ensures Inv(codec, names, Step(codec, names, s, e))
  {
    PollKeepsHost(codec, names, s, e);
    hide EffectOf, Candidates;
    var after := Step(codec, names, s, e);
    forall host | host in after.peers && host != e.host
      ensures NothingLost(codec, names, after, host, after.peers[host].lastLocal)
    {
      assert NothingLost(codec, names, s, host, s.peers[host].lastLocal);
    }
  }

  lemma {:induction false} RunsKeepInv(codec: Codec, names: seq<utf8>, events: seq<Event>)
    requires Inverse(codec) && LegalRun(codec, names, events)
    ensures Inv(codec, names, Run(codec, names, events))
  {
    if events == [] {
    } else {
      var before, e := events[..|events| - 1], events[|events| - 1];
      RunsKeepInv(codec, names, before);
      var s := Run(codec, names, before);
      match e
      case SendMessage(m, now) => SendKeepsInv(codec, names, s, m, now);
      case PollHost(_, _, _, _) => PollKeepsInv(codec, names, s, e);
      case AddPeer(host) => TableKeepsInv(codec, names, s, e);
      case RemovePeer(host) => TableKeepsInv(codec, names, s, e);
    }
  }

  lemma TableKeepsInv(codec: Codec, names: seq<utf8>, s: System, e: Event)
    requires Inv(codec, names, s) && (e.AddPeer? || e.RemovePeer?)
    ensures Inv(codec, names, Step(codec, names, s, e))
  {
    var after := Step(codec, names, s, e);
    forall entry | entry in Candidates(s.outbox, names)
      ensures entry.timestamp >= 0
    {
      CandidatesAreQueued(s.outbox, names, entry);
    }
    forall host | host in after.peers
      ensures NothingLost(codec, names, after, host, after.peers[host].lastLocal)
    {
      if host in s.peers {
        assert NothingLost(codec, names, s, host, s.peers[host].lastLocal);
      }
    }
  }

  // ---- Main results ----

  /** A message that was sent stays in its queue, since nothing flushes it. */
  lemma {:induction false} SentStaysQueued(codec: Codec, names: seq<utf8>, events: seq<Event>, i: nat)
    requires i < |events| && events[i].SendMessage?
    ensures Entry(codec, events[i].m, events[i].now) in Queue(Run(codec, names, events).outbox, OutboxKey(events[i].m))
  {
    if i < |events| - 1 {
      SentStaysQueued(codec, names, events[..|events| - 1], i);
    }
  }

  /**
   * In every legal run, whatever calls fail and wherever, each message sent on a polled channel and stamped before a
   * host's cursor has been accepted by that host.
   */
  lemma CursorLosesNothing(codec: Codec, names: seq<utf8>, events: seq<Event>, i: nat, host: utf8)
    requires Inverse(codec) && LegalRun(codec, names, events)
    requires i < |events| && events[i].SendMessage? && OutboxKey(events[i].m) in names
    requires host in Run(codec, names, events).peers
    requires events[i].now < Run(codec, names, events).peers[host].lastLocal
    ensures (host, events[i].m) in Run(codec, names, events).dropped
  {
    var s := Run(codec, names, events);
    var entry := Entry(codec, events[i].m, events[i].now);
    RunsKeepInv(codec, names, events);
    SentStaysQueued(codec, names, events, i);
    CandidatesAreQueued(s.outbox, names, entry);
    assert NothingLost(codec, names, s, host, s.peers[host].lastLocal);
    assert codec.decode(codec.encode(events[i].m)) == Some(events[i].m);
  }

  /** In a legal run a poll never moves a cursor back. */
  lemma CursorNeverGoesBack(codec: Codec, names: seq<utf8>, events: seq<Event>, e: Event)
    requires Inverse(codec) && LegalRun(codec, names, events) && e.PollHost?
    requires Legal(codec, names, Run(codec, names, events), e)
    ensures var s := Run(codec, names, events);
            Step(codec, names, s, e).peers[e.host].lastLocal >= Known(s.peers, e.host).lastLocal
  {
    RunsKeepInv(codec, names, events);
    CursorFollowsDropoff(codec, names, Run(codec, names, events), e);
  }
}
