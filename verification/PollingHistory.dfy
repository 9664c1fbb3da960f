/** What a host's entry holds after any run: its counters and cursors told from the polls since it was made. */
module PollingHistory {
  import opened Bytes
  import opened Nodes
  import opened Pickups
  import opened Polling
  import opened PollingRuns

  /** A poll as the outside sees it: whether the key was there, the replies, what was accepted, and how it ended. */
  datatype Visit = Visit(keyed: bool, replies: Replies, accepted: Option<Bundle>, outcome: Outcome)

  function VisitOf(codec: Codec, names: seq<utf8>, s: System, e: Event): Visit
    requires e.PollHost?
  {
    var effect := EffectOf(codec, names, s, e);
    Visit(Known(s.peers, e.host).key.Some?, e.replies, effect.accepted, effect.outcome)
  }

  /** The polls of a host since its entry was last made or removed. */
  function History(codec: Codec, names: seq<utf8>, events: seq<Event>, host: utf8): seq<Visit> {
    if events == [] then []
    else
      var before, e := events[..|events| - 1], events[|events| - 1];
      match e
      case PollHost(h, _, _, _) =>
        if h != host then History(codec, names, before, host)
        else
          History(codec, names, before, host) + [VisitOf(codec, names, Run(codec, names, before), e)]
      case AddPeer(h) => if h == host then [] else History(codec, names, before, host)
      case RemovePeer(h) => if h == host then [] else History(codec, names, before, host)
      case SendMessage(_, _) => History(codec, names, before, host)
  }

  // ---- What passed in these polls ----

  /** The bundle the remote side sent, when the poll got as far as asking for it and could read it. */
  function Reply(v: Visit): seq<Bundle> {
    if v.keyed && v.replies.pickup.Ok? && v.replies.pickup.value.Some? then [v.replies.pickup.value.value] else []
  }

  /** The bundle whose messages the poll handed over. */
  function HandedOver(v: Visit): seq<Bundle> {
    if v.outcome == Polled && Reply(v) != [] && Reply(v)[0].data != [] then Reply(v) else []
  }

  function AcceptedBundle(v: Visit): seq<Bundle> {
    if v.accepted.Some? then [v.accepted.value] else []
  }

  function All(bundles: Visit -> seq<Bundle>, history: seq<Visit>): seq<Bundle> {
    if history == [] then [] else All(bundles, history[..|history| - 1]) + bundles(history[|history| - 1])
  }

  function TotalSize(bundles: seq<Bundle>): nat {
    if bundles == [] then 0 else TotalSize(bundles[..|bundles| - 1]) + |bundles[|bundles| - 1].data|
  }

  /** The time of the last bundle, not counting the first `ignored` ones; 0 when there is none. */
  function LastTime(bundles: seq<Bundle>, ignored: nat): int {
    if |bundles| > ignored then bundles[|bundles| - 1].time else 0
  }

  function Panics(history: seq<Visit>): nat {
    if history == [] then 0
    else Panics(history[..|history| - 1]) + if history[|history| - 1].outcome == Panicked then 1 else 0
  }

  /** The entry tells the history: sums, times, and whether the one poll that panics has been made. */
  ghost predicate Tells(peer: Peer, history: seq<Visit>) {
    && peer.tx == TotalSize(All(AcceptedBundle, history))
    && peer.rx == TotalSize(All(Reply, history))
    && peer.lastLocal == LastTime(All(AcceptedBundle, history), 1)
    && peer.lastRemote == LastTime(All(HandedOver, history), 0)
    && Panics(history) == (if peer.key.Some? then 1 else 0)
    && (forall i :: 0 <= i < |All(AcceptedBundle, history)| ==> All(AcceptedBundle, history)[i].data != [])
  }

  lemma SizeOneMore(bundles: seq<Bundle>, b: Bundle)
    ensures TotalSize(bundles + [b]) == TotalSize(bundles) + |b.data|
  {
    assert (bundles + [b])[..|bundles|] == bundles;
  }

  lemma {:induction false} SomethingWasSent(bundles: seq<Bundle>)
    requires forall i :: 0 <= i < |bundles| ==> bundles[i].data != []
    ensures TotalSize(bundles) > 0 <==> bundles != []
  {
    if bundles != [] {
      SomethingWasSent(bundles[..|bundles| - 1]);
    }
  }

  lemma OneMoreVisit(bundles: Visit -> seq<Bundle>, history: seq<Visit>, v: Visit)
    ensures All(bundles, history + [v]) == All(bundles, history) + bundles(v)
  {
    assert (history + [v])[..|history|] == history;
  }

  /** What one poll does to an entry, told from what passed. */
  ghost predicate Recorded(was: Peer, peer: Peer, v: Visit) {
    && |AcceptedBundle(v)| <= 1 && |Reply(v)| <= 1 && |HandedOver(v)| <= 1
    && (AcceptedBundle(v) != [] ==> AcceptedBundle(v)[0].data != [])
    && peer.tx == was.tx + (if AcceptedBundle(v) != [] then |AcceptedBundle(v)[0].data| else 0)
    && peer.rx == was.rx + (if Reply(v) != [] then |Reply(v)[0].data| else 0)
    && peer.lastLocal == (if AcceptedBundle(v) != [] && was.tx > 0 then AcceptedBundle(v)[0].time else was.lastLocal)
    && peer.lastRemote == (if HandedOver(v) != [] then HandedOver(v)[0].time else was.lastRemote)
    && (v.outcome == Panicked ==> was.key.None? && peer.key.Some?)
    && (v.outcome != Panicked ==> peer.key == was.key)
  }

  lemma PollRecords(codec: Codec, names: seq<utf8>, s: System, e: Event)
    requires e.PollHost? && Known(s.peers, e.host).rx >= 0
    ensures Recorded(Known(s.peers, e.host), EffectOf(codec, names, s, e).peer, VisitOf(codec, names, s, e))
  {
    hide Pick, Candidates, BundleData, BundleMsgs;
  }

  lemma RecordedTells(was: Peer, peer: Peer, v: Visit, history: seq<Visit>)
    requires Tells(was, history) && Recorded(was, peer, v)
    ensures Tells(peer, history + [v])
  {
    hide All, TotalSize, LastTime, Panics, AcceptedBundle, Reply, HandedOver;
    var accepted, more := All(AcceptedBundle, history), AcceptedBundle(v);
    SomethingWasSent(accepted);
    OneMoreVisit(AcceptedBundle, history, v);
    OneMoreVisit(Reply, history, v);
    OneMoreVisit(HandedOver, history, v);
    SizeOfBoth(accepted, more);
    SizeOfBoth(All(Reply, history), Reply(v));
    LastOfBoth(All(HandedOver, history), HandedOver(v));
    LastOfBoth(accepted, more);
    PanicsOneMore(history, v);
    assert forall i :: 0 <= i < |accepted + more| ==> (accepted + more)[i] in accepted || (accepted + more)[i] in more;
  }

  lemma PanicsOneMore(history: seq<Visit>, v: Visit)
    ensures Panics(history + [v]) == Panics(history) + if v.outcome == Panicked then 1 else 0
  {
    assert (history + [v])[..|history|] == history;
  }

  lemma SizeOfBoth(bundles: seq<Bundle>, more: seq<Bundle>)
    requires |more| <= 1
    ensures TotalSize(bundles + more) == TotalSize(bundles) + if more != [] then |more[0].data| else 0
  {
    if more == [] {
      assert bundles + more == bundles;
    } else {
      assert more == [more[0]];
      SizeOneMore(bundles, more[0]);
    }
  }

  lemma LastOfBoth(bundles: seq<Bundle>, more: seq<Bundle>)
    requires |more| <= 1
    ensures LastTime(bundles + more, 0) == if more != [] then more[0].time else LastTime(bundles, 0)
    ensures LastTime(bundles + more, 1) == if more != [] && bundles != [] then more[0].time else LastTime(bundles, 1)
  {
    if more == [] {
      assert bundles + more == bundles;
    }
  }

  /**
   * In every run, legal or not: an entry's sent counter is the size of all bundles its host accepted since the entry
   * was made, and its received counter that of all replies read; its local cursor is the time of the last accepted
   * bundle but for the first one, its remote cursor the time of the last bundle handed over; and its key is cached
   * exactly when one poll of it has panicked, which none does twice.
   */
  lemma {:induction false} EntryTellsHistory(codec: Codec, names: seq<utf8>, events: seq<Event>, host: utf8)
    ensures Tells(Known(Run(codec, names, events).peers, host), History(codec, names, events, host))
  {
    hide Poll, Tells, Step, Known, VisitOf;
    NothingTells();
    if events == [] {
      NobodyKnown(host);
    } else {
      var before, e := events[..|events| - 1], events[|events| - 1];
      var s := Run(codec, names, before);
      EntryTellsHistory(codec, names, before, host);
      EntryAfter(codec, names, s, e, host);
      if e.PollHost? && e.host == host {
        NothingIsTakenBack(Known(s.peers, host), History(codec, names, before, host));
        PollRecords(codec, names, s, e);
        RecordedTells(Known(s.peers, host), EffectOf(codec, names, s, e).peer, VisitOf(codec, names, s, e),
                      History(codec, names, before, host));
      }
    }
  }

  lemma NothingTells()
    ensures Tells(NEW_PEER, [])
  {
    assert All(AcceptedBundle, []) == All(Reply, []) == All(HandedOver, []) == [];
  }

  lemma NothingIsTakenBack(peer: Peer, history: seq<Visit>)
    requires Tells(peer, history)
    ensures peer.rx >= 0
  {
  }

  lemma NobodyKnown(host: utf8)
    ensures Known(START.peers, host) == NEW_PEER
  {
  }

  /** A host's entry changes by polls of it and by being made anew or removed. */
  lemma EntryAfter(codec: Codec, names: seq<utf8>, s: System, e: Event, host: utf8)
    ensures Known(Step(codec, names, s, e).peers, host)
         == (match e
             case SendMessage(_, _) => Known(s.peers, host)
             case PollHost(h, _, _, _) => if h == host then EffectOf(codec, names, s, e).peer else Known(s.peers, host)
             case AddPeer(h) => if h == host then NEW_PEER else Known(s.peers, host)
             case RemovePeer(h) => if h == host then NEW_PEER else Known(s.peers, host))
  {
    hide Poll;
  }

  /** In every run the messages handed over locally are those of the bundles handed over, in order, of all hosts. */
  lemma {:induction false} InboxIsHandedOver(codec: Codec, names: seq<utf8>, events: seq<Event>)
    ensures Run(codec, names, events).inbox == MessagesOf(codec, AllHandedOver(codec, names, events))
  {
    if events != [] {
      var before, e := events[..|events| - 1], events[|events| - 1];
      InboxIsHandedOver(codec, names, before);
      var earlier := AllHandedOver(codec, names, before);
      if e.PollHost? {
        HandOverIsReceived(codec, names, Run(codec, names, before), e);
        hide EffectOf, HandedOver, BundleMsgs;
        var v := VisitOf(codec, names, Run(codec, names, before), e);
        assert earlier + [] == earlier && MessagesOf(codec, earlier) + [] == MessagesOf(codec, earlier);
        if HandedOver(v) != [] {
          assert HandedOver(v) == [HandedOver(v)[0]];
          assert (earlier + HandedOver(v))[..|earlier|] == earlier;
        }
      }
    }
  }

  function AllHandedOver(codec: Codec, names: seq<utf8>, events: seq<Event>): seq<Bundle> {
    if events == [] then []
    else
      var before, e := events[..|events| - 1], events[|events| - 1];
      AllHandedOver(codec, names, before)
      + if e.PollHost? then HandedOver(VisitOf(codec, names, Run(codec, names, before), e)) else []
  }

  function MessagesOf(codec: Codec, bundles: seq<Bundle>): seq<Msg> {
    if bundles == [] then []
    else MessagesOf(codec, bundles[..|bundles| - 1]) + BundleMsgs(codec, bundles[|bundles| - 1].data)
  }

  lemma HandOverIsReceived(codec: Codec, names: seq<utf8>, s: System, e: Event)
    requires e.PollHost?
    ensures var handed := HandedOver(VisitOf(codec, names, s, e));
            && |handed| <= 1
            && EffectOf(codec, names, s, e).received == if handed == [] then [] else BundleMsgs(codec, handed[0].data)
  {
    hide Pick, Candidates, BundleData, BundleMsgs;
  }

  /** With the empty channel list that the poller passes, no run gets any message accepted or any cursor moved. */
  lemma {:induction false} EmptyListSendsNothing(codec: Codec, events: seq<Event>)
    ensures var s := Run(codec, [], events);
            s.dropped == [] && forall host :: host in s.peers ==> s.peers[host].tx == 0 && s.peers[host].lastLocal == 0
  {
    if events != [] {
      EmptyListSendsNothing(codec, events[..|events| - 1]);
      hide Exchange;
      var s, e := Run(codec, [], events[..|events| - 1]), events[|events| - 1];
      if e.PollHost? {
        NothingToSend(codec, s, e);
        hide Poll;
      }
    }
  }

  lemma NothingToSend(codec: Codec, s: System, e: Event)
    requires e.PollHost?
    ensures var effect := EffectOf(codec, [], s, e);
            var was := Known(s.peers, e.host);
            effect.accepted == None && effect.peer.tx == was.tx && effect.peer.lastLocal == was.lastLocal
  {
    assert Candidates(s.outbox, []) == [];
  }
}
