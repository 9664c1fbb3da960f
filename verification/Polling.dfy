/** The peer table: polling a server, its cursors and byte counters, and what they guarantee over whole runs. */
module Polling {
  import opened Bytes
  import opened Nodes
  import opened Pickups

  /** A peer's cursors, byte counters and cached routing key. */
  datatype Peer = Peer(lastLocal: int, lastRemote: int, tx: int, rx: int, key: Option<PubKey>)

  type Peers = map<utf8, Peer>

  const NEW_PEER: Peer := Peer(0, 0, 0, 0, None)

  /** How the remote calls of one poll turn out; a reply that cannot be read is None. */
  datatype Replies = Replies(id: Result<Option<PubKey>>, pickup: Result<Option<Bundle>>, dropoff: Result<()>)

  datatype Outcome = Polled | Failed(error: Error) | Panicked

  /** What a poll does: the peer's entry, messages for the local application, and the bundle the remote side took. */
  datatype Effect = Effect(peer: Peer, received: seq<Msg>, accepted: Option<Bundle>, outcome: Outcome)

  // ---- Specification ----

  function Known(peers: Peers, host: utf8): Peer {
    if host in peers then peers[host] else NEW_PEER
  }

  function LocalBundle(codec: Codec, outbox: Outbox, names: seq<utf8>, peer: Peer, limit: int, now: int): Bundle {
    Bundle(BundleData(codec, PickedMsgs(codec, outbox, names, peer.lastLocal, limit)), now)
  }

  /**
   * One poll of a host whose entry was fetched at the start. A key that is not cached is asked for and stored in a new
   * entry; what follows reads the key from the entry fetched at the start, and panics when that has none.
   */
  function Poll(codec: Codec, outbox: Outbox, fetched: Peer, names: seq<utf8>, limit: int, now: int, replies: Replies)
      : Effect {
    if fetched.key.None? && replies.id.Err? then Effect(fetched, [], None, Failed(replies.id.error))
    else if fetched.key.None? && replies.id.value.None? then Effect(fetched, [], None, Failed(BadRoutingKey))
    else
      var stored := if fetched.key.None? then fetched.(key := replies.id.value) else fetched;
      match fetched.key
      case None => Effect(stored, [], None, Panicked)
      case Some(_) => Exchange(codec, fetched, LocalBundle(codec, outbox, names, fetched, limit, now), replies)
  }

  /** The exchange with a peer whose key is cached: remote pickup, remote dropoff, local dropoff. */
  function Exchange(codec: Codec, peer: Peer, toRemote: Bundle, replies: Replies): Effect {
    match replies.pickup
    case Err(e) => Effect(peer, [], None, Failed(e))
    case Ok(toLocal) =>
      var counted := if toLocal.Some? then peer.(rx := peer.rx + |toLocal.value.data|) else peer;
      if toRemote.data != [] && replies.dropoff.Err? then Effect(counted, [], None, Failed(replies.dropoff.error))
      else
        var sent := if toRemote.data != [] then AfterDropoff(counted, toRemote) else counted;
        var accepted := if toRemote.data != [] then Some(toRemote) else None;
        if toLocal.Some? && toLocal.value.data != [] then
          Effect(sent.(lastRemote := if sent.rx > 0 then toLocal.value.time else sent.lastRemote),
                 BundleMsgs(codec, toLocal.value.data), accepted, Polled)
        else Effect(sent, [], accepted, Polled)
  }

  /** The cursor moves on an accepted dropoff, but not on the first one. */
  function AfterDropoff(peer: Peer, bundle: Bundle): Peer {
    peer.(lastLocal := if peer.tx > 0 then bundle.time else peer.lastLocal, tx := peer.tx + |bundle.data|)
  }

  /**
   * How a poll ends: with the first error of the calls it makes, with a panic, or polled; a failure leaves nothing
   * accepted and hands nothing over.
   */
  lemma PollOutcomes(
      codec: Codec, outbox: Outbox, peer: Peer, names: seq<utf8>, limit: int, now: int, replies: Replies)
    ensures var effect := Poll(codec, outbox, peer, names, limit, now, replies);
            var bundle := LocalBundle(codec, outbox, names, peer, limit, now);
            && effect.outcome == (if peer.key.None? then
                                    if replies.id.Err? then Failed(replies.id.error)
                                    else if replies.id.value.None? then Failed(BadRoutingKey)
                                    else Panicked
                                  else if replies.pickup.Err? then Failed(replies.pickup.error)
                                  else if bundle.data != [] && replies.dropoff.Err? then Failed(replies.dropoff.error)
                                  else Polled)
            && (effect.outcome != Polled ==> effect.accepted == None && effect.received == [])
            && (effect.outcome == Polled ==>
                  && effect.accepted == (if bundle.data == [] then None else Some(bundle))
                  && effect.received == (if replies.pickup.value.None? || replies.pickup.value.value.data == [] then []
                                         else BundleMsgs(codec, replies.pickup.value.value.data)))
  {
    hide BundleData, BundleMsgs, PickedMsgs;
  }

  // ---- The table ----

  lemma Overwritten(peers: Peers, host: utf8, a: Peer, b: Peer)
    ensures peers[host := a][host := b] == peers[host := b]
  {
  }

  /** An entry of the table; its cursors and counters are updated in place. */
  class PeerInfo {
    var lastPollLocal: int
    var lastPollRemote: int
    var totalBytesTx: int
    var totalBytesRx: int
    const routingPub: Option<PubKey>

    function View(): Peer
      reads this
    {
      Peer(lastPollLocal, lastPollRemote, totalBytesTx, totalBytesRx, routingPub)
    }

    constructor (lastLocal: int, lastRemote: int, tx: int, rx: int, key: Option<PubKey>)
      ensures View() == Peer(lastLocal, lastRemote, tx, rx, key)
    {
      lastPollLocal, lastPollRemote, totalBytesTx, totalBytesRx := lastLocal, lastRemote, tx, rx;
      routingPub := key;
    }

    /** The remote and local halves of a poll, given what was picked up locally. */
    method ExchangeWith(node: MemoryNode, toRemote: Bundle, replies: Replies)
        returns (accepted: Option<Bundle>, outcome: Outcome)
      modifies this, node`inbox
      ensures var effect := Exchange(node.codec, old(View()), toRemote, replies);
              && View() == effect.peer && accepted == effect.accepted && outcome == effect.outcome
              && node.inbox == old(node.inbox) + effect.received
    {
      accepted := None;
      if replies.pickup.Err? {
        return None, Failed(replies.pickup.error);
      }
      var toLocal := replies.pickup.value;
      if toLocal.Some? {
        totalBytesRx := totalBytesRx + |toLocal.value.data|;
      }
      if toRemote.data != [] {
        if replies.dropoff.Err? {
          return None, Failed(replies.dropoff.error);
        }
        if totalBytesTx > 0 {
          lastPollLocal := toRemote.time;
        }
        totalBytesTx := totalBytesTx + |toRemote.data|;
        accepted := Some(toRemote);
      }
      if toLocal.Some? && toLocal.value.data != [] {
        node.Dropoff(toLocal.value);
        if totalBytesRx > 0 {
          lastPollRemote := toLocal.value.time;
        }
      }
      outcome := Polled;
    }
  }

  class PeerTable {
    var table: map<utf8, PeerInfo>

    /** No two hosts share an entry. */
    ghost predicate Valid()
      reads this
    {
      forall a, b :: a in table && b in table && a != b ==> table[a] != table[b]
    }

    function View(): Peers
      reads this, table.Values
    {
      map host | host in table :: table[host].View()
    }

    constructor ()
      ensures Valid() && View() == map[]
    {
      table := map[];
    }

    /** Makes an entry for the host when there is none, and returns the host's entry. */
    method Entry(host: utf8) returns (peer: PeerInfo)
      requires Valid()
      modifies this
      ensures Valid() && host in table && table[host] == peer
      ensures forall h :: h in old(table) ==> h in table && table[h] == old(table[h])
      ensures table.Keys == old(table).Keys + {host}
      ensures host !in old(table) ==> fresh(peer)
      ensures View() == old(View())[host := Known(old(View()), host)]
    {
      if host !in table {
        var created := new PeerInfo(0, 0, 0, 0, None);
        table := table[host := created];
      }
      peer := table[host];
    }

    method PollServer(node: MemoryNode, host: utf8, names: seq<utf8>, limit: int, now: int, replies: Replies)
        returns (accepted: Option<Bundle>, outcome: Outcome)
      requires Valid()
      modifies this, table.Values, node`inbox
      ensures Valid()
      ensures var effect := Poll(node.codec, node.outbox, Known(old(View()), host), names, limit, now, replies);
              && View() == old(View())[host := effect.peer]
              && accepted == effect.accepted && outcome == effect.outcome
              && node.inbox == old(node.inbox) + effect.received
    {
      hide Exchange, PickedMsgs, BundleData, BundleMsgs;
      var peer := Entry(host);
      ghost var before := View();
      assert before[host] == peer.View() == Known(old(View()), host);
      if peer.routingPub.None? {
        if replies.id.Err? {
          return None, Failed(replies.id.error);
        }
        if replies.id.value.None? {
          return None, Failed(BadRoutingKey);
        }
        Remember(host, peer, replies.id.value.value);
        Overwritten(old(View()), host, before[host], View()[host]);
      }
      // `peer.routing_pub.as_ref().unwrap()`, on the entry fetched at the start.
      if peer.routingPub.None? {
        return None, Panicked;
      }
      accepted, outcome := PollKnown(node, host, peer, names, limit, now, replies);
      Overwritten(old(View()), host, before[host], View()[host]);
    }

    /** Replaces the entry of a host by a copy that has the routing key. */
    method Remember(host: utf8, peer: PeerInfo, key: PubKey)
      requires Valid() && host in table && table[host] == peer
      modifies this
      ensures Valid() && View() == old(View())[host := old(peer.View()).(key := Some(key))]
    {
      var updated := new PeerInfo(
        peer.lastPollLocal, peer.lastPollRemote, peer.totalBytesTx, peer.totalBytesRx, Some(key));
      table := table[host := updated];
    }

    /** A poll of a host whose routing key is cached. */
    method PollKnown(node: MemoryNode, host: utf8, peer: PeerInfo, names: seq<utf8>, limit: int, now: int,
                     replies: Replies)
        returns (accepted: Option<Bundle>, outcome: Outcome)
      requires Valid() && host in table && table[host] == peer && peer.routingPub.Some?
      modifies peer, node`inbox
      ensures Valid()
      ensures var effect := Poll(node.codec, node.outbox, old(peer.View()), names, limit, now, replies);
              && View() == old(View())[host := effect.peer]
              && accepted == effect.accepted && outcome == effect.outcome
              && node.inbox == old(node.inbox) + effect.received
    {
      hide Exchange, BundleData, BundleMsgs, Pick, ValidUtf8;
      var toRemote := node.Pickup(peer.lastPollLocal, limit, names, now);
      accepted, outcome := peer.ExchangeWith(node, toRemote, replies);
      assert forall h :: h in table && h != host ==> table[h] != peer;
      assert forall h :: h in table && h != host ==> table[h].View() == old(table[h].View());
    }
  }
}
