/** What the outbox operations do, entry by entry: queueing, flushing, picking up, and reading a bundle. */
module Outboxes {
  import opened Bytes
  import opened Nodes
  import opened Pickups

  // ---- Sending ----

  /**
   * A message is appended to the queue of its channel, or of the empty name when it is not a channel message, with its
   * text and the time; no other queue changes.
   */
  lemma SendAppendsOne(codec: Codec, outbox: Outbox, m: Msg, now: int, key: utf8)
    ensures var own: utf8 := if m.isChan then m.name else [];
            var entry := OutboxMsg(if m.isChan then Some(m.name) else None, codec.encode(m), now);
            Queue(Sent(codec, outbox, m, now), key)
            == if key == own then Queue(outbox, key) + [entry] else Queue(outbox, key)
    ensures Sent(codec, outbox, m, now).Keys == outbox.Keys + {if m.isChan then m.name else []}
  {
    hide ValidUtf8;
  }

  // ---- Flushing ----

  /** All positions of entries younger than the age, in increasing order. */
  ghost predicate YoungPositions(queue: seq<OutboxMsg>, now: int, maxAge: int, positions: seq<nat>) {
    && (forall i, j :: 0 <= i < j < |positions| ==> positions[i] < positions[j])
    && (forall i: nat :: i in positions <==> i < |queue| && now - queue[i].timestamp < maxAge)
  }

  /** The entries at these positions. */
  function At(queue: seq<OutboxMsg>, positions: seq<nat>): seq<OutboxMsg>
    requires forall i :: 0 <= i < |positions| ==> positions[i] < |queue|
  {
    seq(|positions|, i requires 0 <= i < |positions| => queue[positions[i]])
  }

  /** A flush keeps the queues, and of each exactly the entries younger than the age, whatever else is in them. */
  lemma FlushKeepsExactlyTheYoung(outbox: Outbox, now: int, maxAge: int, key: utf8) returns (positions: seq<nat>)
    ensures Flushed(outbox, now, maxAge).Keys == outbox.Keys
    ensures YoungPositions(Queue(outbox, key), now, maxAge, positions)
    ensures forall i :: 0 <= i < |positions| ==> positions[i] < |Queue(outbox, key)|
    ensures Queue(Flushed(outbox, now, maxAge), key) == At(Queue(outbox, key), positions)
  {
    positions := FreshPositions(Queue(outbox, key), now, maxAge);
    assert forall i :: 0 <= i < |positions| ==> positions[i] in positions;
  }

  lemma {:induction false} FreshPositions(queue: seq<OutboxMsg>, now: int, maxAge: int) returns (positions: seq<nat>)
    ensures YoungPositions(queue, now, maxAge, positions)
    ensures forall i :: 0 <= i < |positions| ==> positions[i] < |queue|
    ensures Fresh(queue, now, maxAge) == At(queue, positions)
  {
    hide ValidUtf8, YoungPositions, Fresh, At;
    if queue == [] {
      positions := [];
      NothingYoung(now, maxAge);
    } else {
      var n := |queue| - 1;
      var earlier := FreshPositions(queue[..n], now, maxAge);
      OneMoreYoung(queue, now, maxAge, earlier);
      positions := if now - queue[n].timestamp < maxAge then earlier + [n] else earlier;
      AtOneMore(queue, earlier);
      FreshOneMore(queue, now, maxAge);
    }
  }

  lemma NothingYoung(now: int, maxAge: int)
    ensures YoungPositions([], now, maxAge, []) && Fresh([], now, maxAge) == At([], []) == []
  {
  }

  lemma AtOneMore(queue: seq<OutboxMsg>, earlier: seq<nat>)
    requires queue != [] && forall i :: 0 <= i < |earlier| ==> earlier[i] < |queue| - 1
    ensures At(queue, earlier) == At(queue[..|queue| - 1], earlier)
    ensures At(queue, earlier + [|queue| - 1]) == At(queue, earlier) + [queue[|queue| - 1]]
  {
    hide ValidUtf8;
  }

  lemma FreshOneMore(queue: seq<OutboxMsg>, now: int, maxAge: int)
    requires queue != []
    ensures var n := |queue| - 1;
            Fresh(queue, now, maxAge)
            == if now - queue[n].timestamp < maxAge then Fresh(queue[..n], now, maxAge) + [queue[n]]
               else Fresh(queue[..n], now, maxAge)
  {
  }

  lemma OneMoreYoung(queue: seq<OutboxMsg>, now: int, maxAge: int, earlier: seq<nat>)
    requires queue != [] && YoungPositions(queue[..|queue| - 1], now, maxAge, earlier)
    requires forall i :: 0 <= i < |earlier| ==> earlier[i] < |queue| - 1
    ensures var n := |queue| - 1;
            YoungPositions(queue, now, maxAge, if now - queue[n].timestamp < maxAge then earlier + [n] else earlier)
  {
    var n := |queue| - 1;
    assert (earlier + [n])[|earlier|] == n;
    forall i: nat
      ensures i in earlier + [n] <==> i in earlier || i == n
    {
    }
    forall i: nat | i < n
      ensures queue[..n][i] == queue[i]
    {
    }
  }

  // ---- Picking up ----

  /** The names of a pickup are served in their order, each with its queue from the front. */
  lemma {:induction false} CandidatesInOrder(outbox: Outbox, names: seq<utf8>, more: seq<utf8>)
    ensures Candidates(outbox, names + more) == Candidates(outbox, names) + Candidates(outbox, more)
    ensures |names| == 1 ==> Candidates(outbox, names) == if names[0] in outbox then outbox[names[0]] else []
  {
    hide ValidUtf8;
    if |names| == 1 {
      assert names[..0] == [] && Candidates(outbox, []) == [];
      assert Candidates(outbox, names) == [] + Queue(outbox, names[0]);
    }
    if more == [] {
      assert names + more == names && Candidates(outbox, names) + [] == Candidates(outbox, names);
    } else {
      CandidatesInOrder(outbox, names, more[..|more| - 1]);
      assert (names + more)[..|names + more| - 1] == names + more[..|more| - 1];
    }
  }

  /**
   * A pickup is greedy from the front: it takes a message exactly when that is recent enough and readable and fits
   * beside the messages taken before it, which are those that a pickup from the entries before it takes.
   */
  lemma {:induction false} PickIsGreedy(codec: Codec, queue: seq<OutboxMsg>, lastTime: int, maxBytes: int, j: nat)
    requires j < |queue|
    ensures var p, before := Pick(codec, queue, lastTime, maxBytes), Pick(codec, queue[..j], lastTime, maxBytes);
            && (j in p.positions <==> Eligible(codec, queue[j], lastTime) && before.size + |queue[j].msg| <= maxBytes)
            && before.positions <= p.positions
            && (forall i :: 0 <= i < |p.positions| ==> (p.positions[i] < j <==> i < |before.positions|))
  {
    var n := |queue| - 1;
    PickTakesEligible(codec, queue[..n], lastTime, maxBytes);
    PickOneMore(codec, queue[..n], queue[n], lastTime, maxBytes);
    assert queue[..n] + [queue[n]] == queue;
    hide Pick;
    var earlier := Pick(codec, queue[..n], lastTime, maxBytes).positions;
    var p := Pick(codec, queue, lastTime, maxBytes).positions;
    if j < n {
      PickIsGreedy(codec, queue[..n], lastTime, maxBytes, j);
      assert queue[..n][..j] == queue[..j] && queue[..n][j] == queue[j];
    }
    if p != earlier {
      assert p == earlier + [n] && p[|earlier|] == n;
    }
  }

  // ---- Bundles ----

  /** Bundle data is read as a list of messages, else as a single message, else as nothing; empty data as nothing. */
  lemma BundleIsRead(codec: Codec, data: bytes)
    ensures data == [] ==> BundleMsgs(codec, data) == []
    ensures data != [] && codec.decodeAll(data).Some? ==> BundleMsgs(codec, data) == codec.decodeAll(data).value
    ensures data != [] && codec.decodeAll(data).None? && codec.decode(data).Some? ==>
              BundleMsgs(codec, data) == [codec.decode(data).value]
    ensures data != [] && codec.decodeAll(data).None? && codec.decode(data).None? ==> BundleMsgs(codec, data) == []
  {
  }
}
