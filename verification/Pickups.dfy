/** What a budgeted pickup takes from the outbox, and that flushing old messages does not show in recent pickups. */
module Pickups {
  import opened Bytes
  import opened Nodes

  /** A message that a pickup may take: recent enough and readable. */
  predicate Eligible(codec: Codec, entry: OutboxMsg, lastTime: int) {
    entry.timestamp >= lastTime && codec.decode(entry.msg).Some?
  }

  function SizeOf(queue: seq<OutboxMsg>, positions: seq<nat>): nat
    requires forall i :: 0 <= i < |positions| ==> positions[i] < |queue|
  {
    if positions == [] then 0
    else SizeOf(queue, positions[..|positions| - 1]) + |queue[positions[|positions| - 1]].msg|
  }

  /** The positions name different entries of the queue in their order. */
  predicate Subsequence(positions: seq<nat>, n: nat) {
    && (forall i :: 0 <= i < |positions| ==> positions[i] < n)
    && (forall i, j :: 0 <= i < j < |positions| ==> positions[i] < positions[j])
  }

  lemma {:induction false} SizeOfPrefix(queue: seq<OutboxMsg>, longer: seq<OutboxMsg>, positions: seq<nat>)
    requires queue <= longer && forall i :: 0 <= i < |positions| ==> positions[i] < |queue|
    ensures SizeOf(queue, positions) == SizeOf(longer, positions)
  {
    if positions != [] {
      SizeOfPrefix(queue, longer, positions[..|positions| - 1]);
    }
  }

  /**
   * A pickup is an order-preserving subsequence of the queued messages, each eligible and decoded, of total stored
   * size within the budget; and no eligible message left out would fit beside the ones taken.
   */
  lemma PickIsMaximalWithinBudget(codec: Codec, queue: seq<OutboxMsg>, lastTime: int, maxBytes: int)
    ensures var p := Pick(codec, queue, lastTime, maxBytes);
            && Subsequence(p.positions, |queue|)
            && (forall i :: 0 <= i < |p.positions| ==>
                  Eligible(codec, queue[p.positions[i]], lastTime)
                  && codec.decode(queue[p.positions[i]].msg) == Some(p.msgs[i]))
            && p.size == SizeOf(queue, p.positions)
            && (p.size <= maxBytes || p.positions == [])
            && (forall j: nat :: j < |queue| && j !in p.positions && Eligible(codec, queue[j], lastTime) ==>
                  p.size + |queue[j].msg| > maxBytes)
  {
    PickTakesEligible(codec, queue, lastTime, maxBytes);
    PickHasItsSize(codec, queue, lastTime, maxBytes);
    PickLeavesNoRoom(codec, queue, lastTime, maxBytes);
  }

  lemma {:induction false} PickTakesEligible(codec: Codec, queue: seq<OutboxMsg>, lastTime: int, maxBytes: int)
    ensures var p := Pick(codec, queue, lastTime, maxBytes);
            && Subsequence(p.positions, |queue|)
            && (forall i :: 0 <= i < |p.positions| ==>
                  Eligible(codec, queue[p.positions[i]], lastTime)
                  && codec.decode(queue[p.positions[i]].msg) == Some(p.msgs[i]))
  {
    if queue != [] {
      PickTakesEligible(codec, queue[..|queue| - 1], lastTime, maxBytes);
    }
  }

  lemma {:induction false} PickHasItsSize(codec: Codec, queue: seq<OutboxMsg>, lastTime: int, maxBytes: int)
    requires Subsequence(Pick(codec, queue, lastTime, maxBytes).positions, |queue|)
    ensures var p := Pick(codec, queue, lastTime, maxBytes);
            p.size == SizeOf(queue, p.positions) && (p.size <= maxBytes || p.positions == [])
  {
    if queue != [] {
      var n := |queue| - 1;
      var earlier := Pick(codec, queue[..n], lastTime, maxBytes);
      PickOneMore(codec, queue[..n], queue[n], lastTime, maxBytes);
      hide Pick, SizeOf;
      assert queue[..n] + [queue[n]] == queue;
      PickTakesEligible(codec, queue[..n], lastTime, maxBytes);
      PickHasItsSize(codec, queue[..n], lastTime, maxBytes);
      SizeOfPrefix(queue[..n], queue, earlier.positions);
      SizeOfOneMore(queue, earlier.positions, n);
    }
  }

  lemma SizeOfOneMore(queue: seq<OutboxMsg>, positions: seq<nat>, n: nat)
    requires n < |queue| && forall i :: 0 <= i < |positions| ==> positions[i] < |queue|
    ensures SizeOf(queue, positions + [n]) == SizeOf(queue, positions) + |queue[n].msg|
  {
    assert (positions + [n])[..|positions|] == positions;
  }

  lemma {:induction false} PickLeavesNoRoom(codec: Codec, queue: seq<OutboxMsg>, lastTime: int, maxBytes: int)
    ensures var p := Pick(codec, queue, lastTime, maxBytes);
            forall j: nat :: j < |queue| && j !in p.positions && Eligible(codec, queue[j], lastTime) ==>
              p.size + |queue[j].msg| > maxBytes
  {
    if queue != [] {
      var n := |queue| - 1;
      var earlier := Pick(codec, queue[..n], lastTime, maxBytes);
      var p := Pick(codec, queue, lastTime, maxBytes);
      PickLeavesNoRoom(codec, queue[..n], lastTime, maxBytes);
      if p != earlier {
        assert p.positions[|earlier.positions|] == n;
      }
      forall j: nat | j < |queue| && j !in p.positions && Eligible(codec, queue[j], lastTime)
        ensures p.size + |queue[j].msg| > maxBytes
      {
        if j < n {
          assert j !in earlier.positions && queue[..n][j] == queue[j];
        }
      }
    }
  }

  // ---- When everything fits ----

  function EligibleSize(codec: Codec, queue: seq<OutboxMsg>, lastTime: int): nat {
    if queue == [] then 0
    else
      var last := queue[|queue| - 1];
      EligibleSize(codec, queue[..|queue| - 1], lastTime) + if Eligible(codec, last, lastTime) then |last.msg| else 0
  }

  /** A pickup whose budget holds all eligible messages takes all of them. */
  lemma {:induction false} EverythingFits(codec: Codec, queue: seq<OutboxMsg>, lastTime: int, maxBytes: int)
    requires EligibleSize(codec, queue, lastTime) <= maxBytes
    ensures var p := Pick(codec, queue, lastTime, maxBytes);
            && p.size == EligibleSize(codec, queue, lastTime)
            && forall entry :: entry in queue && Eligible(codec, entry, lastTime) ==>
                 codec.decode(entry.msg).value in p.msgs
  {
    if queue != [] {
      EverythingFits(codec, queue[..|queue| - 1], lastTime, maxBytes);
      var last := queue[|queue| - 1];
      assert queue == queue[..|queue| - 1] + [last];
      if Eligible(codec, last, lastTime) {
        var p := Pick(codec, queue, lastTime, maxBytes);
        assert p.msgs[|p.msgs| - 1] == codec.decode(last.msg).value;
      }
    }
  }

  /** Every eligible message is at one of these positions. */
  predicate AllTaken(codec: Codec, queue: seq<OutboxMsg>, lastTime: int, positions: seq<nat>) {
    forall j: nat :: j < |queue| && Eligible(codec, queue[j], lastTime) ==> j in positions
  }

  /** A pickup takes all eligible messages exactly when its budget has room for them together. */
  lemma RoomDecides(codec: Codec, queue: seq<OutboxMsg>, lastTime: int, maxBytes: int)
    requires maxBytes >= 0
    ensures AllTaken(codec, queue, lastTime, Pick(codec, queue, lastTime, maxBytes).positions)
       <==> EligibleSize(codec, queue, lastTime) <= maxBytes
  {
    if EligibleSize(codec, queue, lastTime) <= maxBytes {
      FittingAreTaken(codec, queue, lastTime, maxBytes);
    } else {
      TooMuchLeavesOneOut(codec, queue, lastTime, maxBytes);
    }
  }

  lemma {:induction false} FittingAreTaken(codec: Codec, queue: seq<OutboxMsg>, lastTime: int, maxBytes: int)
    requires EligibleSize(codec, queue, lastTime) <= maxBytes
    ensures AllTaken(codec, queue, lastTime, Pick(codec, queue, lastTime, maxBytes).positions)
    ensures Pick(codec, queue, lastTime, maxBytes).size == EligibleSize(codec, queue, lastTime)
  {
    assert Pick(codec, [], lastTime, maxBytes).size == 0;
    hide Pick;
    if queue != [] {
      var n := |queue| - 1;
      FittingAreTaken(codec, queue[..n], lastTime, maxBytes);
      PickOneMore(codec, queue[..n], queue[n], lastTime, maxBytes);
      assert queue[..n] + [queue[n]] == queue;
      var earlier := Pick(codec, queue[..n], lastTime, maxBytes).positions;
      hide EligibleSize;
      OneMoreTaken(codec, queue, lastTime, earlier);
    } else {
      assert AllTaken(codec, [], lastTime, Pick(codec, [], lastTime, maxBytes).positions);
    }
  }

  lemma OneMoreTaken(codec: Codec, queue: seq<OutboxMsg>, lastTime: int, earlier: seq<nat>)
    requires queue != [] && AllTaken(codec, queue[..|queue| - 1], lastTime, earlier)
    ensures AllTaken(codec, queue, lastTime, earlier + [|queue| - 1])
    ensures !Eligible(codec, queue[|queue| - 1], lastTime) ==> AllTaken(codec, queue, lastTime, earlier)
  {
    var n := |queue| - 1;
    assert (earlier + [n])[|earlier|] == n;
    forall j: nat | j < n && Eligible(codec, queue[j], lastTime)
      ensures j in earlier
    {
      assert queue[..n][j] == queue[j];
    }
  }

  /** A pick that is smaller than what is eligible has left something out. */
  lemma {:induction false} TooMuchLeavesOneOut(codec: Codec, queue: seq<OutboxMsg>, lastTime: int, maxBytes: int)
    requires EligibleSize(codec, queue, lastTime) > maxBytes >= 0
    ensures !AllTaken(codec, queue, lastTime, Pick(codec, queue, lastTime, maxBytes).positions)
  {
    var n := |queue| - 1;
    PickOneMore(codec, queue[..n], queue[n], lastTime, maxBytes);
    assert queue[..n] + [queue[n]] == queue;
    PickTakesEligible(codec, queue[..n], lastTime, maxBytes);
    var earlier := Pick(codec, queue[..n], lastTime, maxBytes).positions;
    if EligibleSize(codec, queue[..n], lastTime) > maxBytes {
      TooMuchLeavesOneOut(codec, queue[..n], lastTime, maxBytes);
      hide Pick;
      var j: nat :| j < n && Eligible(codec, queue[..n][j], lastTime) && j !in earlier;
      assert Eligible(codec, queue[j], lastTime) && j !in Pick(codec, queue, lastTime, maxBytes).positions;
    } else {
      FittingAreTaken(codec, queue[..n], lastTime, maxBytes);
      hide Pick;
      assert Eligible(codec, queue[n], lastTime) && n !in Pick(codec, queue, lastTime, maxBytes).positions;
    }
  }

  // ---- Flushing ----

  lemma {:induction false} FreshOfConcat(a: seq<OutboxMsg>, b: seq<OutboxMsg>, now: int, maxAge: int)
    ensures Fresh(a + b, now, maxAge) == Fresh(a, now, maxAge) + Fresh(b, now, maxAge)
  {
    if b == [] {
      assert a + b == a;
    } else {
      assert (a + b)[..|a + b| - 1] == a + b[..|b| - 1];
      FreshOfConcat(a, b[..|b| - 1], now, maxAge);
    }
  }

  lemma {:induction false} FlushedCandidates(outbox: Outbox, names: seq<utf8>, now: int, maxAge: int)
    ensures Candidates(Flushed(outbox, now, maxAge), names) == Fresh(Candidates(outbox, names), now, maxAge)
  {
    if names != [] {
      FlushedCandidates(outbox, names[..|names| - 1], now, maxAge);
      var last := names[|names| - 1];
      FreshOfConcat(Candidates(outbox, names[..|names| - 1]), Queue(outbox, last), now, maxAge);
    }
  }

  lemma {:induction false} PickIgnoresStale(
      codec: Codec, queue: seq<OutboxMsg>, lastTime: int, maxBytes: int, now: int, maxAge: int)
    requires lastTime > now - maxAge
    ensures var flushed := Pick(codec, Fresh(queue, now, maxAge), lastTime, maxBytes);
            var whole := Pick(codec, queue, lastTime, maxBytes);
            flushed.msgs == whole.msgs && flushed.size == whole.size
  {
    if queue != [] {
      var n := |queue| - 1;
      PickIgnoresStale(codec, queue[..n], lastTime, maxBytes, now, maxAge);
      var kept := Fresh(queue[..n], now, maxAge);
      if now - queue[n].timestamp < maxAge {
        assert (kept + [queue[n]])[..|kept|] == kept;
      } else {
        assert kept + [] == kept;
      }
    }
  }

  /** The bundle messages of a pickup from a node with this outbox. */
  function PickedMsgs(codec: Codec, outbox: Outbox, names: seq<utf8>, lastTime: int, maxBytes: int): seq<Msg> {
    Pick(codec, Candidates(outbox, names), lastTime, maxBytes).msgs
  }

  /** A flush does not show in a pickup that asks only for messages younger than the flush age, whatever its budget. */
  lemma FlushKeepsRecentPickups(
      codec: Codec, outbox: Outbox, names: seq<utf8>, lastTime: int, maxBytes: int, now: int, maxAge: int)
    requires lastTime > now - maxAge
    ensures PickedMsgs(codec, Flushed(outbox, now, maxAge), names, lastTime, maxBytes)
         == PickedMsgs(codec, outbox, names, lastTime, maxBytes)
  {
    FlushedCandidates(outbox, names, now, maxAge);
    PickIgnoresStale(codec, Candidates(outbox, names), lastTime, maxBytes, now, maxAge);
  }

  ghost predicate FlushInvisible(codec: Codec, lastTime: int, maxBytes: int, now: int, maxAge: int) {
    forall outbox, names :: PickedMsgs(codec, Flushed(outbox, now, maxAge), names, lastTime, maxBytes)
                         == PickedMsgs(codec, outbox, names, lastTime, maxBytes)
  }

  /**
   * Flushing at `now` changes no pickup, whatever is in the outbox, exactly when the pickup asks only for messages
   * younger than the flush age; the budget must have room for one readable message m.
   */
  lemma FlushIsInvisibleToRecentPickups(codec: Codec, m: bytes, lastTime: int, maxBytes: int, now: int, maxAge: int)
    requires codec.decode(m).Some? && |m| <= maxBytes
    ensures FlushInvisible(codec, lastTime, maxBytes, now, maxAge) <==> lastTime > now - maxAge
  {
    if lastTime > now - maxAge {
      forall outbox: Outbox, names: seq<utf8>
        ensures PickedMsgs(codec, Flushed(outbox, now, maxAge), names, lastTime, maxBytes)
             == PickedMsgs(codec, outbox, names, lastTime, maxBytes)
      {
        FlushKeepsRecentPickups(codec, outbox, names, lastTime, maxBytes, now, maxAge);
      }
    } else {
      FlushHides(codec, m, lastTime, maxBytes, now, maxAge);
    }
  }

  /** A message as old as the pickup still asks for, but old enough to be flushed, disappears. */
  lemma FlushHides(codec: Codec, m: bytes, lastTime: int, maxBytes: int, now: int, maxAge: int)
    requires codec.decode(m).Some? && |m| <= maxBytes && lastTime <= now - maxAge
    ensures !FlushInvisible(codec, lastTime, maxBytes, now, maxAge)
  {
    var entry := OutboxMsg(None, m, lastTime);
    var key: utf8 := [];
    var outbox: Outbox := map[key := [entry]];
    var names := [key];
    assert names[..0] == [];
    assert Candidates(outbox, names) == [entry];
    FlushedCandidates(outbox, names, now, maxAge);
    assert [entry][..0] == [];
    assert Fresh([entry], now, maxAge) == [];
    assert Pick(codec, [entry][..0], lastTime, maxBytes) == Picked([], [], 0);
    assert PickedMsgs(codec, outbox, names, lastTime, maxBytes) == [codec.decode(m).value];
    assert PickedMsgs(codec, Flushed(outbox, now, maxAge), names, lastTime, maxBytes) == [];
  }
}
