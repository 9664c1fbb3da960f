/** The default router: reading frames, dispatching them, and copying channel messages along patches. */
module Routing {
  import opened Bytes
  import opened Nodes
  import opened StreamRuns
  import opened Chunking

  const STREAM_HEADER_FLAG: byte := 0x01
  const CHUNKED_FLAG: byte := 0x02
  const CHANNEL_FLAG: byte := 0x04

  /** `flags & flag != 0` for a flag that is a power of two. */
  predicate Has(flags: byte, flag: byte)
    requires flag > 0
  {
    (flags / flag) % 2 == 1
  }

  datatype Patch = Patch(from: utf8, to: seq<utf8>)

  // ---- Frames ----

  /** The channel name of a frame, if flagged, and the bytes after it. */
  function ExtractChannelName(data: bytes): Result<(Option<utf8>, bytes)> {
    if data == [] then Ok((None, data))
    else if !Has(data[0], CHANNEL_FLAG) then Ok((None, data[1..]))
    else if |data| < 3 then Err(BadChannelFrame)
    else
      var len := U16At(data, 1);
      if |data| < 3 + len then Err(BadChannelFrame)
      else if !ValidUtf8(data[3..3 + len]) then Err(InvalidUtf8)
      else Ok((Some(data[3..3 + len]), data[3 + len..]))
  }

  /** The message a frame stands for. */
  function FrameMsg(channel: Option<utf8>, content: bytes, chunked: bool, header: bool): Msg {
    Msg(if channel.Some? then channel.value else [], content, channel.Some?, NilKey, chunked, header)
  }

  // ---- Patches ----

  function Keeping(patches: seq<Patch>, from: utf8): seq<Patch> {
    if patches == [] then []
    else
      var last := patches[|patches| - 1];
      Keeping(patches[..|patches| - 1], from) + if last.from != from then [last] else []
  }

  /** The patch list after a patch call. */
  function Patched(patches: seq<Patch>, p: Patch): seq<Patch> {
    Keeping(patches, p.from) + [p]
  }

  function PatchedAll(calls: seq<Patch>): seq<Patch> {
    if calls == [] then [] else Patched(PatchedAll(calls[..|calls| - 1]), calls[|calls| - 1])
  }

  /** The table the calls describe: the last one for a source wins. */
  function LastWrites(calls: seq<Patch>): map<utf8, seq<utf8>> {
    if calls == [] then map[]
    else LastWrites(calls[..|calls| - 1])[calls[|calls| - 1].from := calls[|calls| - 1].to]
  }

  /** All targets that the patch list gives for a channel, in the order in which they are served. */
  function Targets(patches: seq<Patch>, channel: utf8): seq<utf8> {
    if patches == [] then []
    else
      var last := patches[|patches| - 1];
      Targets(patches[..|patches| - 1], channel) + if last.from == channel then last.to else []
  }

  predicate OnePatchPerSource(patches: seq<Patch>) {
    forall i, j :: 0 <= i < j < |patches| ==> patches[i].from != patches[j].from
  }

  lemma {:induction false} KeepingTargets(patches: seq<Patch>, from: utf8, channel: utf8)
    ensures Targets(Keeping(patches, from), channel) == if channel == from then [] else Targets(patches, channel)
  {
    hide ValidUtf8;
    if patches != [] {
      var n := |patches| - 1;
      KeepingTargets(patches[..n], from, channel);
      TargetsOfOneMore(Keeping(patches[..n], from), patches[n], channel);
      assert Keeping(patches[..n], from) + [] == Keeping(patches[..n], from);
    }
  }

  lemma TargetsOfOneMore(patches: seq<Patch>, p: Patch, channel: utf8)
    ensures Targets(patches + [p], channel) == Targets(patches, channel) + if p.from == channel then p.to else []
  {
    assert (patches + [p])[..|patches|] == patches;
  }

  lemma {:induction false} KeepingMembers(patches: seq<Patch>, from: utf8)
    ensures forall p :: p in Keeping(patches, from) ==> p in patches && p.from != from
  {
    hide ValidUtf8;
    if patches != [] {
      KeepingMembers(patches[..|patches| - 1], from);
    }
  }

  lemma {:induction false} KeepingIsUnique(patches: seq<Patch>, from: utf8)
    requires OnePatchPerSource(patches)
    ensures OnePatchPerSource(Keeping(patches, from))
  {
    hide ValidUtf8;
    if patches != [] {
      var n := |patches| - 1;
      KeepingIsUnique(patches[..n], from);
      KeepingMembers(patches[..n], from);
      assert forall p :: p in patches[..n] ==> p.from != patches[n].from;
    }
  }

  /** After any calls the list has at most one entry per source. */
  lemma {:induction false} OneEntryPerSource(calls: seq<Patch>)
    ensures OnePatchPerSource(PatchedAll(calls))
  {
    hide ValidUtf8;
    if calls != [] {
      var n := |calls| - 1;
      OneEntryPerSource(calls[..n]);
      KeepingIsUnique(PatchedAll(calls[..n]), calls[n].from);
      KeepingMembers(PatchedAll(calls[..n]), calls[n].from);
    }
  }

  /** After any calls the list serves for each channel exactly what the last call for it said. */
  lemma {:induction false} LastPatchWins(calls: seq<Patch>, channel: utf8)
    ensures Targets(PatchedAll(calls), channel)
         == if channel in LastWrites(calls) then LastWrites(calls)[channel] else []
  {
    hide ValidUtf8;
    if calls != [] {
      var n := |calls| - 1;
      LastPatchWins(calls[..n], channel);
      KeepingTargets(PatchedAll(calls[..n]), calls[n].from, channel);
      TargetsOfOneMore(Keeping(PatchedAll(calls[..n]), calls[n].from), calls[n], channel);
    }
  }

  // ---- Dispatch ----

  function Copy(target: utf8, content: bytes): Msg {
    Msg(target, content, true, NilKey, false, false)
  }

  function Copies(targets: seq<utf8>, content: bytes): (r: seq<Msg>)
    ensures |r| == |targets|
  {
    if targets == [] then [] else Copies(targets[..|targets| - 1], content) + [Copy(targets[|targets| - 1], content)]
  }

  /** The outcome of routing a frame and the node after it. */
  function Routed(codec: Codec, st: State, patches: seq<Patch>, frame: bytes, clock: Clock): (Result<()>, State) {
    if frame == [] then (Err(InvalidArgument), st)
    else if Has(frame[0], STREAM_HEADER_FLAG) then RoutedStream(st, ExtractChannelName(frame), true)
    else if Has(frame[0], CHUNKED_FLAG) then RoutedStream(st, ExtractChannelName(frame), false)
    else
      match ExtractChannelName(frame)
      case Err(e) => (Err(e), st)
      case Ok((channel, content)) =>
        var handed := st.(inbox := st.inbox + [FrameMsg(channel, content, false, false)]);
        if channel.None? then (Ok(()), handed)
        else
          var copies := Copies(Targets(patches, channel.value), content);
          (Ok(()), handed.(outbox := SentAll(codec, st.outbox, copies, clock)))
  }

  function RoutedStream(st: State, parsed: Result<(Option<utf8>, bytes)>, header: bool): (Result<()>, State) {
    match parsed
    case Err(e) => (Err(e), st)
    case Ok((channel, content)) =>
      var m := FrameMsg(channel, content, true, header);
      (if EventOf(m).Ok? then Ok(()) else Err(TooShort), Handled(st, m))
  }

  class DefaultRouter {
    var patches: seq<Patch>

    constructor ()
      ensures patches == []
    {
      patches := [];
    }

    method AddPatch(p: Patch)
      modifies this
      ensures patches == Patched(old(patches), p)
    {
      var retained: seq<Patch> := [];
      for i := 0 to |patches|
        invariant patches == old(patches)
        invariant retained == Keeping(patches[..i], p.from)
      {
        assert patches[..i + 1][..i] == patches[..i];
        if patches[i].from != p.from {
          retained := retained + [patches[i]];
        }
      }
      assert patches[..|patches|] == patches;
      patches := retained + [p];
    }

    method ApplyPatches(channel: utf8, node: MemoryNode, content: bytes, clock: Clock)
      modifies node`outbox
      ensures node.outbox
           == SentAll(node.codec, old(node.outbox), Copies(Targets(patches, channel), content), clock)
    {
      hide ValidUtf8, Sent, SentAll, Copy, Copies;
      assert Copies([], content) == [];
      NothingSent(node.codec, node.outbox, clock);
      var sent := 0;
      for i := 0 to |patches|
        invariant sent == |Targets(patches[..i], channel)|
        invariant node.outbox
               == SentAll(node.codec, old(node.outbox), Copies(Targets(patches[..i], channel), content), clock)
      {
        assert patches[..i + 1][..i] == patches[..i];
        ghost var before := Targets(patches[..i], channel);
        assert before + [] == before;
        if patches[i].from == channel {
          SendCopies(node, patches[i].to, content, clock, sent, old(node.outbox), before);
          sent := sent + |patches[i].to|;
        }
      }
      assert patches[..|patches|] == patches;
    }

    /** The loop over the targets of one patch. */
    method SendCopies(node: MemoryNode, to: seq<utf8>, content: bytes, clock: Clock, sent: nat,
                      ghost outbox: Outbox, ghost before: seq<utf8>)
      requires sent == |before|
      requires node.outbox == SentAll(node.codec, outbox, Copies(before, content), clock)
      modifies node`outbox
      ensures node.outbox == SentAll(node.codec, outbox, Copies(before + to, content), clock)
    {
      hide ValidUtf8, Sent, SentAll, Copy, Copies;
      assert before + to[..0] == before;
      for j := 0 to |to|
        invariant node.outbox == SentAll(node.codec, outbox, Copies(before + to[..j], content), clock)
      {
        node.SendMsg(Copy(to[j], content), clock(sent + j));
        assert before + to[..j + 1] == before + to[..j] + [to[j]];
        OneMoreCopy(node.codec, outbox, before + to[..j], to[j], content, clock);
      }
      assert to[..|to|] == to;
    }

    method Route(node: MemoryNode, frame: bytes, clock: Clock) returns (r: Result<()>)
      modifies node`streams, node`chunks, node`inbox, node`outbox
      ensures (r, node.View()) == Routed(node.codec, old(node.View()), patches, frame, clock)
    {
      if frame == [] {
        return Err(InvalidArgument);
      }
      var parsed := ExtractChannelName(frame);
      if parsed.Err? {
        return Err(parsed.error);
      }
      var (channel, content) := parsed.value;
      if Has(frame[0], STREAM_HEADER_FLAG) {
        r := HandleChunked(node, FrameMsg(channel, content, true, true));
        return;
      }
      if Has(frame[0], CHUNKED_FLAG) {
        r := HandleChunked(node, FrameMsg(channel, content, true, false));
        return;
      }
      node.Handle(FrameMsg(channel, content, false, false));
      if channel.Some? {
        ApplyPatches(channel.value, node, content, clock);
      }
      r := Ok(());
    }
  }

  lemma NothingSent(codec: Codec, outbox: Outbox, clock: Clock)
    ensures SentAll(codec, outbox, [], clock) == outbox
  {
  }

  lemma OneMoreCopy(codec: Codec, outbox: Outbox, sent: seq<utf8>, target: utf8, content: bytes, clock: Clock)
    ensures SentAll(codec, outbox, Copies(sent + [target], content), clock)
         == Sent(codec, SentAll(codec, outbox, Copies(sent, content), clock), Copy(target, content), clock(|sent|))
  {
    assert (sent + [target])[..|sent|] == sent;
    var copies := Copies(sent + [target], content);
    assert copies[..|sent|] == Copies(sent, content);
  }

  // ---- Main results ----

  /** The bytes of a frame, given its flags besides the channel flag, which is the third lowest bit. */
  function Frame(flags: byte, channel: Option<utf8>, content: bytes): (r: bytes)
    requires flags / 4 % 2 == 0 && (channel.Some? ==> |channel.value| < U16)
    ensures r != []
  {
    if channel.None? then [flags] + content
    else [flags + 4] + [|channel.value| / 0x100, |channel.value| % 0x100] + channel.value + content
  }

  /** Whatever the higher flag bits are, the lowest one marks a stream header and the next one a chunk. */
  lemma FrameIsRead(flags: byte, channel: Option<utf8>, content: bytes)
    requires flags / 4 % 2 == 0 && (channel.Some? ==> |channel.value| < U16)
    ensures ExtractChannelName(Frame(flags, channel, content)) == Ok((channel, content))
    ensures Has(Frame(flags, channel, content)[0], STREAM_HEADER_FLAG) <==> flags % 2 == 1
    ensures Has(Frame(flags, channel, content)[0], CHUNKED_FLAG) <==> flags / 2 % 2 == 1
  {
    hide ValidUtf8;
    var frame := Frame(flags, channel, content);
    if channel.Some? {
      var name := channel.value;
      assert frame[0] == flags + 4 && Has(frame[0], CHANNEL_FLAG);
      assert U16At(frame, 1) == |name|;
      assert frame[3..3 + |name|] == name;
      assert frame[3 + |name|..] == content;
    }
  }

  function Count(targets: seq<utf8>, channel: utf8): nat {
    if targets == [] then 0
    else Count(targets[..|targets| - 1], channel) + if targets[|targets| - 1] == channel then 1 else 0
  }

  /** The copies that go to one channel, each with the time at which it was sent. */
  function CopiesFor(codec: Codec, targets: seq<utf8>, content: bytes, clock: Clock, channel: utf8): seq<OutboxMsg> {
    if targets == [] then []
    else
      var n := |targets| - 1;
      CopiesFor(codec, targets[..n], content, clock, channel)
      + if targets[n] == channel then [Entry(codec, Copy(channel, content), clock(n))] else []
  }

  /** They are as many as the channel is listed, and each is a copy of the content. */
  lemma {:induction false} CopiesForAreCopies(
      codec: Codec, targets: seq<utf8>, content: bytes, clock: Clock, channel: utf8)
    ensures var copies := CopiesFor(codec, targets, content, clock, channel);
            && |copies| == Count(targets, channel)
            && forall i :: 0 <= i < |copies| ==>
                 copies[i].channel == Some(channel)
                 && copies[i].msg == codec.encode(Msg(channel, content, true, NilKey, false, false))
  {
    hide ValidUtf8;
    if targets != [] {
      CopiesForAreCopies(codec, targets[..|targets| - 1], content, clock, channel);
    }
  }

  /** The copy for target n carries the time of its own sending, and stands behind the copies of earlier targets. */
  lemma {:induction false} CopyAt(
      codec: Codec, targets: seq<utf8>, content: bytes, clock: Clock, channel: utf8, n: nat)
    requires n < |targets| && targets[n] == channel
    ensures var copies, before := CopiesFor(codec, targets, content, clock, channel), Count(targets[..n], channel);
            && before < |copies|
            && copies[before]
               == OutboxMsg(Some(channel), codec.encode(Msg(channel, content, true, NilKey, false, false)), clock(n))
  {
    hide ValidUtf8;
    var last := |targets| - 1;
    CopiesForAreCopies(codec, targets[..last], content, clock, channel);
    if n < last {
      CopyAt(codec, targets[..last], content, clock, channel, n);
      assert targets[..last][..n] == targets[..n];
    }
  }

  lemma OneMoreFor(codec: Codec, targets: seq<utf8>, content: bytes, clock: Clock, channel: utf8)
    requires targets != []
    ensures var n := |targets| - 1;
            CopiesFor(codec, targets, content, clock, channel)
            == CopiesFor(codec, targets[..n], content, clock, channel)
               + if targets[n] == channel then [Entry(codec, Copy(channel, content), clock(n))] else []
  {
    hide Entry, Copy, ValidUtf8;
  }

  lemma NoCopies(codec: Codec, outbox: Outbox, content: bytes, clock: Clock, channel: utf8)
    ensures Queue(SentAll(codec, outbox, Copies([], content), clock), channel)
         == Queue(outbox, channel) + CopiesFor(codec, [], content, clock, channel)
  {
  }

  lemma CopyIsQueued(codec: Codec, outbox: Outbox, target: utf8, content: bytes, now: int, channel: utf8)
    ensures Queue(Sent(codec, outbox, Copy(target, content), now), channel)
         == Queue(outbox, channel) + if target == channel then [Entry(codec, Copy(channel, content), now)] else []
  {
    hide ValidUtf8;
    assert Queue(outbox, channel) + [] == Queue(outbox, channel);
  }

  /** Sending the copies appends to each queue one copy for each time the channel is listed, and nothing else. */
  lemma {:induction false} CopiesReachTheirQueues(
      codec: Codec, outbox: Outbox, targets: seq<utf8>, content: bytes, clock: Clock, channel: utf8)
    ensures Queue(SentAll(codec, outbox, Copies(targets, content), clock), channel)
         == Queue(outbox, channel) + CopiesFor(codec, targets, content, clock, channel)
  {
    hide ValidUtf8, Sent, SentAll, Queue, Copies, CopiesFor, Entry, Copy;
    if targets == [] {
      NoCopies(codec, outbox, content, clock, channel);
    } else {
      var n := |targets| - 1;
      var earlier, last := targets[..n], targets[n];
      assert targets == earlier + [last];
      CopiesReachTheirQueues(codec, outbox, earlier, content, clock, channel);
      OneMoreCopy(codec, outbox, earlier, last, content, clock);
      CopyIsQueued(codec, SentAll(codec, outbox, Copies(earlier, content), clock), last, content, clock(n), channel);
      OneMoreFor(codec, targets, content, clock, channel);
    }
  }

  /**
   * A plain channel frame is handed to the node once, under its name and with its payload, and each queue of the
   * outbox grows by exactly one copy for every time its channel is listed by the last patch for the frame's channel.
   */
  lemma ChannelFrameIsRouted(
      codec: Codec, st: State, calls: seq<Patch>, flags: byte, name: utf8, payload: bytes, clock: Clock, channel: utf8)
    requires |name| < U16 && flags % 8 == 0
    ensures var (r, after) := Routed(codec, st, PatchedAll(calls), Frame(flags, Some(name), payload), clock);
            var listed := if name in LastWrites(calls) then LastWrites(calls)[name] else [];
            && r == Ok(())
            && after.inbox == st.inbox + [Msg(name, payload, true, NilKey, false, false)]
            && Queue(after.outbox, channel)
               == Queue(st.outbox, channel) + CopiesFor(codec, listed, payload, clock, channel)
            && |CopiesFor(codec, listed, payload, clock, channel)| == Count(listed, channel)
            && after.streams == st.streams && after.chunks == st.chunks
  {
    FrameIsRead(flags, Some(name), payload);
    LastPatchWins(calls, name);
    CopiesReachTheirQueues(codec, st.outbox, Targets(PatchedAll(calls), name), payload, clock, channel);
    CopiesForAreCopies(codec, Targets(PatchedAll(calls), name), payload, clock, channel);
  }

  /** A plain frame without a channel is handed to the node once, without a name, and nothing is copied. */
  lemma NamelessFrameIsRouted(codec: Codec, st: State, patches: seq<Patch>, flags: byte, payload: bytes, clock: Clock)
    requires flags % 8 == 0
    ensures Routed(codec, st, patches, Frame(flags, None, payload), clock)
         == (Ok(()), st.(inbox := st.inbox + [Msg([], payload, false, NilKey, false, false)]))
  {
    FrameIsRead(flags, None, payload);
  }

  /** Stream headers and chunks go to the chunk handler alone, and a frame flagged as both is a stream header. */
  lemma StreamFramesGoToTheHandler(
      codec: Codec, st: State, patches: seq<Patch>, flags: byte, channel: Option<utf8>, content: bytes, clock: Clock)
    requires flags % 4 > 0 && flags / 4 % 2 == 0 && (channel.Some? ==> |channel.value| < U16)
    ensures var name := if channel.Some? then channel.value else [];
            var m := Msg(name, content, channel.Some?, NilKey, true, flags % 2 == 1);
            Routed(codec, st, patches, Frame(flags, channel, content), clock)
            == (if EventOf(m).Ok? then Ok(()) else Err(TooShort), Handled(st, m))
    ensures Routed(codec, st, patches, Frame(flags, channel, content), clock).1.outbox == st.outbox
  {
    hide ValidUtf8, Frame, ExtractChannelName, Has, EventOf, StreamRuns.Step, Targets, Copies, SentAll;
    FrameIsRead(flags, channel, content);
    var m := FrameMsg(channel, content, true, flags % 2 == 1);
    if EventOf(m).Ok? {
      StepAppends(st, EventOf(m).value);
    }
  }

  // ---- Refused frames ----

  /** Empty, or flagged as a channel frame with its name cut short or not a text. */
  predicate Malformed(frame: bytes) {
    || frame == []
    || (frame[0] / 4 % 2 == 1
        && (|frame| < 3 || |frame| < 3 + NameLength(frame) || !ValidUtf8(frame[3..3 + NameLength(frame)])))
  }

  function NameLength(frame: bytes): nat
    requires |frame| >= 3
  {
    var hi: int := frame[1];
    hi * 0x100 + frame[2]
  }

  /** How many bytes follow the flags and the name. */
  function PayloadLength(frame: bytes): int
    requires !Malformed(frame)
  {
    if frame[0] / 4 % 2 == 1 then |frame| - 3 - NameLength(frame) else |frame| - 1
  }

  /** Routing fails exactly on malformed frames and on stream frames of under eight bytes, and changes nothing then. */
  lemma RefusedFrames(codec: Codec, st: State, patches: seq<Patch>, frame: bytes, clock: Clock)
    ensures Routed(codec, st, patches, frame, clock).0.Err? <==>
              Malformed(frame) || (frame[0] % 4 > 0 && PayloadLength(frame) < 8)
    ensures Routed(codec, st, patches, frame, clock).0.Err? ==> Routed(codec, st, patches, frame, clock).1 == st
    ensures Malformed(frame) ==>
              Routed(codec, st, patches, frame, clock).0
              == Err(if frame == [] then InvalidArgument
                     else if |frame| < 3 || |frame| < 3 + NameLength(frame) then BadChannelFrame else InvalidUtf8)
  {
    hide ValidUtf8, StreamRuns.Step, Targets, Copies, SentAll;
    if frame != [] {
      assert Has(frame[0], STREAM_HEADER_FLAG) || Has(frame[0], CHUNKED_FLAG) <==> frame[0] % 4 > 0;
      assert Has(frame[0], CHANNEL_FLAG) <==> frame[0] / 4 % 2 == 1;
    }
  }
}
