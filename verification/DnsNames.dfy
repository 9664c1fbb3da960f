/** Names in DNS packets (sections 3.1 and 4.1.4 of RFC 1035): writing, skipping and extracting them. */
module DnsNames {
  import opened Bytes
  import opened Cursors

  const DOT: byte := 0x2E
  const MAX_LABEL: nat := 63

  /** A pointer has 14 bits. */
  const POINTER_TARGETS: nat := 0x4000

  // ---- Dotted names ----

  /** Position of the first dot, or the length when there is none. */
  function FirstDot(s: bytes): (i: nat)
    ensures i <= |s| && (i < |s| ==> s[i] == DOT) && forall j :: 0 <= j < i ==> s[j] != DOT
  {
    if s == [] || s[0] == DOT then 0 else 1 + FirstDot(s[1..])
  }

  /** The labels between the dots; there is always at least one. */
  function Split(s: bytes): (labels: seq<bytes>)
    ensures labels != []
    decreases |s|
  {
    var i := FirstDot(s);
    if i == |s| then [s] else [s[..i]] + Split(s[i + 1..])
  }

  function Join(labels: seq<bytes>): bytes {
    if labels == [] then []
    else if |labels| == 1 then labels[0]
    else labels[0] + [DOT] + Join(labels[1..])
  }

  lemma {:induction false} JoinAfterSplit(s: bytes)
    ensures Join(Split(s)) == s
    decreases |s|
  {
    var i := FirstDot(s);
    if i < |s| {
      JoinAfterSplit(s[i + 1..]);
      assert Split(s)[1..] == Split(s[i + 1..]);
      assert s == s[..i] + [DOT] + s[i + 1..];
    }
  }

  /** No part holds a dot, so this is the only way to cut a name at its dots. */
  lemma {:induction false} PartsHaveNoDots(s: bytes)
    ensures forall i :: 0 <= i < |Split(s)| ==> DOT !in Split(s)[i]
    decreases |s|
  {
    var i := FirstDot(s);
    if i < |s| {
      PartsHaveNoDots(s[i + 1..]);
    }
  }

  lemma SplitAtDot(a: bytes, b: bytes)
    requires DOT !in a
    ensures Split(a + [DOT] + b) == [a] + Split(b)
  {
    var s := a + [DOT] + b;
    assert s[|a|] == DOT;
    assert forall j :: 0 <= j < |a| ==> s[j] == a[j];
    assert FirstDot(s) == |a|;
    assert s[..|a|] == a && s[|a| + 1..] == b;
  }

  lemma SplitWithoutDot(a: bytes)
    requires DOT !in a
    ensures Split(a) == [a]
  {
    assert FirstDot(a) == |a|;
  }

  lemma {:induction false} LabelsAreUtf8(s: bytes)
    requires ValidUtf8(s)
    ensures forall i :: 0 <= i < |Split(s)| ==> ValidUtf8(Split(s)[i])
    decreases |s|
  {
    var i := FirstDot(s);
    if i < |s| {
      assert s == s[..i] + [DOT] + s[i + 1..];
      Utf8SplitAtAscii(s[..i], DOT, s[i + 1..]);
      LabelsAreUtf8(s[i + 1..]);
    }
  }

  // ---- Writing ----

  function EncodeLabels(labels: seq<bytes>): bytes
    requires forall i :: 0 <= i < |labels| ==> |labels[i]| <= MAX_LABEL
  {
    if labels == [] then [] else [|labels[0]|] + labels[0] + EncodeLabels(labels[1..])
  }

  predicate AllShort(labels: seq<bytes>) {
    forall i :: 0 <= i < |labels| ==> |labels[i]| <= MAX_LABEL
  }

  predicate AllProper(labels: seq<bytes>) {
    forall i :: 0 <= i < |labels| ==> 1 <= |labels[i]| <= MAX_LABEL
  }

  function EncodeName(name: bytes): Result<bytes> {
    if AllShort(Split(name)) then Ok(EncodeLabels(Split(name)) + [0]) else Err(BadName)
  }

  /** A name is its labels between dots, each behind its length of at most 63, and a zero byte. */
  lemma NamesAreEncoded(a: bytes, b: bytes)
    requires DOT !in a
    ensures EncodeName(a) == if |a| > 63 then Err(BadName) else Ok([|a|] + a + [0])
    ensures EncodeName(a + [DOT] + b)
         == if |a| > 63 then Err(BadName)
            else match EncodeName(b)
                 case Ok(s) => Ok([|a|] + a + s)
                 case Err(e) => Err(e)
  {
    hide Split;
    SplitWithoutDot(a);
    SplitAtDot(a, b);
    OneMoreShort(a, []);
    OneMoreShort(a, Split(b));
  }

  lemma OneMoreShort(a: bytes, others: seq<bytes>)
    ensures AllShort([a] + others) <==> |a| <= 63 && AllShort(others)
    ensures AllShort([a] + others) ==> EncodeLabels([a] + others) + [0] == [|a|] + a + (EncodeLabels(others) + [0])
    ensures others == [] ==> [a] + others == [a] && EncodeLabels(others) + [0] == [0]
  {
    var labels := [a] + others;
    assert labels[1..] == others && labels[0] == a;
    if AllShort(labels) {
      assert forall i :: 0 <= i < |others| ==> others[i] == labels[i + 1];
      assert AllShort(others);
      assert [|a|] + a + EncodeLabels(others) + [0] == [|a|] + a + (EncodeLabels(others) + [0]);
    }
  }

  lemma {:induction false} EncodeOneMore(labels: seq<bytes>, part: bytes)
    requires AllShort(labels) && |part| <= MAX_LABEL
    ensures EncodeLabels(labels + [part]) == EncodeLabels(labels) + [|part|] + part
  {
    if labels == [] {
      assert [part][1..] == [];
      assert EncodeLabels([part]) == [|part|] + part + [];
    } else {
      assert (labels + [part])[1..] == labels[1..] + [part];
      EncodeOneMore(labels[1..], part);
    }
  }

  /** The labels before the first one that is too long. */
  function ShortLabels(labels: seq<bytes>): (r: seq<bytes>)
    ensures AllShort(r)
  {
    if labels == [] || |labels[0]| > MAX_LABEL then [] else [labels[0]] + ShortLabels(labels[1..])
  }

  lemma {:induction false} ShortUpTo(labels: seq<bytes>, i: nat)
    requires i < |labels| && AllShort(labels[..i]) && |labels[i]| > MAX_LABEL
    ensures ShortLabels(labels) == labels[..i]
  {
    if i > 0 {
      assert labels[1..][..i - 1] == labels[..i][1..];
      assert labels[..i][0] == labels[0];
      ShortUpTo(labels[1..], i - 1);
    }
  }

  /** A label that is too long stops the writer after the labels before it. */
  method AddDnsName(packet: Buffer, name: bytes) returns (r: Result<()>)
    modifies packet
    ensures match EncodeName(name)
            case Ok(s) => r == Ok(()) && packet.data == old(packet.data) + s
            case Err(e) => r == Err(e) && packet.data == old(packet.data) + EncodeLabels(ShortLabels(Split(name)))
  {
    hide EncodeLabels, ShortLabels, Split;
    var labels := Split(name);
    NothingEncoded();
    for i := 0 to |labels|
      invariant AllShort(labels[..i])
      invariant packet.data == old(packet.data) + EncodeLabels(labels[..i])
    {
      if |labels[i]| > MAX_LABEL {
        ShortUpTo(labels, i);
        return Err(BadName);
      }
      EncodeOneMore(labels[..i], labels[i]);
      assert labels[..i + 1] == labels[..i] + [labels[i]];
      packet.Push(|labels[i]|);
      packet.Append(labels[i]);
    }
    assert labels[..|labels|] == labels;
    packet.Push(0);
    r := Ok(());
  }

  // ---- Skipping ----

  /** The offset after a name: behind its zero byte, or behind the first compression pointer. */
  function SkipName(data: bytes, offset: nat): (r: Result<nat>)
    ensures r.Ok? ==> offset < r.value <= |data| + 1
    decreases |data| - offset
  {
    if offset >= |data| then Err(BadName)
    else if data[offset] == 0 then Ok(offset + 1)
    else if data[offset] >= 0xC0 then Ok(offset + 2)
    else SkipName(data, offset + data[offset] + 1)
  }

  method SkipDnsName(data: bytes, start: nat) returns (r: Result<nat>)
    ensures r == SkipName(data, start)
  {
    var offset := start;
    while offset < |data|
      invariant SkipName(data, start) == SkipName(data, offset)
      decreases |data| - offset
    {
      var len := data[offset];
      if len == 0 {
        return Ok(offset + 1);
      }
      if len >= 0xC0 {
        return Ok(offset + 2);
      }
      offset := offset + len + 1;
    }
    r := Err(BadName);
  }

  // ---- Extracting ----

  /** The labels from an offset up to what ends them: the name's end, a pointer, a bad label, or half a pointer. */
  datatype Segment = Ended(labels: seq<bytes>) | Jump(target: nat) | Malformed | HalfPointer

  function ReadSegment(data: bytes, offset: nat): (r: Segment)
    ensures r.Jump? ==> r.target < POINTER_TARGETS
    decreases |data| - offset
  {
    if offset >= |data| || data[offset] == 0 then Ended([])
    else
      var len := data[offset];
      if len >= 0xC0 then
        if offset + 1 < |data| then Jump((len - 0xC0) * 0x100 + data[offset + 1]) else HalfPointer
      else if len > MAX_LABEL || offset + 1 + len > |data| then Malformed
      else
        match ReadSegment(data, offset + 1 + len)
        case Ended(labels) => Ended([data[offset + 1..offset + 1 + len]] + labels)
        case other => other
  }

  function MapAll(f: bytes -> bytes, labels: seq<bytes>): (r: seq<bytes>)
    ensures |r| == |labels|
  {
    if labels == [] then [] else MapAll(f, labels[..|labels| - 1]) + [f(labels[|labels| - 1])]
  }

  /** The segment start reached after n jumps. */
  function Chase(data: bytes, start: nat, n: nat): nat {
    if n == 0 then start
    else
      var at := Chase(data, start, n - 1);
      if ReadSegment(data, at).Jump? then ReadSegment(data, at).target else at
  }

  predicate JumpsAfter(data: bytes, start: nat, n: nat) {
    ReadSegment(data, Chase(data, start, n)).Jump?
  }

  /**
   * The name that the last segment read gives; labels before a pointer are dropped, as the code drops them. A pointer
   * whose second byte is missing is an index out of range, and a pointer for which the stack has no room an overflow.
   */
  function NameOf(lossy: bytes -> bytes, last: Segment): Result<bytes> {
    match last
    case Ended(labels) => Ok(Join(MapAll(lossy, labels)))
    case Malformed => Err(BadName)
    case HalfPointer => Err(IndexOutOfRange)
    case Jump(_) => Err(StackOverflow)
  }

  /** The name at an offset; each pointer is a nested call, and `depth` is how many of these the stack has room for. */
  function ExtractName(lossy: bytes -> bytes, depth: nat, data: bytes, start: nat): Result<bytes> {
    NameOf(lossy, ReadSegment(data, Chase(data, start, depth)))
  }

  method ExtractDnsName(lossy: bytes -> bytes, depth: nat, data: bytes, start: nat) returns (r: Result<bytes>)
    ensures r == ExtractName(lossy, depth, data, start)
    decreases depth
  {
    hide ExtractName, MapAll, Join, ReadSegment;
    ExtractBySegment(lossy, depth, data, start);
    var offset := start;
    var parts: seq<bytes> := [];
    ghost var labels: seq<bytes> := [];
    NothingMapped(lossy);
    while offset < |data|
      invariant parts == MapAll(lossy, labels)
      invariant ReadSegment(data, start) == Behind(labels, ReadSegment(data, offset))
      decreases |data| - offset
    {
      var len := data[offset];
      if len == 0 {
        break;
      }
      SegmentStep(data, offset, labels);
      if len >= 0xC0 {
        if offset + 1 >= |data| {
          return Err(IndexOutOfRange);
        }
        var pointer := (len - 0xC0) * 0x100 + data[offset + 1];
        if depth == 0 {
          return Err(StackOverflow);
        }
        r := ExtractDnsName(lossy, depth - 1, data, pointer);
        return;
      }
      if len > MAX_LABEL {
        return Err(BadName);
      }
      if offset + 1 + len > |data| {
        return Err(BadName);
      }
      var part := data[offset + 1..offset + 1 + len];
      MapOneMore(lossy, labels, part);
      labels := labels + [part];
      parts := parts + [lossy(part)];
      offset := offset + 1 + len;
    }
    SegmentEnds(data, offset, labels);
    r := Ok(Join(parts));
  }

  /** Extraction follows the first segment's pointer, if the stack has room, or ends with that segment. */
  lemma ExtractBySegment(lossy: bytes -> bytes, depth: nat, data: bytes, start: nat)
    ensures var first := ReadSegment(data, start);
            ExtractName(lossy, depth, data, start)
            == if first.Jump? && depth > 0 then ExtractName(lossy, depth - 1, data, first.target)
               else NameOf(lossy, first)
  {
    hide Chase, MapAll, Join, ReadSegment;
    FirstSegmentDecides(data, start, depth);
  }

  lemma NothingMapped(f: bytes -> bytes)
    ensures MapAll(f, []) == []
  {
  }

  lemma SegmentEnds(data: bytes, offset: nat, labels: seq<bytes>)
    requires offset >= |data| || data[offset] == 0
    ensures Behind(labels, ReadSegment(data, offset)) == Ended(labels)
  {
    assert labels + [] == labels;
  }

  /** One turn of the loop over labels. */
  lemma SegmentStep(data: bytes, offset: nat, labels: seq<bytes>)
    requires offset < |data| && data[offset] != 0
    ensures var len := data[offset];
            var next := offset + 1 + len;
            var here := Behind(labels, ReadSegment(data, offset));
            if len >= 0xC0 then
              here == if offset + 1 < |data| then Jump((len - 0xC0) * 0x100 + data[offset + 1]) else HalfPointer
            else if len > MAX_LABEL || next > |data| then here == Malformed
            else here == Behind(labels + [data[offset + 1..next]], ReadSegment(data, next))
  {
    var next := offset + 1 + data[offset];
    if data[offset] <= MAX_LABEL && next <= |data| {
      BehindTwice(labels, data[offset + 1..next], ReadSegment(data, next));
    }
  }

  /** Each label becomes text on its own. */
  lemma {:induction false} MapAllAt(f: bytes -> bytes, labels: seq<bytes>, i: nat)
    requires i < |labels|
    ensures MapAll(f, labels)[i] == f(labels[i])
  {
    if i < |labels| - 1 {
      MapAllAt(f, labels[..|labels| - 1], i);
    }
  }

  lemma MapOneMore(f: bytes -> bytes, labels: seq<bytes>, part: bytes)
    ensures MapAll(f, labels + [part]) == MapAll(f, labels) + [f(part)]
  {
    assert (labels + [part])[..|labels|] == labels;
  }

  /** A chain goes on from its first segment's pointer, or stays there. */
  lemma FirstSegmentDecides(data: bytes, start: nat, n: nat)
    ensures var first := ReadSegment(data, start);
            if first.Jump? && n > 0 then Chase(data, start, n) == Chase(data, first.target, n - 1)
            else Chase(data, start, n) == start
  {
    assert Chase(data, start, 0) == start;
    if ReadSegment(data, start).Jump? && n > 0 {
      ChaseOneEarlier(data, start, n - 1);
    } else if n > 0 {
      ChaseSettles(data, start, 0, n);
    }
  }

  lemma {:induction false} ChaseOneEarlier(data: bytes, start: nat, n: nat)
    requires ReadSegment(data, start).Jump?
    ensures Chase(data, start, n + 1) == Chase(data, ReadSegment(data, start).target, n)
  {
    if n > 0 {
      ChaseOneEarlier(data, start, n - 1);
    } else {
      assert Chase(data, start, 0) == start;
    }
  }

  lemma {:induction false} ChaseSettles(data: bytes, start: nat, n: nat, m: nat)
    requires n <= m && !JumpsAfter(data, start, n)
    ensures Chase(data, start, m) == Chase(data, start, n)
  {
    if n < m {
      ChaseSettles(data, start, n, m - 1);
    }
  }

  /** A segment with labels read before it. */
  ghost function Behind(before: seq<bytes>, rest: Segment): Segment {
    match rest
    case Ended(labels) => Ended(before + labels)
    case other => other
  }

  lemma BehindTwice(before: seq<bytes>, part: bytes, rest: Segment)
    ensures Behind(before, Behind([part], rest)) == Behind(before + [part], rest)
  {
    if rest.Ended? {
      assert before + ([part] + rest.labels) == before + [part] + rest.labels;
    }
  }

  // ---- Names written anywhere ----

  /** The bytes s stand at an offset of a packet. */
  predicate StandsAt(s: bytes, data: bytes, offset: nat) {
    offset + |s| <= |data| && data[offset..offset + |s|] == s
  }

  lemma StandsAtParts(a: bytes, b: bytes, data: bytes, offset: nat)
    requires StandsAt(a + b, data, offset)
    ensures StandsAt(a, data, offset) && StandsAt(b, data, offset + |a|)
  {
    var window := data[offset..offset + |a + b|];
    assert window[..|a|] == a && window[|a|..] == b;
    assert data[offset..offset + |a|] == window[..|a|];
    assert data[offset + |a|..offset + |a| + |b|] == window[|a|..];
  }

  /** The first label of what stands at an offset, and what stands behind it. */
  lemma FirstLabel(data: bytes, offset: nat, labels: seq<bytes>, tail: bytes)
    requires AllShort(labels) && labels != [] && StandsAt(EncodeLabels(labels) + tail, data, offset)
    ensures var n := |labels[0]|;
            && offset + 1 + n <= |data| && data[offset] == n && data[offset + 1..offset + 1 + n] == labels[0]
            && StandsAt(EncodeLabels(labels[1..]) + tail, data, offset + 1 + n)
            && |EncodeLabels(labels)| == 1 + n + |EncodeLabels(labels[1..])|
  {
    hide EncodeLabels, StandsAt;
    var n, rest := |labels[0]|, EncodeLabels(labels[1..]) + tail;
    FirstEncoded(labels, tail);
    StandsAtParts([n], labels[0] + rest, data, offset);
    StandsAtParts(labels[0], rest, data, offset + 1);
    BytesStand([n], data, offset);
    BytesStand(labels[0], data, offset + 1);
  }

  lemma FirstEncoded(labels: seq<bytes>, tail: bytes)
    requires AllShort(labels) && labels != []
    ensures EncodeLabels(labels) + tail == [|labels[0]|] + (labels[0] + (EncodeLabels(labels[1..]) + tail))
    ensures |EncodeLabels(labels)| == 1 + |labels[0]| + |EncodeLabels(labels[1..])|
  {
    assert EncodeLabels(labels) == [|labels[0]|] + labels[0] + EncodeLabels(labels[1..]);
    hide EncodeLabels;
    Regroup([|labels[0]|], labels[0], EncodeLabels(labels[1..]), tail);
  }

  lemma Regroup(a: bytes, b: bytes, c: bytes, d: bytes)
    ensures a + b + c + d == a + (b + (c + d))
  {
  }

  lemma BytesStand(s: bytes, data: bytes, offset: nat)
    requires StandsAt(s, data, offset)
    ensures offset + |s| <= |data| && data[offset..offset + |s|] == s
    ensures s != [] ==> data[offset] == s[0]
  {
    assert s != [] ==> data[offset] == data[offset..offset + |s|][0];
  }

  lemma WrittenLabels(data: bytes, offset: nat, labels: seq<bytes>)
    requires AllProper(labels) && StandsAt(EncodeLabels(labels) + [0], data, offset)
    ensures SkipName(data, offset) == Ok(offset + |EncodeLabels(labels)| + 1)
    ensures ReadSegment(data, offset) == Ended(labels)
  {
    hide EncodeLabels, StandsAt, ReadSegment, SkipName;
    var next := offset + |EncodeLabels(labels)|;
    StandsAtParts(EncodeLabels(labels), [0], data, offset);
    BytesStand([0], data, next);
    LabelsThenMore(data, offset, labels);
    ZeroEnds(data, next);
    assert labels + [] == labels;
  }

  lemma ZeroEnds(data: bytes, at: nat)
    requires at < |data| && data[at] == 0
    ensures SkipName(data, at) == Ok(at + 1) && ReadSegment(data, at) == Ended([])
  {
  }

  lemma NoLabels(data: bytes, offset: nat)
    requires StandsAt(EncodeLabels([]) + [0], data, offset)
    ensures offset < |data| && data[offset] == 0
  {
    assert EncodeLabels([]) + [0] == [0];
    assert data[offset] == data[offset..offset + 1][0];
  }

  ghost predicate Faithful(lossy: bytes -> bytes) {
    forall s :: ValidUtf8(s) ==> lossy(s) == s
  }

  lemma {:induction false} MapAllIdentity(lossy: bytes -> bytes, labels: seq<bytes>)
    requires Faithful(lossy) && forall i :: 0 <= i < |labels| ==> ValidUtf8(labels[i])
    ensures MapAll(lossy, labels) == labels
  {
    if labels != [] {
      MapAllIdentity(lossy, labels[..|labels| - 1]);
    }
  }

  /**
   * A dotted name with labels of 1 to 63 bytes, written anywhere in a packet, is extracted as it was, and skipping
   * it leads to the first offset after it.
   */
  lemma WrittenNameIsRead(lossy: bytes -> bytes, depth: nat, name: bytes, data: bytes, offset: nat)
    requires Faithful(lossy) && ValidUtf8(name) && AllProper(Split(name))
    requires StandsAt(EncodeName(name).value, data, offset)
    ensures SkipName(data, offset) == Ok(offset + |EncodeName(name).value|)
    ensures ExtractName(lossy, depth, data, offset) == Ok(name)
  {
    hide Split, Join, SkipName, EncodeLabels, ValidUtf8, StandsAt, ExtractName;
    LabelsAreUtf8(name);
    JoinAfterSplit(name);
    LabelsAreExtracted(lossy, depth, Split(name), data, offset);
  }

  lemma ProperNamesEncode(name: bytes)
    requires AllProper(Split(name))
    ensures EncodeName(name).Ok?
  {
    hide Split;
  }

  lemma WrittenNameIsSkipped(name: bytes, data: bytes, offset: nat)
    requires AllProper(Split(name)) && StandsAt(EncodeName(name).value, data, offset)
    ensures SkipName(data, offset) == Ok(offset + |EncodeName(name).value|)
  {
    hide Split, SkipName, EncodeLabels, StandsAt;
    WrittenLabels(data, offset, Split(name));
  }

  lemma LabelsAreExtracted(lossy: bytes -> bytes, depth: nat, labels: seq<bytes>, data: bytes, offset: nat)
    requires Faithful(lossy) && AllProper(labels) && forall i :: 0 <= i < |labels| ==> ValidUtf8(labels[i])
    requires StandsAt(EncodeLabels(labels) + [0], data, offset)
    ensures SkipName(data, offset) == Ok(offset + |EncodeLabels(labels)| + 1)
    ensures ExtractName(lossy, depth, data, offset) == Ok(Join(labels))
  {
    WrittenLabels(data, offset, labels);
    MapAllIdentity(lossy, labels);
    FirstSegmentDecides(data, offset, depth);
    hide Chase, Join, MapAll, ReadSegment, SkipName, EncodeLabels, StandsAt, ValidUtf8;
  }

  /** With labels of at most 63 bytes, skipping ends right after the name exactly when no label is empty. */
  lemma {:induction false} SkipIsExact(data: bytes, offset: nat, labels: seq<bytes>)
    requires AllShort(labels) && StandsAt(EncodeLabels(labels) + [0], data, offset)
    ensures SkipName(data, offset) == Ok(offset + |EncodeLabels(labels)| + 1) <==> AllProper(labels)
    ensures SkipName(data, offset).Ok? && SkipName(data, offset).value <= offset + |EncodeLabels(labels)| + 1
    decreases |labels|
  {
    if labels == [] {
      NoLabels(data, offset);
    } else {
      FirstLabel(data, offset, labels, [0]);
      if labels[0] != [] {
        SkipIsExact(data, offset + 1 + |labels[0]|, labels[1..]);
        hide EncodeLabels, StandsAt;
        assert AllProper(labels) <==> AllProper(labels[1..]) by {
          assert forall i :: 1 <= i < |labels| ==> labels[i] == labels[1..][i - 1];
        }
      }
    }
  }

  // ---- Pointer chains ----

  /** Following pointers from here comes to an end. */
  ghost predicate Halts(data: bytes, start: nat) {
    exists n :: !JumpsAfter(data, start, n)
  }

  /** Every pointer met leads to an offset strictly before the segment it is met in. */
  predicate PointsBackward(data: bytes, start: nat)
    decreases start
  {
    match ReadSegment(data, start)
    case Jump(target) => target < start && PointsBackward(data, target)
    case _ => true
  }

  /** Pointers that lead backward come to an end, after at most as many jumps as the offset they start from. */
  lemma {:induction false} BackwardHalts(data: bytes, start: nat) returns (n: nat)
    requires PointsBackward(data, start)
    ensures n <= start && !JumpsAfter(data, start, n)
    decreases start
  {
    n := 0;
    if ReadSegment(data, start).Jump? {
      var target := ReadSegment(data, start).target;
      var m := BackwardHalts(data, target);
      ChaseOneEarlier(data, start, m);
      n := m + 1;
    }
  }

  /** Nothing in the code enforces this: a pointer to itself is followed for ever. */
  lemma {:induction false} SelfPointerNeverHalts(data: bytes, start: nat)
    requires ReadSegment(data, start) == Jump(start)
    ensures !PointsBackward(data, start) && !Halts(data, start)
  {
    forall n: nat
      ensures JumpsAfter(data, start, n)
    {
      StaysPut(data, start, n);
    }
  }

  lemma {:induction false} StaysPut(data: bytes, start: nat, n: nat)
    requires ReadSegment(data, start) == Jump(start)
    ensures Chase(data, start, n) == start
  {
    if n > 0 {
      StaysPut(data, start, n - 1);
    }
  }

  // ---- Deciding whether a chain ends ----

  lemma {:induction false} ChaseAdds(data: bytes, start: nat, m: nat, n: nat)
    ensures Chase(data, start, m + n) == Chase(data, Chase(data, start, m), n)
  {
    if n > 0 {
      ChaseAdds(data, start, m, n - 1);
    }
  }

  lemma {:induction false} Repetition(values: seq<nat>, n: nat) returns (i: nat, j: nat)
    requires |values| > n && forall k :: 0 <= k < |values| ==> values[k] < n
    ensures i < j < |values| && values[i] == values[j]
    decreases n
  {
    var last := |values| - 1;
    if k :| 0 <= k < last && values[k] == values[last] {
      i, j := k, last;
    } else {
      // Move the largest value into the gap that the last one leaves.
      var shifted := seq(last, k requires 0 <= k < last => if values[k] == n - 1 then values[last] else values[k]);
      assert forall k :: 0 <= k < last ==> shifted[k] < n - 1;
      i, j := Repetition(shifted, n - 1);
    }
  }

  /** A chain that repeats an offset among its jumps goes on for ever. */
  lemma {:induction false} CycleNeverHalts(data: bytes, start: nat, i: nat, j: nat, n: nat)
    requires i < j && Chase(data, start, i) == Chase(data, start, j)
    requires forall k: nat :: k < j ==> JumpsAfter(data, start, k)
    ensures JumpsAfter(data, start, n)
  {
    if n >= j {
      ChaseAdds(data, start, j, n - j);
      ChaseAdds(data, start, i, n - j);
      CycleNeverHalts(data, start, i, j, i + (n - j));
    }
  }

  /** A chain that has not ended after more jumps than there are targets has met an offset twice. */
  lemma LongChainRepeats(data: bytes, start: nat) returns (i: nat, j: nat)
    requires forall n: nat :: n <= POINTER_TARGETS + 1 ==> JumpsAfter(data, start, n)
    ensures i < j <= POINTER_TARGETS + 1 && Chase(data, start, i) == Chase(data, start, j)
  {
    var values := seq(POINTER_TARGETS + 1, k requires 0 <= k => Chase(data, start, k + 1));
    forall k | 0 <= k < |values|
      ensures values[k] < POINTER_TARGETS
    {
      assert JumpsAfter(data, start, k);
    }
    var a, b := Repetition(values, POINTER_TARGETS);
    i, j := a + 1, b + 1;
  }

  /** Where a name ends, following more pointers than there are different ones. */
  function LastSegment(data: bytes, start: nat): Segment {
    ReadSegment(data, Chase(data, start, POINTER_TARGETS + 1))
  }

  /** Following the pointers ends at all exactly when it ends within 16385 jumps, one more than there are targets. */
  lemma HaltsSoonOrNever(data: bytes, start: nat)
    ensures Halts(data, start) <==> !LastSegment(data, start).Jump?
  {
    hide Chase;
    var bound := POINTER_TARGETS + 1;
    if n: nat :| n <= bound && !JumpsAfter(data, start, n) {
      ChaseSettles(data, start, n, bound);
      assert !JumpsAfter(data, start, bound);
    } else {
      assert forall n: nat :: n <= bound ==> JumpsAfter(data, start, n);
      assert JumpsAfter(data, start, bound);
      var i, j := LongChainRepeats(data, start);
      forall n: nat
        ensures JumpsAfter(data, start, n)
      {
        CycleNeverHalts(data, start, i, j, n);
      }
    }
  }

  /** Jump j leads to an offset met before. */
  predicate Repeats(data: bytes, start: nat, i: nat, j: nat) {
    i < j && JumpsAfter(data, start, j - 1) && Chase(data, start, i) == Chase(data, start, j)
  }

  /** Following the pointers ends exactly when no jump leads to an offset met before. */
  lemma HaltsUnlessRepeating(data: bytes, start: nat)
    ensures Halts(data, start) <==> forall i: nat, j: nat :: !Repeats(data, start, i, j)
  {
    hide Chase;
    if i: nat, j: nat :| Repeats(data, start, i, j) {
      forall k: nat | k < j
        ensures JumpsAfter(data, start, k)
      {
        if !JumpsAfter(data, start, k) {
          ChaseSettles(data, start, k, j - 1);
        }
      }
      forall n: nat
        ensures JumpsAfter(data, start, n)
      {
        CycleNeverHalts(data, start, i, j, n);
      }
    } else if !Halts(data, start) {
      assert forall n: nat :: n <= POINTER_TARGETS + 1 ==> JumpsAfter(data, start, n);
      var i, j := LongChainRepeats(data, start);
      assert Repeats(data, start, i, j);
    }
  }

  /**
   * With room for more nested calls than there are pointer targets, extraction overflows the stack exactly when some
   * jump leads to an offset met before, indexes out of range exactly when the chain ends in half a pointer, and has
   * an ordinary outcome otherwise.
   */
  lemma ExtractionOutcome(lossy: bytes -> bytes, depth: nat, data: bytes, start: nat)
    requires depth > POINTER_TARGETS
    ensures ExtractName(lossy, depth, data, start) == Err(StackOverflow) <==> !Halts(data, start)
    ensures ExtractName(lossy, depth, data, start) == Err(IndexOutOfRange)
       <==> Halts(data, start) && LastSegment(data, start).HalfPointer?
    ensures ExtractName(lossy, depth, data, start).Ok? || ExtractName(lossy, depth, data, start) == Err(BadName) <==>
              Halts(data, start) && !LastSegment(data, start).HalfPointer?
    ensures !Halts(data, start) <==> exists i: nat, j: nat :: Repeats(data, start, i, j)
  {
    hide Chase, Join, MapAll, Repeats;
    HaltsUnlessRepeating(data, start);
    HaltsSoonOrNever(data, start);
    if Halts(data, start) {
      assert !JumpsAfter(data, start, POINTER_TARGETS + 1);
      ChaseSettles(data, start, POINTER_TARGETS + 1, depth);
    } else {
      assert JumpsAfter(data, start, depth);
    }
  }

  /** A pointer to half a pointer is followed, and then its other half is looked for past the packet's end. */
  lemma HalfPointerIsReached(lossy: bytes -> bytes, depth: nat, data: bytes, start: nat)
    requires ReadSegment(data, start).Jump? && ReadSegment(data, ReadSegment(data, start).target).HalfPointer?
    requires depth > 0
    ensures Halts(data, start) && ExtractName(lossy, depth, data, start) == Err(IndexOutOfRange)
  {
    hide ReadSegment, Join, MapAll;
    FirstSegmentDecides(data, start, depth);
    FirstSegmentDecides(data, ReadSegment(data, start).target, depth - 1);
    assert !JumpsAfter(data, start, depth);
  }

  /** Pointers that lead backward need no more nested calls than the offset they start from. */
  lemma BackwardNeverOverflows(lossy: bytes -> bytes, depth: nat, data: bytes, start: nat)
    requires PointsBackward(data, start) && depth >= start
    ensures ExtractName(lossy, depth, data, start) != Err(StackOverflow)
  {
    hide Chase, Join, MapAll;
    var n := BackwardHalts(data, start);
    ChaseSettles(data, start, n, depth);
  }

  // ---- What may stand behind labels ----

  /** Labels written anywhere are read and skipped, and then what stands behind them. */
  lemma {:induction false} LabelsThenMore(data: bytes, offset: nat, labels: seq<bytes>)
    requires AllProper(labels) && StandsAt(EncodeLabels(labels), data, offset)
    ensures var next := offset + |EncodeLabels(labels)|;
            && ReadSegment(data, offset) == Behind(labels, ReadSegment(data, next))
            && SkipName(data, offset) == SkipName(data, next)
    decreases |labels|
  {
    hide EncodeLabels, StandsAt, ReadSegment, SkipName, Behind;
    if labels == [] {
      NothingEncoded();
      BehindNothing(ReadSegment(data, offset));
    } else {
      var first, others := labels[0], labels[1..];
      LabelStands(data, offset, labels);
      LabelsThenMore(data, offset + 1 + |first|, others);
      OneLabelThenMore(data, offset, first);
      assert [first] + others == labels;
      BehindAll(first, others, ReadSegment(data, offset + |EncodeLabels(labels)|));
    }
  }

  lemma NothingEncoded()
    ensures EncodeLabels([]) == []
  {
  }

  lemma OneLabelThenMore(data: bytes, offset: nat, part: bytes)
    requires 1 <= |part| <= MAX_LABEL && offset + 1 + |part| <= |data|
    requires data[offset] == |part| && data[offset + 1..offset + 1 + |part|] == part
    ensures var next := offset + 1 + |part|;
            && ReadSegment(data, offset) == Behind([part], ReadSegment(data, next))
            && SkipName(data, offset) == SkipName(data, next)
  {
  }

  lemma BehindNothing(rest: Segment)
    ensures Behind([], rest) == rest
  {
  }

  lemma BehindAll(first: bytes, others: seq<bytes>, rest: Segment)
    ensures Behind([first], Behind(others, rest)) == Behind([first] + others, rest)
  {
    if rest.Ended? {
      assert [first] + (others + rest.labels) == [first] + others + rest.labels;
    }
  }

  lemma LabelStands(data: bytes, offset: nat, labels: seq<bytes>)
    requires AllShort(labels) && labels != [] && StandsAt(EncodeLabels(labels), data, offset)
    ensures var n := |labels[0]|;
            && offset + 1 + n <= |data| && data[offset] == n && data[offset + 1..offset + 1 + n] == labels[0]
            && StandsAt(EncodeLabels(labels[1..]), data, offset + 1 + n)
            && |EncodeLabels(labels)| == 1 + n + |EncodeLabels(labels[1..])|
  {
    hide EncodeLabels, StandsAt;
    assert EncodeLabels(labels) + [] == EncodeLabels(labels);
    FirstLabel(data, offset, labels, []);
    assert EncodeLabels(labels[1..]) + [] == EncodeLabels(labels[1..]);
  }

  /**
   * What extracting and skipping make of labels, according to what stands behind them: the end of the packet or a zero
   * byte ends the name; a byte from 64 to 191, or a label that does not fit in the packet, makes it a bad name; a
   * pointer is followed, the labels before it being dropped, and skipped with its two bytes.
   */
  lemma BehindLabels(lossy: bytes -> bytes, depth: nat, data: bytes, offset: nat, labels: seq<bytes>)
    requires AllProper(labels) && StandsAt(EncodeLabels(labels), data, offset)
    ensures var next := offset + |EncodeLabels(labels)|;
            var extracted, skipped := ExtractName(lossy, depth, data, offset), SkipName(data, offset);
            if next >= |data| then extracted == Ok(Join(MapAll(lossy, labels))) && skipped == Err(BadName)
            else if data[next] == 0 then extracted == Ok(Join(MapAll(lossy, labels))) && skipped == Ok(next + 1)
            else if data[next] < 64 then
              (next + 1 + data[next] > |data| ==> extracted == Err(BadName) && skipped == Err(BadName))
            else if data[next] < 192 then extracted == Err(BadName) && skipped == SkipName(data, next + 1 + data[next])
            else
              && skipped == Ok(next + 2)
              && extracted == (if next + 1 == |data| then Err(IndexOutOfRange)
                               else if depth == 0 then Err(StackOverflow)
                               else ExtractName(lossy, depth - 1, data, PointerTarget(data[next], data[next + 1])))
  {
    var next := offset + |EncodeLabels(labels)|;
    LabelsThenMore(data, offset, labels);
    ExtractBySegment(lossy, depth, data, offset);
    SegmentHead(data, next);
    assert labels + [] == labels;
    hide ExtractName, MapAll, Join, EncodeLabels, StandsAt, ReadSegment;
  }

  /** The fourteen bits of a pointer. */
  function PointerTarget(high: int, low: int): nat
    requires 192 <= high < 256 && 0 <= low < 256
  {
    (high - 192) * 256 + low
  }

  lemma SegmentHead(data: bytes, at: nat)
    ensures at >= |data| || data[at] == 0 ==> ReadSegment(data, at) == Ended([])
    ensures at < |data| && 0 < data[at] < 64 && at + 1 + data[at] > |data| ==> ReadSegment(data, at) == Malformed
    ensures at < |data| && 64 <= data[at] < 192 ==> ReadSegment(data, at) == Malformed
    ensures at < |data| && data[at] >= 192 ==>
              ReadSegment(data, at)
              == if at + 1 == |data| then HalfPointer else Jump(PointerTarget(data[at], data[at + 1]))
  {
  }

  /** So a compressed name, that is a pointer to a whole one, is read as that one. */
  lemma CompressedNameIsRead(lossy: bytes -> bytes, depth: nat, name: bytes, data: bytes, offset: nat, target: nat)
    requires Faithful(lossy) && ValidUtf8(name) && AllProper(Split(name)) && depth > 0 && target < POINTER_TARGETS
    requires StandsAt(EncodeName(name).value, data, target)
    requires StandsAt([192 + target / 256, target % 256], data, offset)
    ensures ExtractName(lossy, depth, data, offset) == Ok(name) && SkipName(data, offset) == Ok(offset + 2)
  {
    hide EncodeName, EncodeLabels, Split, ExtractName, SkipName, ValidUtf8, Join, MapAll;
    assert data[offset..offset + 2][0] == data[offset] && data[offset..offset + 2][1] == data[offset + 1];
    assert PointerTarget(data[offset], data[offset + 1]) == target;
    NothingEncoded();
    assert StandsAt([], data, offset);
    hide StandsAt;
    BehindLabels(lossy, depth, data, offset, []);
    WrittenNameIsRead(lossy, depth - 1, name, data, target);
  }
}
