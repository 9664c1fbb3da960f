/** mDNS packets from the outside: the literal bytes of an advertisement, and what any well-formed packet announces. */
module Packets {
  import opened Bytes
  import opened DnsNames
  import opened Advertisement

  // ---- Text ----

  function Text(s: string): bytes
    requires forall i :: 0 <= i < |s| ==> s[i] < 128 as char
  {
    seq(|s|, i requires 0 <= i < |s| => s[i] as int)
  }

  const HEX_DIGITS: string := "0123456789abcdef"

  /** Two lower-case digits for each byte, the high one first. */
  function HexPairs(s: bytes): (r: bytes)
    ensures |r| == 2 * |s|
  {
    seq(2 * |s|, k requires 0 <= k < 2 * |s| =>
      HEX_DIGITS[if k % 2 == 0 then s[k / 2] / 16 else s[k / 2] % 16] as int)
  }

  lemma {:induction false} HexIsPairs(s: bytes)
    ensures Hex(s) == HexPairs(s)
  {
    if s != [] {
      HexIsPairs(s[1..]);
      DigitsOfByte(s[0]);
      forall k | 2 <= k < 2 * |s|
        ensures HexPairs(s)[k] == HexPairs(s[1..])[k - 2]
      {
        assert s[1..][(k - 2) / 2] == s[k / 2];
      }
    }
  }

  lemma DigitsOfByte(b: byte)
    ensures HexDigit(b / 16) == HEX_DIGITS[b / 16] as int && HexDigit(b % 16) == HEX_DIGITS[b % 16] as int
  {
  }

  /** The number that decimal digits stand for. */
  function NumberOf(s: bytes): int {
    if s == [] then 0
    else
      var last: int := s[|s| - 1];
      NumberOf(s[..|s| - 1]) * 10 + (last - 0x30)
  }

  /** A number's text has only digits, no zero in front, and says the number. */
  lemma {:induction false} DecimalSaysNumber(n: nat)
    ensures NumberOf(Decimal(n)) == n
    ensures forall i :: 0 <= i < |Decimal(n)| ==> 0x30 <= Decimal(n)[i] <= 0x39
    ensures n > 0 ==> Decimal(n)[0] != 0x30
  {
    if n >= 10 {
      DecimalSaysNumber(n / 10);
      assert Decimal(n)[..|Decimal(n)| - 1] == Decimal(n / 10);
    } else {
      assert NumberOf([0x30 + n]) == NumberOf([0x30 + n][..0]) * 10 + n;
    }
  }

  // ---- The bytes of an advertisement ----

  /** The eight bytes of a rank, the lowest one first. */
  function RankBytes(rank: u64): bytes {
    seq(8, i requires 0 <= i < 8 => rank / Pow256(i) % 0x100)
  }

  lemma RankBytesAreLittleEndian(rank: u64)
    ensures LittleEndian(rank, 8) == RankBytes(rank)
  {
    forall i | 0 <= i < 8
      ensures LittleEndian(rank, 8)[i] == RankBytes(rank)[i]
    {
      LittleEndianDigits(rank, 8, i);
    }
    hide LittleEndian;
  }

  /** rn.<address>.local and ng.<rank>.local, in lower-case hexadecimal. */
  lemma NamesAreHexadecimal(address: bytes, rank: u64)
    ensures RnName(address) == Text("rn.") + HexPairs(address) + Text(".local")
    ensures NgName(rank) == Text("ng.") + HexPairs(RankBytes(rank)) + Text(".local")
  {
    HexIsPairs(address);
    RankBytesAreLittleEndian(rank);
    HexIsPairs(RankBytes(rank));
    hide Hex, HexPairs, LittleEndian, RankBytes;
    assert Text("rn.") == [0x72, 0x6E, 0x2E] && Text("ng.") == [0x6E, 0x67, 0x2E];
    assert Text(".local") == [0x2E, 0x6C, 0x6F, 0x63, 0x61, 0x6C];
  }

  /** A name of three labels, the first of two and the last of five bytes, as it stands in a packet. */
  function ThreeLabels(first: bytes, second: bytes, last: bytes): bytes
    requires |first| == 2 && |second| <= 62 && |last| == 5
  {
    [2] + first + [|second|] + second + [5] + last + [0]
  }

  /** A response with two answers for one name: its service on port 5353 at a target of 27 bytes, and a text. */
  function LiteralPacket(name: bytes, target: bytes, text: bytes): bytes
    requires |text| <= 25
  {
    [0, 0, 0x84, 0, 0, 0, 0, 2, 0, 0, 0, 0]
    + (name + [0, 33, 0, 1, 0, 0, 0, 120] + [0, 33] + [0, 0, 0, 0, 0x14, 0xE9] + target)
    + (name + [0, 16, 0, 1, 0, 0, 0, 120] + [0, |text| + 1] + [|text|] + text)
  }

  /** The whole packet, byte by byte. */
  lemma AdvertisementBytes(address: bytes, rank: u64)
    requires |address| <= 31
    ensures |Text("rank=") + Decimal(rank)| <= 25
    ensures Packet(address, rank)
         == Ok(LiteralPacket(ThreeLabels(Text("rn"), HexPairs(address), Text("local")),
                             ThreeLabels(Text("ng"), HexPairs(RankBytes(rank)), Text("local")),
                             Text("rank=") + Decimal(rank)))
  {
    hide HexPairs, Hex, LittleEndian, RankBytes, Decimal, EncodeName, ValidUtf8, Text, ThreeLabels, LiteralPacket;
    hide RecordTail, SrvBody, TxtBody, Packet, RnName, Announced;
    RankIsText();
    RankText(rank);
    NamesInPacket(address, rank);
    PacketLayout(address, rank);
    LiteralForm(EncodeName(RnName(address)).value, Announced(address, rank).address, RANK + Decimal(rank));
  }

  lemma LiteralForm(name: bytes, target: bytes, text: bytes)
    requires |target| == 27 && |text| <= 25
    ensures var srv := name + RecordTail(SRV_FIELDS, SrvBody(target, 5353, 0, 0));
            var txt := name + RecordTail(TXT_FIELDS, TxtBody(text));
            LiteralPacket(name, target, text) == HEADER + srv + txt
  {
    SrvTail(target);
    TxtTail(text);
    hide RecordTail, SrvBody, TxtBody;
    Grouped(name, [0, 33, 0, 1, 0, 0, 0, 120], [0, 33], [0, 0, 0, 0, 0x14, 0xE9], target);
    Grouped(name, [0, 16, 0, 1, 0, 0, 0, 120], [0, |text| + 1], [|text|], text);
  }

  lemma Grouped(a: bytes, b: bytes, c: bytes, d: bytes, e: bytes)
    ensures a + b + c + d + e == a + (b + c + d + e)
  {
  }

  lemma RankIsText()
    ensures Text("rank=") == RANK
  {
  }

  lemma NamesInPacket(address: bytes, rank: u64)
    requires |address| <= 31
    ensures EncodeName(RnName(address)) == Ok(ThreeLabels(Text("rn"), HexPairs(address), Text("local")))
    ensures Announced(address, rank).address == ThreeLabels(Text("ng"), HexPairs(RankBytes(rank)), Text("local"))
    ensures |Announced(address, rank).address| == 27
  {
    hide EncodeName, Split, Hex, HexPairs, LittleEndian, RankBytes, RnName, Text;
    HexIsPairs(address);
    RankBytesAreLittleEndian(rank);
    HexIsPairs(RankBytes(rank));
    EncodedService(RN, address);
    NameForm(address);
    LabelsAreText();
    assert |RN| == |NG| == 2 && |LOCAL| == 5;
  }

  lemma LabelsAreText()
    ensures Text("rn") == RN && Text("ng") == NG && Text("local") == LOCAL
  {
  }

  lemma SrvTail(target: bytes)
    requires |target| == 27
    ensures RecordTail(SRV_FIELDS, SrvBody(target, 5353, 0, 0))
         == [0, 33, 0, 1, 0, 0, 0, 120] + [0, 33] + [0, 0, 0, 0, 0x14, 0xE9] + target
  {
    TwoBytes(0);
    TwoBytes(5353);
    TwoBytes(33);
    hide BigEndian;
    assert SrvBody(target, 5353, 0, 0) == [0, 0, 0, 0, 0x14, 0xE9] + target;
  }

  lemma TxtTail(text: bytes)
    requires |text| <= 25
    ensures RecordTail(TXT_FIELDS, TxtBody(text)) == [0, 16, 0, 1, 0, 0, 0, 120] + [0, |text| + 1] + [|text|] + text
  {
    TwoBytes(|text| + 1);
    hide BigEndian;
  }

  lemma TwoBytes(n: u16)
    ensures BigEndian(n, 2) == [n / 0x100, n % 0x100]
  {
    assert BigEndian(n / 0x100, 1) == BigEndian(0, 0) + [n / 0x100];
  }

  // ---- Packets of any sender ----

  /** A question: a name, and its type and class. */
  datatype Question = Question(name: bytes, fields: bytes)

  /** An answer: a name, its type, class and time to live, and its data. */
  datatype Answer = Answer(name: bytes, fields: bytes, body: bytes)

  ghost predicate GoodQuestion(q: Question) {
    AllProper(Split(q.name)) && |q.fields| == 4
  }

  ghost predicate GoodAnswer(a: Answer) {
    AllProper(Split(a.name)) && ValidUtf8(a.name) && |a.fields| == 8 && |a.body| < U16
  }

  ghost function EncodedName(name: bytes): bytes
    requires AllProper(Split(name))
  {
    EncodeName(name).value
  }

  ghost function EncodeQuestion(q: Question): bytes
    requires GoodQuestion(q)
  {
    EncodedName(q.name) + q.fields
  }

  ghost function EncodeQuestions(qs: seq<Question>): bytes
    requires forall i :: 0 <= i < |qs| ==> GoodQuestion(qs[i])
  {
    if qs == [] then [] else EncodeQuestion(qs[0]) + EncodeQuestions(qs[1..])
  }

  ghost function EncodeAnswer(a: Answer): bytes
    requires GoodAnswer(a)
  {
    EncodedName(a.name) + (a.fields + [|a.body| / 0x100, |a.body| % 0x100] + a.body)
  }

  ghost function EncodeAnswers(answers: seq<Answer>): bytes
    requires forall i :: 0 <= i < |answers| ==> GoodAnswer(answers[i])
  {
    if answers == [] then [] else EncodeAnswer(answers[0]) + EncodeAnswers(answers[1..])
  }

  /** Questions are skipped, each with its name and four bytes. */
  lemma QuestionsAreSkipped(data: bytes, offset: nat, qs: seq<Question>)
    requires forall i :: 0 <= i < |qs| ==> GoodQuestion(qs[i])
    requires StandsAt(EncodeQuestions(qs), data, offset)
    ensures SkipQuestions(data, offset, |qs|) == Ok(Some(offset + |EncodeQuestions(qs)|))
  {
    hide StandsAt, EncodeQuestions, GoodQuestion, SkipQuestions;
    QuestionsThenMore(data, offset, qs, |qs|);
    NoQuestions(data, offset + |EncodeQuestions(qs)|);
  }

  lemma {:induction false} QuestionsThenMore(data: bytes, offset: nat, qs: seq<Question>, n: nat)
    requires forall i :: 0 <= i < |qs| ==> GoodQuestion(qs[i])
    requires StandsAt(EncodeQuestions(qs), data, offset) && |qs| <= n
    ensures SkipQuestions(data, offset, n) == SkipQuestions(data, offset + |EncodeQuestions(qs)|, n - |qs|)
    decreases |qs|
  {
    hide StandsAt, EncodeQuestion, GoodQuestion, SkipQuestions;
    if qs != [] {
      var q, rest := qs[0], EncodeQuestions(qs[1..]);
      StandsAtParts(EncodeQuestion(q), rest, data, offset);
      OneQuestion(data, offset, q, n);
      QuestionsThenMore(data, offset + |EncodeQuestion(q)|, qs[1..], n - 1);
    }
  }

  lemma NoQuestions(data: bytes, offset: nat)
    ensures SkipQuestions(data, offset, 0) == Ok(Some(offset))
  {
  }

  lemma OneQuestion(data: bytes, offset: nat, q: Question, n: nat)
    requires n > 0 && GoodQuestion(q) && StandsAt(EncodeQuestion(q), data, offset)
    ensures SkipQuestions(data, offset, n) == SkipQuestions(data, offset + |EncodeQuestion(q)|, n - 1)
  {
    hide StandsAt, EncodeName, Split, SkipName;
    var name := EncodedName(q.name);
    StandsAtParts(name, q.fields, data, offset);
    WrittenNameIsSkipped(q.name, data, offset);
    StandsInside(q.fields, data, offset + |name|);
  }

  lemma StandsInside(s: bytes, data: bytes, offset: nat)
    requires StandsAt(s, data, offset)
    ensures offset + |s| <= |data|
  {
  }

  /** The record stands for the answer. */
  ghost predicate Matches(data: bytes, r: Rec, a: Answer)
    requires GoodAnswer(a)
  {
    && StandsAt(EncodedName(a.name), data, r.name)
    && r.kind == U16At(a.fields, 0) && r.cls == U16At(a.fields, 2) && r.len == |a.body|
    && RecordStands(data, r, a.body)
  }

  /** Answers are met one after the other, and then what stands behind them. */
  lemma {:induction false} AnswersThenMore(data: bytes, offset: nat, answers: seq<Answer>, n: nat)
      returns (records: seq<Rec>)
    requires forall i :: 0 <= i < |answers| ==> GoodAnswer(answers[i])
    requires StandsAt(EncodeAnswers(answers), data, offset) && |answers| <= n
    ensures |records| == |answers|
    ensures forall i :: 0 <= i < |answers| ==> Matches(data, records[i], answers[i])
    ensures var rest := WalkAnswers(data, offset + |EncodeAnswers(answers)|, n - |answers|);
            WalkAnswers(data, offset, n) == Walk(records + rest.records, rest.end, rest.complete)
    decreases |answers|
  {
    hide StandsAt, EncodeName, Split, EncodeAnswer, WalkAnswers, Matches, GoodAnswer, ValidUtf8;
    if answers == [] {
      records := [];
      assert [] + WalkAnswers(data, offset, n).records == WalkAnswers(data, offset, n).records;
    } else {
      var a, rest := answers[0], EncodeAnswers(answers[1..]);
      StandsAtParts(EncodeAnswer(a), rest, data, offset);
      var r := AnswerIsMet(data, offset, a, n);
      var others := AnswersThenMore(data, offset + |EncodeAnswer(a)|, answers[1..], n - 1);
      records := [r] + others;
      var more := WalkAnswers(data, offset + |EncodeAnswers(answers)|, n - |answers|).records;
      assert [r] + (others + more) == records + more;
    }
  }

  lemma AnswerIsMet(data: bytes, offset: nat, a: Answer, n: nat) returns (r: Rec)
    requires n > 0 && GoodAnswer(a) && StandsAt(EncodeAnswer(a), data, offset)
    ensures Matches(data, r, a) && r.body + r.len == offset + |EncodeAnswer(a)|
    ensures var rest := WalkAnswers(data, offset + |EncodeAnswer(a)|, n - 1);
            WalkAnswers(data, offset, n) == Walk([r] + rest.records, rest.end, rest.complete)
  {
    hide StandsAt, EncodeName, Split, WalkAnswers, U16At, RecordTail, ValidUtf8;
    ProperNamesEncode(a.name);
    TailOfAnswer(a);
    r := WrittenRecordIsMet(data, offset, a.name, a.fields, a.body, n);
    var name := EncodedName(a.name);
    StandsAtParts(name, RecordTail(a.fields, a.body), data, offset);
  }

  lemma TailOfAnswer(a: Answer)
    requires |a.fields| == 8 && |a.body| < U16
    ensures RecordTail(a.fields, a.body) == a.fields + [|a.body| / 0x100, |a.body| % 0x100] + a.body
    ensures |RecordTail(a.fields, a.body)| == 10 + |a.body|
  {
    TwoBytes(|a.body|);
    hide BigEndian;
  }

  // ---- What answers announce ----

  /**
   * The peer an answer means: a service of class 1 with at least six bytes of data announces its name, with priority,
   * weight and port as the first six bytes and the rest as address; anything else announces nobody.
   */
  ghost function PeerMeant(lossy: bytes -> bytes, a: Answer): seq<Discovered>
    requires GoodAnswer(a)
  {
    var b := a.body;
    if a.fields[..4] == [0, 33, 0, 1] && |b| >= 6 then
      var address := if |b| == 6 then [] else lossy(b[6..]);
      [Discovered(a.name, address, U16At(b, 4), U16At(b, 0), U16At(b, 2))]
    else []
  }

  /** The peers that answers mean, in their order. */
  ghost function PeersMeant(lossy: bytes -> bytes, answers: seq<Answer>): seq<Discovered>
    requires forall i :: 0 <= i < |answers| ==> GoodAnswer(answers[i])
  {
    if answers == [] then []
    else PeersMeant(lossy, answers[..|answers| - 1]) + PeerMeant(lossy, answers[|answers| - 1])
  }

  /** A service record means the peer, with the priority, the weight, the port and the target that were written. */
  lemma ServiceMeansWhatWasWritten(
      lossy: bytes -> bytes, name: bytes, target: bytes, port: u16, priority: u16, weight: u16)
    requires AllProper(Split(name)) && ValidUtf8(name)
    requires AllProper(Split(target)) && |EncodeName(target).value| < U16 - 6
    ensures var t := EncodeName(target).value;
            var a := Answer(name, SRV_FIELDS, SrvBody(t, port, priority, weight));
            && GoodAnswer(a) && SrvRecord(name, target, port, priority, weight) == Ok(EncodeAnswer(a))
            && PeerMeant(lossy, a) == [Discovered(name, lossy(t), port, priority, weight)]
  {
    hide EncodeName, Split, ValidUtf8, RecordTail, BigEndian;
    ProperNamesEncode(name);
    ProperNamesEncode(target);
    var t := EncodeName(target).value;
    NameIsNotNothing(target);
    ServiceBody(t, port, priority, weight);
    TailOfAnswer(Answer(name, SRV_FIELDS, SrvBody(t, port, priority, weight)));
    hide SrvBody;
    var body := SrvBody(t, port, priority, weight);
    assert body[6..] == t;
  }

  lemma NameIsNotNothing(name: bytes)
    requires AllProper(Split(name))
    ensures EncodeName(name).Ok? && EncodeName(name).value != []
  {
    hide Split;
  }

  lemma ServiceBody(t: bytes, port: u16, priority: u16, weight: u16)
    ensures SrvBody(t, port, priority, weight)
         == [priority / 0x100, priority % 0x100, weight / 0x100, weight % 0x100, port / 0x100, port % 0x100] + t
  {
    TwoBytes(priority);
    TwoBytes(weight);
    TwoBytes(port);
    hide BigEndian;
  }

  /** A text record has the length of its text in one byte before it. */
  lemma TextRecordBytes(name: bytes, text: bytes)
    requires AllProper(Split(name)) && |text| < 0x100
    ensures TxtRecord(name, text)
         == Ok(EncodedName(name) + ([0, 16, 0, 1, 0, 0, 0, 120]
                                    + [(|text| + 1) / 0x100, (|text| + 1) % 0x100] + ([|text|] + text)))
  {
    hide EncodeName, Split, RecordTail;
    ProperNamesEncode(name);
    TailOfAnswer(Answer(name, TXT_FIELDS, TxtBody(text)));
  }

  /** A record that stands for an answer adds the peer the answer means. */
  lemma MatchingPeer(lossy: bytes -> bytes, depth: nat, data: bytes, r: Rec, a: Answer)
    requires Faithful(lossy) && GoodAnswer(a) && Matches(data, r, a)
    ensures PeersOf(lossy, depth, data, r) == Ok(PeerMeant(lossy, a))
  {
    hide StandsAt, Split, ValidUtf8, ExtractName, EncodeName;
    WrittenNameIsRead(lossy, depth, a.name, data, r.name);
    KindMeant(a.fields);
    if |a.body| >= 6 {
      BodyStands(data, r, a.body);
    }
    hide U16At;
  }

  lemma KindMeant(fields: bytes)
    requires |fields| == 8
    ensures fields[..4] == [0, 33, 0, 1] <==> U16At(fields, 0) == 0x0021 && U16At(fields, 2) == 0x0001
  {
    assert forall i :: 0 <= i < 4 ==> fields[..4][i] == fields[i];
  }

  lemma BodyStands(data: bytes, r: Rec, body: bytes)
    requires RecordStands(data, r, body) && r.len == |body| >= 6
    ensures data[r.body + 6..r.body + r.len] == body[6..]
    ensures U16At(data, r.body) == U16At(body, 0) && U16At(data, r.body + 2) == U16At(body, 2)
    ensures U16At(data, r.body + 4) == U16At(body, 4)
  {
    var window := data[r.body..r.body + r.len];
    assert forall i :: 0 <= i < 6 ==> data[r.body + i] == window[i] == body[i];
    assert data[r.body + 6..r.body + r.len] == window[6..];
  }

  lemma {:induction false} AllMatchingPeers(
      lossy: bytes -> bytes, depth: nat, data: bytes, records: seq<Rec>, answers: seq<Answer>)
    requires Faithful(lossy) && |records| == |answers|
    requires forall i :: 0 <= i < |answers| ==> GoodAnswer(answers[i])
    requires forall i :: 0 <= i < |answers| ==> Matches(data, records[i], answers[i])
    ensures Surveyed(lossy, depth, data, records) == Survey(PeersMeant(lossy, answers), None)
    decreases |answers|
  {
    hide Faithful, Matches, Surveyed, PeersOf, PeerMeant, Split, ValidUtf8;
    if answers == [] {
      NothingSurveyed(lossy, depth, data);
    } else {
      var n := |answers| - 1;
      AllMatchingPeers(lossy, depth, data, records[..n], answers[..n]);
      MatchingPeer(lossy, depth, data, records[n], answers[n]);
      SurveyOneMore(lossy, depth, data, records[..n], records[n]);
      assert records[..n] + [records[n]] == records;
    }
  }

  // ---- Whole responses ----

  /** A response announces exactly the peers its answers mean, in order, whatever follows them. */
  lemma ResponseAnnounces(
      lossy: bytes -> bytes, depth: nat, head: bytes, qs: seq<Question>, answers: seq<Answer>, t: bytes)
    requires Faithful(lossy)
    requires forall i :: 0 <= i < |qs| ==> GoodQuestion(qs[i])
    requires forall i :: 0 <= i < |answers| ==> GoodAnswer(answers[i])
    requires |head| == 12 && head[2] >= 0x80 && U16At(head, 4) == |qs| && U16At(head, 6) == |answers|
    ensures Processed(lossy, depth, head + EncodeQuestions(qs) + EncodeAnswers(answers) + t)
         == Processing(PeersMeant(lossy, answers), Ok(()))
  {
    hide GoodAnswer, GoodQuestion, EncodeQuestions, EncodeAnswers, WalkAnswers, Processed, U16At, PeersMeant;
    var q, a := EncodeQuestions(qs), EncodeAnswers(answers);
    NoMoreAnswers(head + q + a + t, 12 + |q| + |a|);
    var more := RestDecides(lossy, depth, head, qs, answers, t);
  }

  /** Answers that are there are announced, whatever becomes of the answers announced behind them. */
  lemma RestDecides(
      lossy: bytes -> bytes, depth: nat, head: bytes, qs: seq<Question>, answers: seq<Answer>, t: bytes)
      returns (rest: Walk)
    requires Faithful(lossy)
    requires forall i :: 0 <= i < |qs| ==> GoodQuestion(qs[i])
    requires forall i :: 0 <= i < |answers| ==> GoodAnswer(answers[i])
    requires |head| == 12 && head[2] >= 0x80 && U16At(head, 4) == |qs| && U16At(head, 6) >= |answers|
    ensures var data := head + EncodeQuestions(qs) + EncodeAnswers(answers) + t;
            var offset := 12 + |EncodeQuestions(qs)| + |EncodeAnswers(answers)|;
            && rest == WalkAnswers(data, offset, U16At(head, 6) - |answers|)
            && (rest.records == [] ==>
                  Processed(lossy, depth, data)
                  == Processing(PeersMeant(lossy, answers),
                                if rest.complete.Err? then Err(rest.complete.error) else Ok(())))
  {
    hide GoodAnswer, GoodQuestion, Faithful, EncodeQuestions, EncodeAnswers, Surveyed, WalkPacket, WalkAnswers;
    hide StandsAt, U16At, Matches, PeersMeant;
    var q, a := EncodeQuestions(qs), EncodeAnswers(answers);
    var data := head + q + a + t;
    PartsStand(head, q, a, t);
    QuestionsAreSkipped(data, 12, qs);
    var records := AnswersThenMore(data, 12 + |q|, answers, U16At(head, 6));
    PacketIsHeaded(data, head, 12 + |q|);
    AllMatchingPeers(lossy, depth, data, records, answers);
    rest := WalkAnswers(data, 12 + |q| + |a|, U16At(head, 6) - |answers|);
    assert records + [] == records;
  }

  /**
   * A response that breaks off in an answer announces the answers before; it is an error when the break is in a name,
   * and none when it is behind the name.
   */
  lemma BrokenResponse(
      lossy: bytes -> bytes, depth: nat, head: bytes, qs: seq<Question>, answers: seq<Answer>, a: Answer, k: nat)
    requires Faithful(lossy) && GoodAnswer(a) && k < |EncodeAnswer(a)|
    requires forall i :: 0 <= i < |qs| ==> GoodQuestion(qs[i])
    requires forall i :: 0 <= i < |answers| ==> GoodAnswer(answers[i])
    requires |head| == 12 && head[2] >= 0x80 && U16At(head, 4) == |qs| && U16At(head, 6) > |answers|
    ensures Processed(lossy, depth, head + EncodeQuestions(qs) + EncodeAnswers(answers) + EncodeAnswer(a)[..k])
         == Processing(PeersMeant(lossy, answers), if k < |EncodedName(a.name)| then Err(BadName) else Ok(()))
  {
    hide GoodQuestion, Faithful, EncodeQuestions, EncodeAnswers, EncodeAnswer, EncodedName, WalkAnswers;
    hide Processed, U16At, PeersMeant, ValidUtf8;
    var front, cut := head + EncodeQuestions(qs) + EncodeAnswers(answers), EncodeAnswer(a)[..k];
    BrokenAnswer(front + cut, |front|, a, k, U16At(head, 6) - |answers|);
    var rest := RestDecides(lossy, depth, head, qs, answers, cut);
  }

  /** A response that breaks off in a question announces nobody; again only a break in the name is an error. */
  lemma BrokenQuestion(
      lossy: bytes -> bytes, depth: nat, head: bytes, qs: seq<Question>, q: Question, k: nat)
    requires GoodQuestion(q) && k < |EncodeQuestion(q)|
    requires forall i :: 0 <= i < |qs| ==> GoodQuestion(qs[i])
    requires |head| == 12 && head[2] >= 0x80 && U16At(head, 4) > |qs|
    ensures Processed(lossy, depth, head + EncodeQuestions(qs) + EncodeQuestion(q)[..k])
         == Processing([], if k < |EncodedName(q.name)| then Err(BadName) else Ok(()))
  {
    hide GoodQuestion, EncodeQuestions, EncodeQuestion, EncodedName, SkipQuestions, U16At, StandsAt, Processed;
    var before, cut := EncodeQuestions(qs), EncodeQuestion(q)[..k];
    var data, n := head + before + cut, U16At(head, 4);
    TwoPartsStand(head, before, cut);
    QuestionsThenMore(data, 12, qs, n);
    CutQuestion(data, 12 + |before|, q, k, n - |qs|);
    StopsInQuestions(lossy, depth, head, data);
  }

  lemma TwoPartsStand(head: bytes, q: bytes, cut: bytes)
    requires |head| == 12
    ensures var data := head + q + cut;
            head <= data && StandsAt(q, data, 12) && data[12 + |q|..] == cut
  {
    var data := head + q + cut;
    assert data[12..12 + |q|] == q;
  }

  lemma StopsInQuestions(lossy: bytes -> bytes, depth: nat, head: bytes, data: bytes)
    requires |head| == 12 && head <= data && head[2] >= 0x80
    requires SkipQuestions(data, 12, U16At(head, 4)) in {Err(BadName), Ok(None)}
    ensures Processed(lossy, depth, data)
         == Processing([], if SkipQuestions(data, 12, U16At(head, 4)).Err? then Err(BadName) else Ok(()))
  {
    hide SkipQuestions;
    assert forall i :: 0 <= i < 12 ==> data[i] == head[i];
    NothingSurveyed(lossy, depth, data);
    hide Surveyed;
  }

  lemma CutQuestion(data: bytes, offset: nat, q: Question, k: nat, n: nat)
    requires n > 0 && GoodQuestion(q) && k < |EncodeQuestion(q)|
    requires offset <= |data| && data[offset..] == EncodeQuestion(q)[..k]
    ensures SkipQuestions(data, offset, n) == if k < |EncodedName(q.name)| then Err(BadName) else Ok(None)
  {
    hide SkipName, EncodeName, Split, StandsAt;
    CutFollows(data, offset, EncodedName(q.name), q.fields, k);
    if k < |EncodedName(q.name)| {
      BrokenGoodName(data, offset, q.name);
    } else {
      WrittenNameIsSkipped(q.name, data, offset);
    }
  }

  lemma BrokenAnswer(data: bytes, offset: nat, a: Answer, k: nat, n: nat)
    requires n > 0 && GoodAnswer(a) && k < |EncodeAnswer(a)|
    requires offset <= |data| && data[offset..] == EncodeAnswer(a)[..k]
    ensures var walk := WalkAnswers(data, offset, n);
            walk.records == [] && walk.complete == if k < |EncodedName(a.name)| then Err(BadName) else Ok(false)
  {
    hide SkipName, EncodeName, Split, StandsAt, ValidUtf8;
    var name := EncodedName(a.name);
    var tail := a.fields + [|a.body| / 0x100, |a.body| % 0x100] + a.body;
    CutFollows(data, offset, name, tail, k);
    if k < |name| {
      BrokenGoodName(data, offset, a.name);
    } else {
      WrittenNameIsSkipped(a.name, data, offset);
      var next := offset + |name|;
      if next + 10 <= |data| {
        assert data[next..][8] == data[next + 8] && data[next..][9] == data[next + 9];
        assert tail[8] == |a.body| / 0x100 && tail[9] == |a.body| % 0x100;
      }
    }
  }

  lemma CutFollows(data: bytes, offset: nat, name: bytes, tail: bytes, k: nat)
    requires k <= |name + tail| && offset <= |data| && data[offset..] == (name + tail)[..k]
    ensures k < |name| ==> data[offset..] == name[..k]
    ensures k >= |name| ==> StandsAt(name, data, offset) && data[offset + |name|..] == tail[..k - |name|]
  {
    if k >= |name| {
      assert data[offset..][..|name|] == name;
      assert data[offset..][|name|..] == data[offset + |name|..];
    }
  }

  lemma BrokenGoodName(data: bytes, offset: nat, name: bytes)
    requires AllProper(Split(name)) && offset <= |data|
    requires |data| - offset < |EncodedName(name)| && data[offset..] == EncodedName(name)[..|data| - offset]
    ensures SkipName(data, offset) == Err(BadName)
  {
    hide SkipName;
    BrokenName(data, offset, Split(name));
  }

  /** A name that breaks off is not skipped. */
  lemma {:induction false} BrokenName(data: bytes, offset: nat, labels: seq<bytes>)
    requires AllProper(labels) && offset <= |data|
    requires |data| - offset < |EncodeLabels(labels) + [0]|
    requires data[offset..] == (EncodeLabels(labels) + [0])[..|data| - offset]
    ensures SkipName(data, offset) == Err(BadName)
    decreases |labels|
  {
    if offset < |data| && labels != [] {
      var first, n := labels[0], |labels[0]|;
      var whole := EncodeLabels(labels) + [0];
      var others := EncodeLabels(labels[1..]) + [0];
      assert whole == [n] + first + others;
      assert data[offset] == data[offset..][0] == n;
      var next := offset + 1 + n;
      if next <= |data| {
        assert data[next..] == data[offset..][1 + n..] == others[..|data| - next];
        BrokenName(data, next, labels[1..]);
      }
    }
  }

  lemma PartsStand(head: bytes, q: bytes, a: bytes, t: bytes)
    requires |head| == 12
    ensures var data := head + q + a + t;
            head <= data && StandsAt(q, data, 12) && StandsAt(a, data, 12 + |q|)
  {
    var data := head + q + a + t;
    assert data[12..12 + |q|] == q && data[12 + |q|..12 + |q| + |a|] == a;
  }

  lemma PacketIsHeaded(data: bytes, head: bytes, answers: nat)
    requires |head| == 12 && head <= data && head[2] >= 0x80
    requires SkipQuestions(data, 12, U16At(head, 4)) == Ok(Some(answers))
    ensures WalkPacket(data) == WalkAnswers(data, answers, U16At(head, 6))
  {
    hide SkipQuestions, WalkAnswers;
    assert forall i :: 0 <= i < 12 ==> data[i] == head[i];
  }

  /** Packets shorter than a header, and queries whatever they hold, are ignored. */
  lemma OthersAreIgnored(lossy: bytes -> bytes, depth: nat, data: bytes)
    requires |data| < 12 || data[2] < 0x80
    ensures Processed(lossy, depth, data) == Processing([], Ok(()))
  {
  }
}
