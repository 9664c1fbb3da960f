/** mDNS advertisements: building the packet (RFC 1035 section 4.1, RFC 2782) and walking received ones. */
module Advertisement {
  import opened Bytes
  import opened Cursors
  import opened DnsNames

  // ---- Text ----

  function HexDigit(n: nat): byte
    requires n < 16
  {
    if n < 10 then 0x30 + n else 0x57 + n
  }

  function Hex(s: bytes): (r: bytes)
    ensures |r| == 2 * |s|
    ensures forall i :: 0 <= i < |r| ==> 0x30 <= r[i] < 0x80
  {
    if s == [] then [] else [HexDigit(s[0] / 16), HexDigit(s[0] % 16)] + Hex(s[1..])
  }

  function Decimal(n: nat): (r: bytes)
    ensures r != []
  {
    if n < 10 then [0x30 + n] else Decimal(n / 10) + [0x30 + n % 10]
  }

  const RN: bytes := [0x72, 0x6E]
  const NG: bytes := [0x6E, 0x67]
  const LOCAL: bytes := [0x6C, 0x6F, 0x63, 0x61, 0x6C]
  const RANK: bytes := [0x72, 0x61, 0x6E, 0x6B, 0x3D]

  /** rn.<hex of the address>.local */
  function RnName(address: bytes): bytes {
    RN + [DOT] + (Hex(address) + [DOT] + LOCAL)
  }

  /** ng.<hex of the rank, low byte first>.local */
  function NgName(rank: u64): bytes {
    NG + [DOT] + (Hex(LittleEndian(rank, 8)) + [DOT] + LOCAL)
  }

  // ---- Building ----

  const HEADER: bytes := [0x00, 0x00, 0x84, 0x00, 0x00, 0x00, 0x00, 0x02, 0x00, 0x00, 0x00, 0x00]

  /** Type, class IN and a time to live of 120 seconds. */
  const SRV_FIELDS: bytes := [0x00, 0x21, 0x00, 0x01, 0x00, 0x00, 0x00, 120]
  const TXT_FIELDS: bytes := [0x00, 0x10, 0x00, 0x01, 0x00, 0x00, 0x00, 120]

  /** What follows the name of a record: its fields, the length of its data, and the data. */
  function RecordTail(fields: bytes, body: bytes): bytes {
    fields + BigEndian(|body| % U16, 2) + body
  }

  function SrvBody(target: bytes, port: u16, priority: u16, weight: u16): bytes {
    BigEndian(priority, 2) + BigEndian(weight, 2) + BigEndian(port, 2) + target
  }

  function TxtBody(text: bytes): bytes {
    [|text| % 0x100] + text
  }

  function SrvRecord(name: bytes, target: bytes, port: u16, priority: u16, weight: u16): Result<bytes> {
    var n :- EncodeName(name);
    var t :- EncodeName(target);
    Ok(n + RecordTail(SRV_FIELDS, SrvBody(t, port, priority, weight)))
  }

  function TxtRecord(name: bytes, text: bytes): Result<bytes> {
    var n :- EncodeName(name);
    Ok(n + RecordTail(TXT_FIELDS, TxtBody(text)))
  }

  function Packet(address: bytes, rank: u64): Result<bytes> {
    var srv :- SrvRecord(RnName(address), NgName(rank), 5353, 0, 0);
    var txt :- TxtRecord(RnName(address), RANK + Decimal(rank));
    Ok(HEADER + srv + txt)
  }

  /** Writes the record with a blank length and fills the length in at the end. */
  method AddDnsSrvRecord(packet: Buffer, name: bytes, target: bytes, port: u16, priority: u16, weight: u16)
      returns (r: Result<()>)
    modifies packet
    ensures match SrvRecord(name, target, port, priority, weight)
            case Ok(s) => r == Ok(()) && packet.data == old(packet.data) + s
            case Err(e) => r == Err(e) && old(packet.data) <= packet.data
  {
    hide EncodeName, Split, EncodeLabels, ShortLabels;
    r := AddDnsName(packet, name);
    if r.Err? {
      return;
    }
    packet.Append([0x00, 0x21]);
    packet.Append([0x00, 0x01]);
    packet.Append([0x00, 0x00, 0x00, 120]);
    ghost var front := packet.data;
    var dataStart := |packet.data|;
    packet.Append([0x00, 0x00]);
    packet.Append(BigEndian(priority, 2));
    packet.Append(BigEndian(weight, 2));
    packet.Append(BigEndian(port, 2));
    hide BigEndian;
    r := AddDnsName(packet, target);
    if r.Err? {
      return;
    }
    var dataLen := |packet.data| - dataStart - 2;
    var len := BigEndian(dataLen % U16, 2);
    ghost var body := SrvBody(EncodeName(target).value, port, priority, weight);
    assert packet.data == front + [0x00, 0x00] + body;
    packet.data := packet.data[dataStart := len[0]][dataStart + 1 := len[1]];
    assert packet.data == front + len + body;
    assert front == old(packet.data) + EncodeName(name).value + SRV_FIELDS;
  }

  method AddDnsTxtRecord(packet: Buffer, name: bytes, text: bytes) returns (r: Result<()>)
    modifies packet
    ensures match TxtRecord(name, text)
            case Ok(s) => r == Ok(()) && packet.data == old(packet.data) + s
            case Err(e) => r == Err(e) && old(packet.data) <= packet.data
  {
    hide EncodeName, Split, EncodeLabels, ShortLabels;
    r := AddDnsName(packet, name);
    if r.Err? {
      return;
    }
    packet.Append([0x00, 0x10]);
    packet.Append([0x00, 0x01]);
    packet.Append([0x00, 0x00, 0x00, 120]);
    assert packet.data == old(packet.data) + EncodeName(name).value + TXT_FIELDS;
    packet.Append(BigEndian((|text| + 1) % U16, 2));
    packet.Push(|text| % 0x100);
    packet.Append(text);
    assert packet.data == old(packet.data) + (EncodeName(name).value + RecordTail(TXT_FIELDS, TxtBody(text)));
  }

  method CreateMdnsAdvertisementPacket(address: bytes, rank: u64) returns (r: Result<bytes>)
    ensures r == Packet(address, rank)
  {
    hide SrvRecord, TxtRecord;
    var packet := new Buffer();
    packet.Append(HEADER);
    assert packet.data == HEADER;
    var added := AddDnsSrvRecord(packet, RnName(address), NgName(rank), 5353, 0, 0);
    if added.Err? {
      return Err(added.error);
    }
    added := AddDnsTxtRecord(packet, RnName(address), RANK + Decimal(rank));
    if added.Err? {
      return Err(added.error);
    }
    r := Ok(packet.data);
  }

  // ---- Walking ----

  /** Where a record's name and data stand, and its type and class. */
  datatype Rec = Rec(name: nat, kind: u16, cls: u16, body: nat, len: u16)

  /** The records met, where the walk stopped, and whether it met all that were announced. */
  datatype Walk = Walk(records: seq<Rec>, end: nat, complete: Result<bool>)

  datatype Discovered = Discovered(name: bytes, address: bytes, port: u16, priority: u16, weight: u16)

  function SkipQuestions(data: bytes, offset: nat, n: nat): (r: Result<Option<nat>>)
    ensures r.Ok? && r.value.Some? ==> offset <= r.value.value && (offset <= |data| ==> r.value.value <= |data|)
    decreases n
  {
    if n == 0 then Ok(Some(offset))
    else
      var next :- SkipName(data, offset);
      if next + 4 > |data| then Ok(None) else SkipQuestions(data, next + 4, n - 1)
  }

  function WalkAnswers(data: bytes, offset: nat, n: nat): Walk
    decreases n
  {
    if n == 0 then Walk([], offset, Ok(true))
    else
      match SkipName(data, offset)
      case Err(e) => Walk([], offset, Err(e))
      case Ok(next) =>
        if next + 10 > |data| then Walk([], next, Ok(false))
        else
          var r := RecordAt(data, offset, next);
          if r.body + r.len > |data| then Walk([], r.body, Ok(false))
          else
            var rest := WalkAnswers(data, r.body + r.len, n - 1);
            rest.(records := [r] + rest.records)
  }

  function RecordAt(data: bytes, name: nat, next: nat): Rec
    requires next + 10 <= |data|
  {
    Rec(name, U16At(data, next), U16At(data, next + 2), next + 10, U16At(data, next + 8))
  }

  /** The walk over a whole packet; queries and packets without a full header are ignored. */
  function WalkPacket(data: bytes): Walk {
    if |data| < 12 || data[2] < 0x80 then Walk([], 0, Ok(false))
    else
      match SkipQuestions(data, 12, U16At(data, 4))
      case Err(e) => Walk([], 12, Err(e))
      case Ok(None) => Walk([], 12, Ok(false))
      case Ok(Some(offset)) => WalkAnswers(data, offset, U16At(data, 6))
  }

  predicate IsService(r: Rec) {
    r.kind == 0x0021 && r.cls == 0x0001
  }

  predicate Inside(r: Rec, data: bytes) {
    r.body + r.len <= |data|
  }

  /** The peer an SRV record announces; its address is the raw target name as text. */
  function ParseService(lossy: bytes -> bytes, depth: nat, data: bytes, r: Rec): Result<Discovered>
    requires Inside(r, data)
  {
    if r.len < 6 then Err(TooShort)
    else
      var name :- ExtractName(lossy, depth, data, r.name);
      var address := if r.len > 6 then lossy(data[r.body + 6..r.body + r.len]) else [];
      Ok(Discovered(name, address, U16At(data, r.body + 4), U16At(data, r.body), U16At(data, r.body + 2)))
  }

  predicate Crash(e: Error) {
    e == IndexOutOfRange || e == StackOverflow
  }

  /** The peers a record adds: at most one, and none when it cannot be parsed; only a crash stops the processing. */
  function PeersOf(lossy: bytes -> bytes, depth: nat, data: bytes, r: Rec): Result<seq<Discovered>> {
    if !IsService(r) || !Inside(r, data) then Ok([])
    else
      match ParseService(lossy, depth, data, r)
      case Ok(peer) => Ok([peer])
      case Err(e) => if Crash(e) then Err(e) else Ok([])
  }

  /** The peers found in records met one after the other, and the crash that ended it, if any. */
  datatype Survey = Survey(peers: seq<Discovered>, crash: Option<Error>)

  function Surveyed(lossy: bytes -> bytes, depth: nat, data: bytes, records: seq<Rec>): Survey {
    if records == [] then Survey([], None)
    else
      var earlier := Surveyed(lossy, depth, data, records[..|records| - 1]);
      if earlier.crash.Some? then earlier
      else
        match PeersOf(lossy, depth, data, records[|records| - 1])
        case Ok(peers) => Survey(earlier.peers + peers, None)
        case Err(e) => Survey(earlier.peers, Some(e))
  }

  /** What processing comes to: the peers found, and a crash, an error or success. */
  datatype Processing = Processing(peers: seq<Discovered>, outcome: Result<()>)

  function ProcessingOf(lossy: bytes -> bytes, depth: nat, data: bytes, walk: Walk): Processing {
    var survey := Surveyed(lossy, depth, data, walk.records);
    Processing(survey.peers,
               if survey.crash.Some? then Err(survey.crash.value)
               else if walk.complete.Err? then Err(walk.complete.error)
               else Ok(()))
  }

  function Processed(lossy: bytes -> bytes, depth: nat, data: bytes): Processing {
    ProcessingOf(lossy, depth, data, WalkPacket(data))
  }

  /** Records follow one another, lie inside the packet, and take at least eleven bytes each. */
  predicate Tiled(data: bytes, offset: nat, records: seq<Rec>) {
    forall i :: 0 <= i < |records| ==>
      && records[i].name == (if i == 0 then offset else records[i - 1].body + records[i - 1].len)
      && records[i].name + 11 <= records[i].body + records[i].len <= |data|
  }

  /** On any bytes whatsoever the walk stays inside the packet and moves on by at least eleven bytes per record. */
  lemma {:induction false} WalkIsTiled(data: bytes, offset: nat, n: nat)
    ensures Tiled(data, offset, WalkAnswers(data, offset, n).records)
    ensures |WalkAnswers(data, offset, n).records| <= n
    ensures WalkAnswers(data, offset, n).complete == Ok(true) ==>
              |WalkAnswers(data, offset, n).records| == n
              && WalkAnswers(data, offset, n).end
                 == (if n == 0 then offset else WalkAnswers(data, offset, n).records[n - 1].body
                                                + WalkAnswers(data, offset, n).records[n - 1].len)
    decreases n
  {
    hide SkipName, U16At;
    if n > 0 && SkipName(data, offset).Ok? {
      var next := SkipName(data, offset).value;
      if next + 10 <= |data| {
        var r := RecordAt(data, offset, next);
        if Inside(r, data) {
          WalkIsTiled(data, r.body + r.len, n - 1);
          var rest := WalkAnswers(data, r.body + r.len, n - 1).records;
          assert forall i :: 1 <= i <= |rest| ==> ([r] + rest)[i] == rest[i - 1];
        }
      }
    }
  }

  /** So does the walk over a whole packet, behind its header and questions. */
  lemma PacketWalkIsTiled(data: bytes) returns (offset: nat)
    ensures offset <= |data| && Tiled(data, offset, WalkPacket(data).records)
    ensures forall i :: 0 <= i < |WalkPacket(data).records| ==> Inside(WalkPacket(data).records[i], data)
  {
    offset := 0;
    if |data| >= 12 && data[2] >= 0x80 {
      var questions := SkipQuestions(data, 12, U16At(data, 4));
      if questions.Ok? && questions.value.Some? {
        offset := questions.value.value;
        WalkIsTiled(data, offset, U16At(data, 6));
      }
    }
    assert Tiled(data, offset, WalkPacket(data).records);
  }

  // ---- Processing ----

  class P2PPolicy {
    const lossy: bytes -> bytes
    /** How many nested calls the stack has room for. */
    const depth: nat
    var discovered: seq<Discovered>

    constructor (lossy: bytes -> bytes, depth: nat)
      ensures this.lossy == lossy && this.depth == depth && discovered == []
    {
      this.lossy := lossy;
      this.depth := depth;
      discovered := [];
    }

    /** Service records that cannot be parsed are passed over; a bad name ends the walk with an error. */
    method ProcessMdnsPacket(data: bytes) returns (r: Result<()>)
      modifies this
      ensures var processing := Processed(lossy, depth, data);
              discovered == old(discovered) + processing.peers && r == processing.outcome
    {
      hide SkipQuestions, WalkAnswers, PeersOf;
      assert discovered + [] == discovered;
      if |data| < 12 || data[2] < 0x80 {
        return Ok(());
      }
      var questions, answers := U16At(data, 4), U16At(data, 6);
      var offset := SkipAllQuestions(data, questions);
      if offset.Err? {
        return Err(offset.error);
      }
      if offset.value.None? {
        return Ok(());
      }
      r := ProcessAnswers(data, offset.value.value, answers);
    }

    method SkipAllQuestions(data: bytes, questions: nat) returns (r: Result<Option<nat>>)
      ensures r == SkipQuestions(data, 12, questions)
    {
      var offset: nat := 12;
      for i := 0 to questions
        invariant SkipQuestions(data, 12, questions) == SkipQuestions(data, offset, questions - i)
      {
        var next := SkipDnsName(data, offset);
        if next.Err? {
          return Err(next.error);
        }
        if next.value + 4 > |data| {
          return Ok(None);
        }
        offset := next.value + 4;
      }
      r := Ok(Some(offset));
    }

    method ProcessAnswers(data: bytes, start: nat, answers: nat) returns (r: Result<()>)
      modifies this
      ensures var processing := ProcessingOf(lossy, depth, data, WalkAnswers(data, start, answers));
              discovered == old(discovered) + processing.peers && r == processing.outcome
    {
      hide WalkAnswers, PeersOf, Surveyed, SkipName;
      ghost var walk := WalkAnswers(data, start, answers);
      var offset: nat := start;
      ghost var records: seq<Rec> := [];
      ghost var peers: seq<Discovered> := [];
      BeforeNothing(walk);
      NothingSurveyed(lossy, depth, data);
      for i := 0 to answers
        invariant walk == Before(records, WalkAnswers(data, offset, answers - i))
        invariant Surveyed(lossy, depth, data, records) == Survey(peers, None)
        invariant discovered == old(discovered) + peers
      {
        AnswerStep(data, offset, answers - i, records);
        var nameOffset := offset;
        var next := SkipDnsName(data, offset);
        if next.Err? {
          return Err(next.error);
        }
        if next.value + 10 > |data| {
          return Ok(());
        }
        var rec := RecordAt(data, nameOffset, next.value);
        if rec.body + rec.len > |data| {
          return Ok(());
        }
        offset := rec.body + rec.len;
        SurveyOneMore(lossy, depth, data, records, rec);
        var added := AddPeers(data, rec);
        if added.Err? {
          SurveyStops(lossy, depth, data, records + [rec], walk.records);
          return Err(added.error);
        }
        peers := peers + PeersOf(lossy, depth, data, rec).value;
        records := records + [rec];
      }
      LastAnswer(data, offset, records);
      r := Ok(());
    }

    /** Looks for a peer in one record; fails on a crash only. */
    method AddPeers(data: bytes, rec: Rec) returns (r: Result<()>)
      requires Inside(rec, data)
      modifies this
      ensures match PeersOf(lossy, depth, data, rec)
              case Ok(peers) => r == Ok(()) && discovered == old(discovered) + peers
              case Err(e) => r == Err(e) && discovered == old(discovered)
    {
      hide ParseService;
      assert discovered + [] == discovered;
      if IsService(rec) {
        var peer := ParseRatnetSrvRecord(data, rec);
        if peer.Ok? {
          discovered := discovered + [peer.value];
        } else if Crash(peer.error) {
          return Err(peer.error);
        }
      }
      r := Ok(());
    }

    method ParseRatnetSrvRecord(data: bytes, rec: Rec) returns (r: Result<Discovered>)
      requires Inside(rec, data)
      ensures r == ParseService(lossy, depth, data, rec)
    {
      hide ExtractName;
      if rec.len < 6 {
        return Err(TooShort);
      }
      var priority, weight, port := U16At(data, rec.body), U16At(data, rec.body + 2), U16At(data, rec.body + 4);
      var target := if rec.len > 6 then lossy(data[rec.body + 6..rec.body + rec.len]) else [];
      var name := ExtractDnsName(lossy, depth, data, rec.name);
      if name.Err? {
        return Err(name.error);
      }
      r := Ok(Discovered(name.value, target, port, priority, weight));
    }
  }

  /** A walk with records met before it. */
  ghost function Before(records: seq<Rec>, rest: Walk): Walk {
    rest.(records := records + rest.records)
  }

  lemma BeforeNothing(walk: Walk)
    ensures Before([], walk) == walk
  {
    assert [] + walk.records == walk.records;
  }

  lemma BeforeTwice(records: seq<Rec>, r: Rec, rest: Walk)
    ensures Before(records, Before([r], rest)) == Before(records + [r], rest)
  {
    assert records + ([r] + rest.records) == records + [r] + rest.records;
  }

  /** One turn of the loop over answers. */
  lemma AnswerStep(data: bytes, offset: nat, n: nat, records: seq<Rec>)
    requires n > 0
    ensures var here := Before(records, WalkAnswers(data, offset, n));
            match SkipName(data, offset)
            case Err(e) => here.records == records && here.complete == Err(e)
            case Ok(next) =>
              if next + 10 > |data| then here.records == records && here.complete == Ok(false)
              else
                var r := RecordAt(data, offset, next);
                if !Inside(r, data) then here.records == records && here.complete == Ok(false)
                else here == Before(records + [r], WalkAnswers(data, r.body + r.len, n - 1))
  {
    hide SkipName, RecordAt;
    assert records + [] == records;
    if SkipName(data, offset).Ok? && SkipName(data, offset).value + 10 <= |data| {
      var r := RecordAt(data, offset, SkipName(data, offset).value);
      if Inside(r, data) {
        BeforeTwice(records, r, WalkAnswers(data, r.body + r.len, n - 1));
      }
    }
  }

  lemma LastAnswer(data: bytes, offset: nat, records: seq<Rec>)
    ensures Before(records, WalkAnswers(data, offset, 0)) == Walk(records, offset, Ok(true))
  {
    assert records + [] == records;
  }

  lemma NothingSurveyed(lossy: bytes -> bytes, depth: nat, data: bytes)
    ensures Surveyed(lossy, depth, data, []) == Survey([], None)
  {
  }

  lemma SurveyOneMore(lossy: bytes -> bytes, depth: nat, data: bytes, records: seq<Rec>, r: Rec)
    ensures var earlier := Surveyed(lossy, depth, data, records);
            Surveyed(lossy, depth, data, records + [r])
            == if earlier.crash.Some? then earlier
               else
                 match PeersOf(lossy, depth, data, r)
                 case Ok(peers) => Survey(earlier.peers + peers, None)
                 case Err(e) => Survey(earlier.peers, Some(e))
  {
    hide PeersOf;
    assert (records + [r])[..|records|] == records;
  }

  /** Nothing happens after a crash. */
  lemma {:induction false} SurveyStops(
      lossy: bytes -> bytes, depth: nat, data: bytes, records: seq<Rec>, more: seq<Rec>)
    requires records <= more && Surveyed(lossy, depth, data, records).crash.Some?
    ensures Surveyed(lossy, depth, data, more) == Surveyed(lossy, depth, data, records)
  {
    hide PeersOf;
    if |records| < |more| {
      SurveyStops(lossy, depth, data, records, more[..|more| - 1]);
    } else {
      assert more == records;
    }
  }

  // ---- The round trip ----

  /** A record with this name and tail, written somewhere in a packet, is the next one the walk meets. */
  lemma WrittenRecordIsMet(data: bytes, offset: nat, name: bytes, fields: bytes, body: bytes, n: nat) returns (r: Rec)
    requires n > 0
    requires AllProper(Split(name)) && |fields| == 8 && |body| < U16
    requires StandsAt(EncodeName(name).value + RecordTail(fields, body), data, offset)
    ensures r == Rec(offset, U16At(fields, 0), U16At(fields, 2), offset + |EncodeName(name).value| + 10, |body|)
    ensures RecordStands(data, r, body)
    ensures WalkAnswers(data, offset, n) == Before([r], WalkAnswers(data, r.body + r.len, n - 1))
  {
    hide EncodeName, StandsAt, Split, AllProper, SkipName, RecordTail, U16At, WalkAnswers, Before;
    ProperNamesEncode(name);
    var encoded := EncodeName(name).value;
    var next := offset + |encoded|;
    StandsAtParts(encoded, RecordTail(fields, body), data, offset);
    WrittenNameIsSkipped(name, data, offset);
    TailIsRead(data, offset, next, fields, body);
    RecordIsMet(data, offset, next, n);
    r := RecordAt(data, offset, next);
  }

  lemma TailIsRead(data: bytes, offset: nat, next: nat, fields: bytes, body: bytes)
    requires |fields| == 8 && |body| < U16 && StandsAt(RecordTail(fields, body), data, next)
    ensures next + 10 + |body| <= |data|
    ensures RecordAt(data, offset, next) == Rec(offset, U16At(fields, 0), U16At(fields, 2), next + 10, |body|)
    ensures RecordStands(data, RecordAt(data, offset, next), body)
  {
    var len := BigEndian(|body| % U16, 2);
    assert RecordTail(fields, body) == fields + len + body;
    hide RecordTail, StandsAt, U16At, BigEndian;
    TailStands(data, next, fields, len, body);
    LengthIsRead(|body|);
  }

  lemma RecordIsMet(data: bytes, offset: nat, next: nat, n: nat)
    requires n > 0
    requires SkipName(data, offset) == Ok(next) && next + 10 <= |data| && Inside(RecordAt(data, offset, next), data)
    ensures var r := RecordAt(data, offset, next);
            WalkAnswers(data, offset, n) == Before([r], WalkAnswers(data, r.body + r.len, n - 1))
  {
    hide SkipName, U16At;
  }

  predicate RecordStands(data: bytes, r: Rec, body: bytes) {
    Inside(r, data) && data[r.body..r.body + r.len] == body
  }

  lemma TailStands(data: bytes, next: nat, fields: bytes, len: bytes, body: bytes)
    requires |fields| == 8 && |len| == 2 && StandsAt(fields + len + body, data, next)
    ensures next + 10 + |body| <= |data| && data[next + 10..next + 10 + |body|] == body
    ensures U16At(data, next) == U16At(fields, 0) && U16At(data, next + 2) == U16At(fields, 2)
    ensures U16At(data, next + 8) == U16At(len, 0)
  {
    assert fields + len + body == fields + (len + body);
    StandsAtParts(fields, len + body, data, next);
    StandsAtParts(len, body, data, next + 8);
    assert forall i :: 0 <= i < 8 ==> data[next + i] == data[next..next + 8][i] == fields[i];
    assert forall i :: 0 <= i < 2 ==> data[next + 8 + i] == data[next + 8..next + 10][i] == len[i];
  }

  lemma LengthIsRead(n: nat)
    requires n < U16
    ensures U16At(BigEndian(n % U16, 2), 0) == n
  {
    assert BigEndian(n / 0x100, 1) == BigEndian(n / 0x10000, 0) + [n / 0x100];
    assert BigEndian(n, 2) == [n / 0x100, n % 0x100];
  }

  /** The labels of a name of the form a.b.local with b in hexadecimal. */
  lemma ServiceLabels(prefix: bytes, s: bytes)
    requires DOT !in prefix
    ensures Split(prefix + [DOT] + (Hex(s) + [DOT] + LOCAL)) == [prefix, Hex(s), LOCAL]
  {
    hide Hex, Split;
    SplitAtDot(prefix, Hex(s) + [DOT] + LOCAL);
    SplitAtDot(Hex(s), LOCAL);
    SplitWithoutDot(LOCAL);
  }

  lemma ServiceNameIsAscii(prefix: bytes, s: bytes)
    requires forall i :: 0 <= i < |prefix| ==> prefix[i] < 0x80
    ensures ValidUtf8(prefix + [DOT] + (Hex(s) + [DOT] + LOCAL))
  {
    AsciiIsUtf8(prefix + [DOT] + (Hex(s) + [DOT] + LOCAL));
  }

  /** The encoded form of a.b.local with b of n bytes in hexadecimal. */
  lemma EncodedService(prefix: bytes, s: bytes)
    requires DOT !in prefix && 1 <= |prefix| <= MAX_LABEL && |s| <= 31
    ensures var name := prefix + [DOT] + (Hex(s) + [DOT] + LOCAL);
            && EncodeName(name).Ok?
            && EncodeName(name).value == [|prefix|] + prefix + [2 * |s|] + Hex(s) + [5] + LOCAL + [0]
            && (|s| > 0 ==> AllProper(Split(name)))
  {
    ServiceLabels(prefix, s);
    EncodeThree(prefix, Hex(s), LOCAL);
    NameOfThree(prefix + [DOT] + (Hex(s) + [DOT] + LOCAL), prefix, Hex(s), LOCAL);
    hide EncodeName, Split, Hex, EncodeLabels;
  }

  lemma NameOfThree(name: bytes, a: bytes, b: bytes, c: bytes)
    requires Split(name) == [a, b, c]
    requires 1 <= |a| <= MAX_LABEL && |b| <= MAX_LABEL && 1 <= |c| <= MAX_LABEL
    ensures EncodeName(name) == Ok(EncodeLabels([a, b, c]) + [0])
    ensures AllProper(Split(name)) <==> |b| > 0
  {
    hide Split, EncodeLabels;
    assert Split(name)[1] == b;
  }

  lemma EncodeThree(a: bytes, b: bytes, c: bytes)
    requires |a| <= MAX_LABEL && |b| <= MAX_LABEL && |c| <= MAX_LABEL
    ensures EncodeLabels([a, b, c]) + [0] == [|a|] + a + [|b|] + b + [|c|] + c + [0]
  {
    EncodeOneMore([], a);
    EncodeOneMore([a], b);
    EncodeOneMore([a, b], c);
    assert [] + [a] == [a] && [a] + [b] == [a, b] && [a, b] + [c] == [a, b, c];
    assert EncodeLabels([a]) == [|a|] + a;
  }

  lemma {:induction false} DecimalIsShort(n: nat, k: nat)
    requires k > 0 && n < Pow10(k)
    ensures |Decimal(n)| <= k
    decreases k
  {
    if n >= 10 {
      DecimalIsShort(n / 10, k - 1);
    }
  }

  function Pow10(k: nat): nat {
    if k == 0 then 1 else 10 * Pow10(k - 1)
  }

  lemma RankText(rank: u64)
    ensures |RANK + Decimal(rank)| <= 25
  {
    assert Pow10(4) == 1_0000;
    assert Pow10(8) == 1_0000_0000;
    assert Pow10(12) == 1_0000_0000_0000;
    assert Pow10(16) == 1_0000_0000_0000_0000;
    assert Pow10(20) == 1_0000_0000_0000_0000_0000;
    DecimalIsShort(rank, 20);
  }

  /** The packet is built exactly for addresses of at most 31 bytes, whose hexadecimal form fits one label. */
  lemma PacketNeedsShortAddress(address: bytes, rank: u64)
    ensures Packet(address, rank).Ok? <==> |address| <= 31
  {
    EncodedService(NG, LittleEndian(rank, 8));
    if |address| <= 31 {
      EncodedService(RN, address);
    } else {
      ServiceLabels(RN, address);
      assert [RN, Hex(address), LOCAL][1] == Hex(address);
      assert !AllShort([RN, Hex(address), LOCAL]);
    }
  }

  /** The peer that an advertisement is meant to announce; its address is the encoded rank name. */
  function Announced(address: bytes, rank: u64): Discovered {
    Discovered(RnName(address), [2] + NG + [16] + Hex(LittleEndian(rank, 8)) + [5] + LOCAL + [0], 5353, 0, 0)
  }

  /** The two records of a packet, where they stand and what they hold. */
  lemma PacketLayout(address: bytes, rank: u64)
    requires |address| <= 31
    ensures Packet(address, rank).Ok?
    ensures var data := Packet(address, rank).value;
            var target := Announced(address, rank).address;
            var name := EncodeName(RnName(address)).value;
            var srv := name + RecordTail(SRV_FIELDS, SrvBody(target, 5353, 0, 0));
            var txt := name + RecordTail(TXT_FIELDS, TxtBody(RANK + Decimal(rank)));
            data == HEADER + srv + txt && |target| == 27
            && StandsAt(srv, data, 12) && StandsAt(txt, data, 12 + |srv|) && |data| == 12 + |srv| + |txt|
  {
    EncodedService(NG, LittleEndian(rank, 8));
    EncodedService(RN, address);
    assert EncodeName(NgName(rank)).value == Announced(address, rank).address;
    hide EncodeName, Hex, Decimal, LittleEndian;
    var target := Announced(address, rank).address;
    var name := EncodeName(RnName(address)).value;
    var srv := name + RecordTail(SRV_FIELDS, SrvBody(target, 5353, 0, 0));
    var txt := name + RecordTail(TXT_FIELDS, TxtBody(RANK + Decimal(rank)));
    hide RecordTail, SrvBody, TxtBody;
    var data := HEADER + srv + txt;
    assert data[12..12 + |srv|] == srv;
    assert data[12 + |srv|..12 + |srv| + |txt|] == txt;
  }

  /** A packet for an address of 1 to 31 bytes is walked to its last byte, and both its records are met. */
  lemma PacketIsWalked(address: bytes, rank: u64)
    requires 1 <= |address| <= 31
    ensures Packet(address, rank).Ok?
    ensures var data := Packet(address, rank).value;
            var walk := WalkPacket(data);
            && walk.complete == Ok(true) && walk.end == |data| && |walk.records| == 2
            && IsService(walk.records[0]) && walk.records[0].name == 12
            && RecordStands(data, walk.records[0], SrvBody(Announced(address, rank).address, 5353, 0, 0))
            && !IsService(walk.records[1])
  {
    hide EncodeName, Hex, Decimal, Packet, SrvBody, TxtBody, Announced, Split, RnName;
    hide WalkPacket, StandsAt, RecordStands;
    PacketLayout(address, rank);
    EncodedService(RN, address);
    assert RnName(address) == RN + [DOT] + (Hex(address) + [DOT] + LOCAL) by {
      NameForm(address);
    }
    RankText(rank);
    var data := Packet(address, rank).value;
    var target := Announced(address, rank).address;
    BodiesAreShort(target, RANK + Decimal(rank));
    HeaderIsRead(data, data[12..]);
    var srv := EncodeName(RnName(address)).value + RecordTail(SRV_FIELDS, SrvBody(target, 5353, 0, 0));
    TwoRecords(data, RnName(address), SrvBody(target, 5353, 0, 0), TxtBody(RANK + Decimal(rank)), 12 + |srv|);
  }

  lemma NameForm(address: bytes)
    ensures RnName(address) == RN + [DOT] + (Hex(address) + [DOT] + LOCAL)
  {
  }

  lemma TwoRecords(data: bytes, name: bytes, body: bytes, text: bytes, second: nat)
    requires AllProper(Split(name)) && |body| < U16 && |text| < U16
    requires StandsAt(EncodeName(name).value + RecordTail(SRV_FIELDS, body), data, 12)
    requires StandsAt(EncodeName(name).value + RecordTail(TXT_FIELDS, text), data, second)
    requires second == 22 + |EncodeName(name).value| + |body|
    requires |data| == second + |EncodeName(name).value| + 10 + |text|
    ensures var walk := WalkAnswers(data, 12, 2);
            && walk.complete == Ok(true) && walk.end == |data| && |walk.records| == 2
            && IsService(walk.records[0]) && walk.records[0].name == 12
            && RecordStands(data, walk.records[0], body)
            && !IsService(walk.records[1])
  {
    hide WalkAnswers, EncodeName, Split, StandsAt, RecordStands, RecordTail, U16At, AllProper, Before, Inside;
    var r1 := WrittenRecordIsMet(data, 12, name, SRV_FIELDS, body, 2);
    var r2 := WrittenRecordIsMet(data, second, name, TXT_FIELDS, text, 1);
    KindsOfFields();
    BothMet(data, r1, r2);
  }

  lemma BothMet(data: bytes, r1: Rec, r2: Rec)
    requires WalkAnswers(data, 12, 2) == Before([r1], WalkAnswers(data, r1.body + r1.len, 1))
    requires WalkAnswers(data, r1.body + r1.len, 1) == Before([r2], WalkAnswers(data, |data|, 0))
    ensures WalkAnswers(data, 12, 2) == Walk([r1, r2], |data|, Ok(true))
  {
    NoMoreAnswers(data, |data|);
    hide WalkAnswers;
  }

  lemma NoMoreAnswers(data: bytes, offset: nat)
    ensures WalkAnswers(data, offset, 0) == Walk([], offset, Ok(true))
  {
  }

  lemma KindsOfFields()
    ensures U16At(SRV_FIELDS, 0) == 0x0021 && U16At(SRV_FIELDS, 2) == 0x0001 && U16At(TXT_FIELDS, 0) == 0x0010
  {
  }

  lemma BodiesAreShort(target: bytes, text: bytes)
    ensures |SrvBody(target, 5353, 0, 0)| == 6 + |target| && |TxtBody(text)| == 1 + |text|
  {
  }

  lemma HeaderIsRead(data: bytes, rest: bytes)
    requires data == HEADER + rest
    ensures WalkPacket(data) == WalkAnswers(data, 12, 2)
  {
    assert data[2] == 0x84 && data[4] == 0 && data[5] == 0 && data[6] == 0 && data[7] == 2;
    hide WalkAnswers;
  }

  /** Bytes of the record data of a service record. */
  lemma ServiceFields(data: bytes, r: Rec, target: bytes, port: u16)
    requires RecordStands(data, r, SrvBody(target, port, 0, 0)) && target != []
    ensures r.len == 6 + |target| && data[r.body + 6..r.body + r.len] == target
    ensures U16At(data, r.body) == 0 && U16At(data, r.body + 2) == 0 && U16At(data, r.body + 4) == port
  {
    var body := SrvBody(target, port, 0, 0);
    assert BigEndian(0, 2) == [0, 0] by {
      assert BigEndian(0, 1) == BigEndian(0, 0) + [0];
    }
    assert BigEndian(port, 2) == [port / 0x100, port % 0x100] by {
      assert BigEndian(port / 0x100, 1) == BigEndian(0, 0) + [port / 0x100];
    }
    hide BigEndian;
    assert body == [0, 0, 0, 0, port / 0x100, port % 0x100] + target;
    var window := data[r.body..r.body + r.len];
    assert data[r.body] == window[0] && data[r.body + 1] == window[1] && data[r.body + 2] == window[2]
        && data[r.body + 3] == window[3] && data[r.body + 4] == window[4] && data[r.body + 5] == window[5];
    assert data[r.body + 6..r.body + r.len] == data[r.body..r.body + r.len][6..];
  }

  /**
   * Round trip: for every address of 1 to 31 bytes and every rank, the built packet is walked to exactly its last
   * byte, and processing it, with any room on the stack, finds exactly one peer, with the address's name, port 5353
   * and the encoded rank name.
   */
  lemma AdvertisementRoundTrip(lossy: bytes -> bytes, depth: nat, address: bytes, rank: u64)
    requires Faithful(lossy) && 1 <= |address| <= 31
    ensures Packet(address, rank).Ok?
    ensures var data := Packet(address, rank).value;
            && WalkPacket(data).complete == Ok(true) && WalkPacket(data).end == |data|
            && Processed(lossy, depth, data) == Processing([Announced(address, rank)], Ok(()))
  {
    PacketIsWalked(address, rank);
    hide Packet, WalkPacket, Surveyed, Announced;
    var data := Packet(address, rank).value;
    var records := WalkPacket(data).records;
    ServiceNameIsThere(lossy, depth, address, rank);
    ServiceIsParsed(lossy, depth, data, records[0], address, rank);
    OnePeer(lossy, depth, data, records, Announced(address, rank));
  }

  lemma ServiceNameIsThere(lossy: bytes -> bytes, depth: nat, address: bytes, rank: u64)
    requires Faithful(lossy) && 1 <= |address| <= 31
    ensures Packet(address, rank).Ok?
    ensures ExtractName(lossy, depth, Packet(address, rank).value, 12) == Ok(RnName(address))
  {
    PacketLayout(address, rank);
    ServiceNameIsAscii(RN, address);
    EncodedService(RN, address);
    var data := Packet(address, rank).value;
    var name := EncodeName(RnName(address)).value;
    hide Packet, EncodeName, StandsAt, Split, ExtractName, RecordTail, SrvBody, TxtBody;
    StandsAtParts(name, RecordTail(SRV_FIELDS, SrvBody(Announced(address, rank).address, 5353, 0, 0)), data, 12);
    WrittenNameIsRead(lossy, depth, RnName(address), data, 12);
  }

  lemma ServiceIsParsed(lossy: bytes -> bytes, depth: nat, data: bytes, r: Rec, address: bytes, rank: u64)
    requires Faithful(lossy) && IsService(r) && ExtractName(lossy, depth, data, r.name) == Ok(RnName(address))
    requires RecordStands(data, r, SrvBody(Announced(address, rank).address, 5353, 0, 0))
    ensures PeersOf(lossy, depth, data, r) == Ok([Announced(address, rank)])
  {
    var target := Announced(address, rank).address;
    AsciiIsUtf8(target);
    ServiceFields(data, r, target, 5353);
    hide ExtractName, RnName, U16At, Hex, ValidUtf8, SrvBody, LittleEndian;
  }

  lemma OnePeer(lossy: bytes -> bytes, depth: nat, data: bytes, records: seq<Rec>, peer: Discovered)
    requires |records| == 2 && !IsService(records[1]) && PeersOf(lossy, depth, data, records[0]) == Ok([peer])
    ensures Surveyed(lossy, depth, data, records) == Survey([peer], None)
  {
    assert PeersOf(lossy, depth, data, records[1]) == Ok([]);
    hide PeersOf, Surveyed;
    NothingSurveyed(lossy, depth, data);
    SurveyOneMore(lossy, depth, data, [], records[0]);
    SurveyOneMore(lossy, depth, data, [records[0]], records[1]);
    assert [] + [records[0]] == [records[0]] && [records[0]] + [records[1]] == records;
  }

  /** The empty address is built but never found: its name ends at the empty label. */
  lemma EmptyAddressIsLost(lossy: bytes -> bytes, depth: nat, rank: u64)
    ensures Packet([], rank).Ok?
    ensures WalkPacket(Packet([], rank).value).records == []
    ensures Processed(lossy, depth, Packet([], rank).value) == Processing([], Ok(()))
  {
    hide EncodeName, Packet, Announced, SrvBody, TxtBody, RecordTail, WalkPacket, Decimal, StandsAt;
    PacketLayout([], rank);
    EncodedService(RN, []);
    RankText(rank);
    var data := Packet([], rank).value;
    var name := EncodeName(RnName([])).value;
    var body, text := SrvBody(Announced([], rank).address, 5353, 0, 0), TxtBody(RANK + Decimal(rank));
    BodiesAreShort(Announced([], rank).address, RANK + Decimal(rank));
    assert name == [2, 0x72, 0x6E, 0, 5, 0x6C, 0x6F, 0x63, 0x61, 0x6C, 0];
    TailLength(SRV_FIELDS, body);
    TailLength(TXT_FIELDS, text);
    StandsAtParts(name, RecordTail(SRV_FIELDS, body), data, 12);
    FieldsStand(SRV_FIELDS, body, data, 23);
    HeaderIsRead(data, data[12..]);
    EmptyLabelMisleads(data, name);
  }

  lemma TailLength(fields: bytes, body: bytes)
    ensures |RecordTail(fields, body)| == |fields| + 2 + |body|
  {
  }

  lemma FieldsStand(fields: bytes, body: bytes, data: bytes, offset: nat)
    requires StandsAt(RecordTail(fields, body), data, offset)
    ensures StandsAt(fields, data, offset)
  {
    var len := BigEndian(|body| % U16, 2);
    assert RecordTail(fields, body) == fields + (len + body);
    StandsAtParts(fields, len + body, data, offset);
  }

  /** Read from the empty label on, the rest of the name and the record type look like a record far too long. */
  lemma EmptyLabelMisleads(data: bytes, name: bytes)
    requires name == [2, 0x72, 0x6E, 0, 5, 0x6C, 0x6F, 0x63, 0x61, 0x6C, 0]
    requires StandsAt(name, data, 12) && StandsAt(SRV_FIELDS, data, 23) && 35 <= |data| <= 300
    ensures WalkAnswers(data, 12, 2).records == [] && WalkAnswers(data, 12, 2).complete == Ok(false)
  {
    assert data[12] == data[12..23][0] && data[15] == data[12..23][3];
    assert data[24] == data[23..31][1] && data[25] == data[23..31][2];
    assert SkipName(data, 12) == Ok(16);
    assert RecordAt(data, 12, 16).len == 0x2100;
  }

  /** So an advertisement can be built and is found exactly for addresses of 1 to 31 bytes. */
  lemma AdvertisementIsFound(lossy: bytes -> bytes, depth: nat, address: bytes, rank: u64)
    requires Faithful(lossy)
    ensures (Packet(address, rank).Ok?
             && Processed(lossy, depth, Packet(address, rank).value).peers == [Announced(address, rank)])
            <==> 1 <= |address| <= 31
  {
    PacketNeedsShortAddress(address, rank);
    if address == [] {
      EmptyAddressIsLost(lossy, depth, rank);
    } else if |address| <= 31 {
      AdvertisementRoundTrip(lossy, depth, address, rank);
    }
  }

  lemma {:induction false} HexIsInjective(a: bytes, b: bytes)
    requires Hex(a) == Hex(b)
    ensures a == b
  {
    if a == [] || b == [] {
      assert |Hex(a)| == 2 * |a| == 2 * |b|;
    } else {
      var x, y := Hex(a), Hex(b);
      assert x[0] == y[0] && x[1] == y[1];
      assert x[2..] == Hex(a[1..]) && y[2..] == Hex(b[1..]);
      HexIsInjective(a[1..], b[1..]);
      assert a == [a[0]] + a[1..] && b == [b[0]] + b[1..];
    }
  }

  /** Different addresses are announced under different names. */
  lemma NamesTellAddressesApart(a: bytes, b: bytes)
    requires RnName(a) == RnName(b)
    ensures a == b
  {
    ServiceLabels(RN, a);
    ServiceLabels(RN, b);
    assert [RN, Hex(a), LOCAL][1] == [RN, Hex(b), LOCAL][1];
    HexIsInjective(a, b);
  }

  // ---- Packets that crash the walk ----

  /** A header announcing one answer. */
  const ONE_ANSWER: bytes := [0x00, 0x00, 0x84, 0x00, 0x00, 0x00, 0x00, 0x01, 0x00, 0x00, 0x00, 0x00]

  /** A packet of 30 bytes: one service record of six bytes, whose name is a pointer; `target` and `last` are free. */
  function PointerPacket(target: byte, last: byte): (r: bytes)
    ensures |r| == 30 && r[12] == 0xC0 && r[13] == target && r[29] == last
    ensures r[2] == 0x84 && r[4] == 0 && r[5] == 0 && r[6] == 0 && r[7] == 1
    ensures U16At(r, 14) == 0x0021 && U16At(r, 16) == 0x0001 && U16At(r, 22) == 6
  {
    ONE_ANSWER + [0xC0, target] + SRV_FIELDS + [0x00, 0x06] + [0x00, 0x00, 0x00, 0x00, 0x00, last]
  }

  /** The packet's one record is met, and its name is extracted from offset 12. */
  lemma PointerPacketIsWalked(lossy: bytes -> bytes, depth: nat, target: byte, last: byte)
    ensures var data := PointerPacket(target, last);
            var walk := WalkPacket(data);
            && walk == Walk([Rec(12, 0x0021, 0x0001, 24, 6)], 30, Ok(true))
            && (ExtractName(lossy, depth, data, 12).Err? && Crash(ExtractName(lossy, depth, data, 12).error) ==>
                  Processed(lossy, depth, data) == Processing([], Err(ExtractName(lossy, depth, data, 12).error)))
  {
    var data := PointerPacket(target, last);
    var r := Rec(12, 0x0021, 0x0001, 24, 6);
    hide PointerPacket, WalkAnswers, U16At, ExtractName, Surveyed;
    assert U16At(data, 4) == 0 && U16At(data, 6) == 1 by {
      HeaderCounts(data);
    }
    assert SkipName(data, 12) == Ok(14);
    assert RecordAt(data, 12, 14) == r;
    RecordIsMet(data, 12, 14, 1);
    NoMoreAnswers(data, 30);
    NothingSurveyed(lossy, depth, data);
    SurveyOneMore(lossy, depth, data, [], r);
    assert [] + [r] == [r];
  }

  lemma HeaderCounts(data: bytes)
    requires |data| >= 12 && data[4] == 0 && data[5] == 0 && data[6] == 0 && data[7] == 1
    ensures U16At(data, 4) == 0 && U16At(data, 6) == 1
  {
  }

  /** A service record whose name points at itself: no room on the stack is enough. */
  lemma LoopingPacket(lossy: bytes -> bytes, depth: nat)
    ensures var data := PointerPacket(12, 0);
            !Halts(data, 12) && Processed(lossy, depth, data) == Processing([], Err(StackOverflow))
  {
    var data := PointerPacket(12, 0);
    assert ReadSegment(data, 12) == Jump(12);
    hide PointerPacket, WalkPacket;
    SelfPointerNeverHalts(data, 12);
    StaysPut(data, 12, depth);
    PointerPacketIsWalked(lossy, depth, 12, 0);
  }

  /** A service record whose name points at the first half of a pointer: reading the other half is out of range. */
  lemma HalfPointerPacket(lossy: bytes -> bytes, depth: nat)
    requires depth > 0
    ensures var data := PointerPacket(29, 0xC0);
            Halts(data, 12) && Processed(lossy, depth, data) == Processing([], Err(IndexOutOfRange))
  {
    var data := PointerPacket(29, 0xC0);
    assert ReadSegment(data, 12) == Jump(29) && ReadSegment(data, 29) == HalfPointer;
    hide PointerPacket, WalkPacket, ReadSegment, ExtractName, Halts, Surveyed;
    HalfPointerIsReached(lossy, depth, data, 12);
    PointerPacketIsWalked(lossy, depth, 29, 0xC0);
  }

  /**
   * Exactly when a packet crashes the walk, with room for more nested calls than there are pointer targets: when some
   * service record it meets has a name whose pointers meet an offset twice or end in half a pointer.
   */
  lemma PacketCrashes(lossy: bytes -> bytes, depth: nat, data: bytes)
    requires depth > POINTER_TARGETS
    ensures var outcome := Processed(lossy, depth, data).outcome;
            (outcome.Err? && Crash(outcome.error))
            <==> exists i :: 0 <= i < |WalkPacket(data).records| && BadPointers(data, WalkPacket(data).records[i])
  {
    hide WalkPacket, BadPointers, Surveyed;
    var records := WalkPacket(data).records;
    var offset := PacketWalkIsTiled(data);
    SurveyCrashes(lossy, depth, data, records);
    CrashesExactly(lossy, depth, data, records);
    PacketErrors(data);
  }

  lemma {:induction false} SurveyCrashes(lossy: bytes -> bytes, depth: nat, data: bytes, records: seq<Rec>)
    ensures var crash := Surveyed(lossy, depth, data, records).crash;
            crash.Some? ==> Crash(crash.value)
  {
    hide ParseService;
    if records != [] {
      SurveyCrashes(lossy, depth, data, records[..|records| - 1]);
    }
  }

  lemma {:induction false} WalkErrors(data: bytes, offset: nat, n: nat)
    ensures WalkAnswers(data, offset, n).complete.Err? ==> WalkAnswers(data, offset, n).complete.error == BadName
    decreases n
  {
    hide U16At;
    SkipErrors(data, offset);
    if n > 0 && SkipName(data, offset).Ok? && SkipName(data, offset).value + 10 <= |data| {
      var r := RecordAt(data, offset, SkipName(data, offset).value);
      WalkErrors(data, r.body + r.len, n - 1);
    }
  }

  lemma {:induction false} SkipErrors(data: bytes, offset: nat)
    ensures SkipName(data, offset).Err? ==> SkipName(data, offset).error == BadName
    decreases |data| - offset
  {
    if offset < |data| && data[offset] != 0 && data[offset] < 0xC0 {
      SkipErrors(data, offset + data[offset] + 1);
    }
  }

  lemma {:induction false} QuestionErrors(data: bytes, offset: nat, n: nat)
    ensures SkipQuestions(data, offset, n).Err? ==> SkipQuestions(data, offset, n).error == BadName
    decreases n
  {
    hide SkipName;
    SkipErrors(data, offset);
    if n > 0 && SkipName(data, offset).Ok? {
      QuestionErrors(data, SkipName(data, offset).value + 4, n - 1);
    }
  }

  lemma PacketErrors(data: bytes)
    ensures WalkPacket(data).complete.Err? ==> WalkPacket(data).complete.error == BadName
  {
    hide WalkAnswers, SkipQuestions;
    if |data| >= 12 {
      var questions, answers := U16At(data, 4), U16At(data, 6);
      QuestionErrors(data, 12, questions);
      if SkipQuestions(data, 12, questions).Ok? && SkipQuestions(data, 12, questions).value.Some? {
        WalkErrors(data, SkipQuestions(data, 12, questions).value.value, answers);
      }
    }
  }

  lemma {:induction false} CrashesExactly(lossy: bytes -> bytes, depth: nat, data: bytes, records: seq<Rec>)
    requires depth > POINTER_TARGETS && forall i :: 0 <= i < |records| ==> Inside(records[i], data)
    ensures Surveyed(lossy, depth, data, records).crash.Some?
       <==> exists i :: 0 <= i < |records| && BadPointers(data, records[i])
  {
    hide PeersOf, BadPointers;
    if records != [] {
      var earlier, last := records[..|records| - 1], records[|records| - 1];
      assert records == earlier + [last];
      CrashesExactly(lossy, depth, data, earlier);
      SurveyOneMore(lossy, depth, data, earlier, last);
      RecordCrashes(lossy, depth, data, last);
      if i :| 0 <= i < |earlier| && BadPointers(data, earlier[i]) {
        assert BadPointers(data, records[i]);
      }
    }
  }

  /** A service record whose name cannot be extracted in any number of steps, or only past the packet's end. */
  ghost predicate BadPointers(data: bytes, r: Rec) {
    IsService(r) && r.len >= 6
    && ((exists i: nat, j: nat :: Repeats(data, r.name, i, j)) || LastSegment(data, r.name).HalfPointer?)
  }

  lemma RecordCrashes(lossy: bytes -> bytes, depth: nat, data: bytes, r: Rec)
    requires depth > POINTER_TARGETS && Inside(r, data)
    ensures PeersOf(lossy, depth, data, r).Err? <==> BadPointers(data, r)
  {
    hide ExtractName, Repeats, LastSegment, U16At, Halts;
    ExtractionOutcome(lossy, depth, data, r.name);
    HalfPointersHalt(data, r.name);
  }

  lemma HalfPointersHalt(data: bytes, start: nat)
    ensures LastSegment(data, start).HalfPointer? ==> Halts(data, start)
  {
    HaltsSoonOrNever(data, start);
  }
}
