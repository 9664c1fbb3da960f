/** RPC calls and responses as bytes. */
module Envelopes {
  import opened Bytes
  import opened Cursors
  import opened Values
  import opened ValueCodec

  datatype Action =
    | NullAction | ID | Dropoff | Pickup | CID
    | GetContact | GetContacts | AddContact | DeleteContact
    | GetChannel | GetChannels | AddChannel | DeleteChannel
    | GetProfile | GetProfiles | AddProfile | DeleteProfile | LoadProfile
    | GetPeer | GetPeers | AddPeer | DeletePeer
    | Send | SendChannel | SendMsg
    | FlushOutbox | GetChannelPrivKey | IsRunning | Start | Stop

  /** `action as u8`. */
  function Code(a: Action): byte {
    match a
    case NullAction => 0 case ID => 1 case Dropoff => 2 case Pickup => 3 case CID => 16
    case GetContact => 17 case GetContacts => 18 case AddContact => 19 case DeleteContact => 20
    case GetChannel => 21 case GetChannels => 22 case AddChannel => 23 case DeleteChannel => 24
    case GetProfile => 25 case GetProfiles => 26 case AddProfile => 27 case DeleteProfile => 28 case LoadProfile => 29
    case GetPeer => 30 case GetPeers => 31 case AddPeer => 32 case DeletePeer => 33
    case Send => 34 case SendChannel => 35 case SendMsg => 36
    case FlushOutbox => 40 case GetChannelPrivKey => 41 case IsRunning => 42 case Start => 43 case Stop => 44
  }

  /** `Action::from(u8)`: every other byte falls back to the null action. */
  function FromCode(b: byte): Action {
    match b
    case 1 => ID case 2 => Dropoff case 3 => Pickup case 16 => CID
    case 17 => GetContact case 18 => GetContacts case 19 => AddContact case 20 => DeleteContact
    case 21 => GetChannel case 22 => GetChannels case 23 => AddChannel case 24 => DeleteChannel
    case 25 => GetProfile case 26 => GetProfiles case 27 => AddProfile case 28 => DeleteProfile case 29 => LoadProfile
    case 30 => GetPeer case 31 => GetPeers case 32 => AddPeer case 33 => DeletePeer
    case 34 => Send case 35 => SendChannel case 36 => SendMsg
    case 40 => FlushOutbox case 41 => GetChannelPrivKey case 42 => IsRunning case 43 => Start case 44 => Stop
    case _ => NullAction
  }

  datatype RemoteCall = RemoteCall(action: Action, args: seq<Value>)
  datatype RemoteResponse = RemoteResponse(error: Option<utf8>, value: Option<Value>)

  // ---- Specification ----

  function CallToBytes(libs: Libs, call: RemoteCall): Result<bytes> {
    var args :- Serialize(libs, Arr(call.args));
    Ok([Code(call.action)] + args)
  }

  function CallFromBytes(libs: Libs, data: bytes): Result<RemoteCall> {
    if |data| < 2 then Err(TooShort)
    else
      var (v, _) :- Deserialize(libs, data[1..]);
      if v.Arr? then Ok(RemoteCall(FromCode(data[0]), v.items)) else Err(ExpectedArray)
  }

  function ErrorValue(error: Option<utf8>): Value {
    if error.Some? then Str(error.value) else Null
  }

  function ResponseToBytes(libs: Libs, response: RemoteResponse): Result<bytes> {
    var error :- Serialize(libs, ErrorValue(response.error));
    var value :- Serialize(libs, if response.value.Some? then response.value.value else Null);
    Ok(error + value)
  }

  /** An error that is neither null nor a string is read as the empty string; a null value as no value. */
  function ResponseOf(error: Value, value: Value): RemoteResponse {
    RemoteResponse(
      if error.Null? then None else if error.Str? then Some(error.s) else Some([]),
      if value.Null? then None else Some(value))
  }

  function ResponseFromBytes(libs: Libs, data: bytes): Result<RemoteResponse> {
    var (error, n) :- Deserialize(libs, data);
    var (value, _) :- Deserialize(libs, data[n..]);
    Ok(ResponseOf(error, value))
  }

  // ---- Main results ----

  lemma ActionRoundTrip(a: Action)
    ensures FromCode(Code(a)) == a
  {
  }

  /** A call is encoded exactly when no float occurs in its arguments. */
  lemma CallFailsOnFloats(libs: Libs, call: RemoteCall)
    ensures CallToBytes(libs, call).Err? <==> HasFloat(Arr(call.args))
  {
    SerializeFailsOnFloats(libs, Arr(call.args));
  }

  /**
   * The receiver gets the same action and the arguments up to Norm; the length check never refuses them, and bytes
   * behind the call are ignored.
   */
  lemma CallRoundTrip(libs: Libs, call: RemoteCall, t: bytes)
    requires CallToBytes(libs, call).Ok? && |CallToBytes(libs, call).value| < I64
    ensures |CallToBytes(libs, call).value| >= 2
    ensures CallFromBytes(libs, CallToBytes(libs, call).value + t)
         == Ok(RemoteCall(call.action, NormAll(libs, call.args)))
  {
    var args := Serialize(libs, Arr(call.args)).value;
    RoundTrip(libs, Arr(call.args), t);
    assert ([Code(call.action)] + args + t)[1..] == args + t;
    ActionRoundTrip(call.action);
  }

  /** Both halves of a response are recovered from two values back to back, and bytes behind them are ignored. */
  lemma ResponseRoundTrip(libs: Libs, response: RemoteResponse, t: bytes)
    requires ResponseToBytes(libs, response).Ok? && |ResponseToBytes(libs, response).value| < I64
    ensures ResponseFromBytes(libs, ResponseToBytes(libs, response).value + t)
         == Ok(RemoteResponse(response.error,
                              if response.value == None || response.value == Some(Null) then None
                              else Some(Norm(libs, response.value.value))))
  {
    hide Serialize, Deserialize, Norm, ValidUtf8, ErrorValue;
    var e, v := ErrorValue(response.error), if response.value.Some? then response.value.value else Null;
    var error, value := Serialize(libs, e).value, Serialize(libs, v).value;
    RoundTrip(libs, e, value + t);
    RoundTrip(libs, v, t);
    assert error + value + t == error + (value + t);
    assert (error + (value + t))[|error|..] == value + t;
    HalvesAreRecovered(libs, response);
  }

  /** What is made of the two values is the response meant. */
  lemma HalvesAreRecovered(libs: Libs, response: RemoteResponse)
    ensures var v := if response.value.Some? then response.value.value else Null;
            ResponseOf(Norm(libs, ErrorValue(response.error)), Norm(libs, v))
            == RemoteResponse(response.error, if v == Null then None else Some(Norm(libs, v)))
  {
  }

  // ---- The methods ----

  method RemoteCallToBytes(libs: Libs, call: RemoteCall) returns (r: Result<bytes>)
    ensures r == CallToBytes(libs, call)
  {
    var buffer := new Buffer();
    buffer.Push(Code(call.action));
    assert buffer.data == [Code(call.action)];
    var args := new Buffer();
    var written := WriteValue(libs, args, Arr(call.args));
    if written.Err? {
      return Err(written.error);
    }
    assert args.data == Serialize(libs, Arr(call.args)).value;
    buffer.Append(args.data);
    r := Ok(buffer.data);
  }

  method RemoteCallFromBytes(libs: Libs, data: bytes) returns (r: Result<RemoteCall>)
    ensures r == CallFromBytes(libs, data)
  {
    if |data| < 2 {
      return Err(TooShort);
    }
    var action := FromCode(data[0]);
    var cursor := new Cursor(data[1..]);
    var v := ReadValue(libs, cursor);
    if v.Err? {
      return Err(v.error);
    }
    r := if v.value.Arr? then Ok(RemoteCall(action, v.value.items)) else Err(ExpectedArray);
  }

  method RemoteResponseToBytes(libs: Libs, response: RemoteResponse) returns (r: Result<bytes>)
    ensures r == ResponseToBytes(libs, response)
  {
    var buffer := new Buffer();
    var written := WriteValue(libs, buffer, ErrorValue(response.error));
    if written.Err? {
      return Err(written.error);
    }
    assert buffer.data == Serialize(libs, ErrorValue(response.error)).value;
    written := WriteValue(libs, buffer, if response.value.Some? then response.value.value else Null);
    if written.Err? {
      return Err(written.error);
    }
    r := Ok(buffer.data);
  }

  method RemoteResponseFromBytes(libs: Libs, data: bytes) returns (r: Result<RemoteResponse>)
    ensures r == ResponseFromBytes(libs, data)
  {
    var cursor := new Cursor(data);
    var error := ReadValue(libs, cursor);
    if error.Err? {
      return Err(error.error);
    }
    var value := ReadValue(libs, cursor);
    if value.Err? {
      return Err(value.error);
    }
    r := Ok(ResponseOf(error.value, value.value));
  }
}
