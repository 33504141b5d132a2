/** The CBD1 wire format: message types, payload layouts and the 12-byte packet header.

    `Payload`/`DecodePayload` describe the format as functions from values to values; the byte-pushing and
    cursor-advancing forms are in `PayloadCodec`. Both enums of the source (client requests and daemon responses)
    are constructors of one datatype, told apart by the subset types `Request` and `Response`. That the strings of a
    message are UTF-8 is the predicate `WellFormed`. */
module BinaryMessage {
  import opened Bytes
  import opened Results
  import Utf8

  datatype Message =
    // client -> daemon
    | ClientHello(client: Str, protocol: Str)
    | Ping(pingId: u64)
    | ListIfaces
    | Subscribe(wanted: seq<Str>)
    | Unsubscribe
    | SendFrame(iface: Str, id: u32, isFd: bool, brs: bool, esi: bool, data: seq<u8>)
    // daemon -> client
    | HelloAck(version: Str, serverName: Str, features: seq<Str>)
    | Pong(pongId: u64)
    | Ifaces(items: seq<Str>)
    | Subscribed(ifaces: seq<Str>)
    | Unsubscribed
    | SendAck(ok: bool, errorMessage: Option<Str>)
    | FrameEvent(tsMs: u64, iface: Str, dir: Str, id: u32, isFd: bool, data: seq<u8>)
    | Error(message: Str)

  type Request = m: Message | IsRequest(m) witness Unsubscribe
  type Response = m: Message | !IsRequest(m) witness Unsubscribed

  predicate IsRequest(m: Message) {
    m.ClientHello? || m.Ping? || m.ListIfaces? || m.Subscribe? || m.Unsubscribe? || m.SendFrame?
  }

  datatype MsgType =
    | ClientHelloType | PingType | ListIfacesType | SubscribeType | UnsubscribeType | SendFrameType
    | HelloAckType | PongType | IfacesType | SubscribedType | UnsubscribedType | SendAckType
    | FrameEventType | ErrorType

  /** Which decoder reads the bytes: the daemon's (client requests) or the client's (daemon responses). */
  datatype Side = FromClient | FromDaemon

  datatype DecodeError =
    | Eof | EofInString | BadUtf8 | BadDataLen
    | BadMagic | UnknownType(raw: u16) | WrongSide(msgType: MsgType)

  type Parsed<+T> = Result<(T, seq<u8>), DecodeError>

  const MAGIC: seq<u8> := [0x43, 0x42, 0x44, 0x31]  // "CBD1"
  const HEADER_LEN: nat := 12

  function TypeCode(t: MsgType): u16 {
    match t
    case ClientHelloType => 101
    case PingType => 102
    case ListIfacesType => 103
    case SubscribeType => 104
    case UnsubscribeType => 105
    case SendFrameType => 106
    case HelloAckType => 1
    case PongType => 2
    case IfacesType => 3
    case SubscribedType => 4
    case UnsubscribedType => 5
    case SendAckType => 6
    case FrameEventType => 7
    case ErrorType => 8
  }

  /** `MsgType::from_u16`: the only codes accepted are those `TypeCode` produces, each as its own type. */
  function TypeFromU16(v: u16): (r: Result<MsgType, DecodeError>)
    ensures forall t :: TypeCode(t) == v <==> r == Ok(t)
    ensures r.Err? ==> r.error == UnknownType(v)
  {
    match v
    case 101 => Ok(ClientHelloType)
    case 102 => Ok(PingType)
    case 103 => Ok(ListIfacesType)
    case 104 => Ok(SubscribeType)
    case 105 => Ok(UnsubscribeType)
    case 106 => Ok(SendFrameType)
    case 1 => Ok(HelloAckType)
    case 2 => Ok(PongType)
    case 3 => Ok(IfacesType)
    case 4 => Ok(SubscribedType)
    case 5 => Ok(UnsubscribedType)
    case 6 => Ok(SendAckType)
    case 7 => Ok(FrameEventType)
    case 8 => Ok(ErrorType)
    case _ => Err(UnknownType(v))
  }

  function TypeOf(m: Message): MsgType {
    match m
    case ClientHello(_, _) => ClientHelloType
    case Ping(_) => PingType
    case ListIfaces => ListIfacesType
    case Subscribe(_) => SubscribeType
    case Unsubscribe => UnsubscribeType
    case SendFrame(_, _, _, _, _, _) => SendFrameType
    case HelloAck(_, _, _) => HelloAckType
    case Pong(_) => PongType
    case Ifaces(_) => IfacesType
    case Subscribed(_) => SubscribedType
    case Unsubscribed => UnsubscribedType
    case SendAck(_, _) => SendAckType
    case FrameEvent(_, _, _, _, _, _) => FrameEventType
    case Error(_) => ErrorType
  }

  function SideOf(t: MsgType): Side {
    if TypeCode(t) > 100 then FromClient else FromDaemon
  }

  // ---------------------------------------------------------------- payload layouts

  /** How many bytes of a string are stored: its length, saturated at `u16::MAX`. */
  function Stored(s: seq<u8>): (n: nat)
    ensures n <= |s| && n < U16_SPAN
  {
    if |s| < U16_SPAN then |s| else U16_SPAN - 1
  }

  function StringBytes(s: seq<u8>): seq<u8> {
    Le(Stored(s), 2) + s[..Stored(s)]
  }

  function StringsBytes(ss: seq<Str>): seq<u8> {
    if ss == [] then [] else StringBytes(ss[0]) + StringsBytes(ss[1..])
  }

  /** A string list: the count as `u16` (wrapping), then every string, also those beyond the wrapped count. */
  function ListBytes(ss: seq<Str>): seq<u8> {
    Le(|ss| % U16_SPAN, 2) + StringsBytes(ss)
  }

  /** Frame data: the length as `u16` (wrapping), then every byte. */
  function DataBytes(d: seq<u8>): seq<u8> {
    Le(|d| % U16_SPAN, 2) + d
  }

  function BoolByte(b: bool): u8 {
    if b then 1 else 0
  }

  function Payload(m: Message): seq<u8> {
    match m
    case ClientHello(client, protocol) => StringBytes(client) + StringBytes(protocol)
    case Ping(id) => Le(id, 8)
    case ListIfaces => []
    case Subscribe(wanted) => ListBytes(wanted)
    case Unsubscribe => []
    case SendFrame(iface, id, isFd, brs, esi, data) =>
      StringBytes(iface) + (Le(id, 4) + ([BoolByte(isFd), BoolByte(brs), BoolByte(esi)] + DataBytes(data)))
    case HelloAck(version, serverName, features) =>
      StringBytes(version) + (StringBytes(serverName) + ListBytes(features))
    case Pong(id) => Le(id, 8)
    case Ifaces(items) => ListBytes(items)
    case Subscribed(ifaces) => ListBytes(ifaces)
    case Unsubscribed => []
    case SendAck(ok, errorMessage) =>
      [BoolByte(ok)] + StringBytes(if errorMessage.Some? then errorMessage.value else [])
    case FrameEvent(tsMs, iface, dir, id, isFd, data) =>
      Le(tsMs, 8) + (StringBytes(iface) + (StringBytes(dir) + (Le(id, 4) + ([BoolByte(isFd)] + DataBytes(data)))))
    case Error(message) => StringBytes(message)
  }

  /** `encode_packet`: the payload length is cast to `u32`, so it wraps at 2^32; the payload is never cut. */
  function Packet(t: MsgType, payload: seq<u8>): (p: seq<u8>)
    ensures |p| == HEADER_LEN + |payload|
  {
    MAGIC + (Le(TypeCode(t), 2) + (Le(0, 2) + (Le(|payload| % U32_SPAN, 4) + payload)))
  }

  /** `encode_client` and `encode_daemon`. */
  function Encode(m: Message): seq<u8> {
    Packet(TypeOf(m), Payload(m))
  }

  // ---------------------------------------------------------------- cursor reads

  function GetUint(input: seq<u8>, w: nat): (r: Parsed<nat>)
    ensures r.Ok? <==> |input| >= w
    ensures r.Ok? ==> r.value.0 < Pow256(w) && r.value.1 == input[w..]
    ensures r.Err? ==> r.error == Eof
  {
    if |input| < w then Err(Eof)
    else
      LeOfFromLe(input[..w]);
      Ok((FromLe(input[..w]), input[w..]))
  }

  function GetU8(input: seq<u8>): Parsed<u8> { Spans(); GetUint(input, 1) }
  function GetU16(input: seq<u8>): Parsed<u16> { Spans(); GetUint(input, 2) }
  function GetU32(input: seq<u8>): Parsed<u32> { Spans(); GetUint(input, 4) }
  function GetU64(input: seq<u8>): Parsed<u64> { Spans(); GetUint(input, 8) }

  function GetString(input: seq<u8>): (r: Parsed<Str>)
    ensures r.Ok? ==> |r.value.0| < U16_SPAN && |input| == 2 + |r.value.0| + |r.value.1|
  {
    var (len, rest) :- GetU16(input);
    if |rest| < len then Err(EofInString)
    else if !Utf8.Valid(rest[..len]) then Err(BadUtf8)
    else Ok((rest[..len], rest[len..]))
  }

  function GetStrings(input: seq<u8>, count: nat): (r: Parsed<seq<Str>>)
    ensures r.Ok? ==> |r.value.0| == count
    decreases count
  {
    if count == 0 then Ok(([], input))
    else
      var (s, rest) :- GetString(input);
      var (ss, rest') :- GetStrings(rest, count - 1);
      Ok(([s] + ss, rest'))
  }

  function GetList(input: seq<u8>): Parsed<seq<Str>> {
    var (count, rest) :- GetU16(input);
    GetStrings(rest, count)
  }

  function GetData(input: seq<u8>): Parsed<seq<u8>> {
    var (len, rest) :- GetU16(input);
    if |rest| < len then Err(BadDataLen) else Ok((rest[..len], rest[len..]))
  }

  function DecodeHello(p: seq<u8>): (r: Result<Message, DecodeError>)
    ensures r.Ok? ==> r.value.ClientHello?
  {
    var (client, p) :- GetString(p);
    var (protocol, p) :- GetString(p);
    Ok(ClientHello(client, protocol))
  }

  function DecodeSendFrame(p: seq<u8>): (r: Result<Message, DecodeError>)
    ensures r.Ok? ==> r.value.SendFrame?
  {
    var (iface, p) :- GetString(p);
    var (id, p) :- GetU32(p);
    var (isFd, p) :- GetU8(p);
    var (brs, p) :- GetU8(p);
    var (esi, p) :- GetU8(p);
    var (data, p) :- GetData(p);
    Ok(SendFrame(iface, id, isFd != 0, brs != 0, esi != 0, data))
  }

  function DecodeHelloAck(p: seq<u8>): (r: Result<Message, DecodeError>)
    ensures r.Ok? ==> r.value.HelloAck?
  {
    var (version, p) :- GetString(p);
    var (serverName, p) :- GetString(p);
    var (features, p) :- GetList(p);
    Ok(HelloAck(version, serverName, features))
  }

  function DecodeSendAck(p: seq<u8>): (r: Result<Message, DecodeError>)
    ensures r.Ok? ==> r.value.SendAck?
  {
    var (ok, p) :- GetU8(p);
    var (text, p) :- GetString(p);
    Ok(SendAck(ok != 0, if text == [] then None else Some(text)))
  }

  function DecodeFrameEvent(p: seq<u8>): (r: Result<Message, DecodeError>)
    ensures r.Ok? ==> r.value.FrameEvent?
  {
    var (tsMs, p) :- GetU64(p);
    var (iface, p) :- GetString(p);
    var (dir, p) :- GetString(p);
    var (id, p) :- GetU32(p);
    var (isFd, p) :- GetU8(p);
    var (data, p) :- GetData(p);
    Ok(FrameEvent(tsMs, iface, dir, id, isFd != 0, data))
  }

  /** The message of type `t` at the head of a payload. Bytes after its last field are ignored. */
  function DecodePayload(t: MsgType, p: seq<u8>): (r: Result<Message, DecodeError>)
  {
    match t
    case ClientHelloType => DecodeHello(p)
    case PingType => match GetU64(p) { case Ok((id, _)) => Ok(Ping(id)) case Err(e) => Err(e) }
    case ListIfacesType => Ok(ListIfaces)
    case SubscribeType => match GetList(p) { case Ok((wanted, _)) => Ok(Subscribe(wanted)) case Err(e) => Err(e) }
    case UnsubscribeType => Ok(Unsubscribe)
    case SendFrameType => DecodeSendFrame(p)
    case HelloAckType => DecodeHelloAck(p)
    case PongType => match GetU64(p) { case Ok((id, _)) => Ok(Pong(id)) case Err(e) => Err(e) }
    case IfacesType => match GetList(p) { case Ok((items, _)) => Ok(Ifaces(items)) case Err(e) => Err(e) }
    case SubscribedType => match GetList(p) { case Ok((ifaces, _)) => Ok(Subscribed(ifaces)) case Err(e) => Err(e) }
    case UnsubscribedType => Ok(Unsubscribed)
    case SendAckType => DecodeSendAck(p)
    case FrameEventType => DecodeFrameEvent(p)
    case ErrorType => match GetString(p) { case Ok((message, _)) => Ok(Error(message)) case Err(e) => Err(e) }
  }

  lemma DecodedType(t: MsgType, p: seq<u8>)
    ensures DecodePayload(t, p).Ok? ==> TypeOf(DecodePayload(t, p).value) == t
  {
    hide GetString, GetStrings, GetUint;
    match t
    case ClientHelloType =>
    case _ =>
  }

  /** `decode_client_payload` and `decode_daemon_payload`: each refuses the other side's types. */
  function DecodeSided(side: Side, t: MsgType, p: seq<u8>): (r: Result<Message, DecodeError>)
    ensures r.Ok? ==> TypeOf(r.value) == t && SideOf(t) == side
    ensures r.Ok? ==> (IsRequest(r.value) <==> side == FromClient)
  {
    DecodedType(t, p);
    if SideOf(t) != side then Err(WrongSide(t)) else DecodePayload(t, p)
  }

  // ---------------------------------------------------------------- packets

  datatype Frame = Partial | Whole(msgType: MsgType, payload: seq<u8>, total: nat)

  /** `decode_packet`: the magic is looked at only once a whole header is there, the type only once the whole
      payload is there. */
  function DecodePacket(buffer: seq<u8>): (r: Result<Frame, DecodeError>)
    ensures r.Ok? && r.value.Whole? ==>
              HEADER_LEN <= r.value.total <= |buffer| && r.value.payload == buffer[HEADER_LEN..r.value.total]
  {
    if |buffer| < HEADER_LEN then Ok(Partial)
    else if buffer[0..4] != MAGIC then Err(BadMagic)
    else
      var total := HEADER_LEN + FromLe(buffer[8..12]);
      if |buffer| < total then Ok(Partial)
      else
        LeOfFromLe(buffer[4..6]);
        Spans();
        var t :- TypeFromU16(FromLe(buffer[4..6]));
        Ok(Whole(t, buffer[HEADER_LEN..total], total))
  }

  datatype Decoded = Incomplete | Complete(msg: Message, consumed: nat)

  /** `decode_client_from` (side `FromClient`) and `decode_daemon_from` (side `FromDaemon`). */
  function DecodeFrom(side: Side, buffer: seq<u8>): (r: Result<Decoded, DecodeError>)
    ensures r.Ok? && r.value.Complete? ==> HEADER_LEN <= r.value.consumed <= |buffer|
    ensures r.Ok? && r.value.Complete? ==> (IsRequest(r.value.msg) <==> side == FromClient)
  {
    var frame :- DecodePacket(buffer);
    if frame.Partial? then Ok(Incomplete)
    else
      var m :- DecodeSided(side, frame.msgType, frame.payload);
      Ok(Complete(m, frame.total))
  }
}
