/** The codec in the form the source has: payloads pushed into a growing buffer, and read by a cursor that advances
    over a slice. Each routine is proved to compute the corresponding function of `BinaryMessage`. */
module PayloadCodec {
  import opened Bytes
  import opened Results
  import opened BinaryMessage
  import Utf8

  lemma {:induction false} StringsBytesAppends(ss: seq<Str>, s: Str)
    ensures StringsBytes(ss + [s]) == StringsBytes(ss) + StringBytes(s)
  {
    hide StringBytes;
    if ss == [] {
      assert StringsBytes([s][1..]) == [];
    } else {
      StringsBytesAppends(ss[1..], s);
      assert (ss + [s])[1..] == ss[1..] + [s];
    }
  }

  /** The `Vec<u8>` that the `put_*` functions append to. */
  class PayloadWriter {
    var out: seq<u8>

    constructor ()
      ensures out == []
    {
      out := [];
    }

    method Push(b: u8)
      modifies this
      ensures out == old(out) + [b]
    {
      out := out + [b];
    }

    method Extend(bytes: seq<u8>)
      modifies this
      ensures out == old(out) + bytes
    {
      out := out + bytes;
    }

    method PutU16(value: u16)
      modifies this
      ensures out == old(out) + Le(value, 2)
    {
      Extend(Le(value, 2));
    }

    method PutString(value: Str)
      modifies this
      ensures out == old(out) + StringBytes(value)
    {
      var len := if |value| <= 0xFFFF then |value| else 0xFFFF;
      Extend(Le(len, 2));
      Extend(value[..len]);
    }

    /** The count and the loop that the list-carrying messages share. */
    method PutList(values: seq<Str>)
      modifies this
      ensures out == old(out) + ListBytes(values)
    {
      hide StringBytes;
      PutU16(|values| % U16_SPAN);
      ghost var start := out;
      for i := 0 to |values|
        invariant out == start + StringsBytes(values[..i])
      {
        PutString(values[i]);
        StringsBytesAppends(values[..i], values[i]);
        assert values[..i + 1] == values[..i] + [values[i]];
      }
      assert values[..|values|] == values;
    }

    method PutData(data: seq<u8>)
      modifies this
      ensures out == old(out) + DataBytes(data)
    {
      PutU16(|data| % U16_SPAN);
      Extend(data);
    }
  }

  /** `encode_client_payload`. */
  method EncodeClientPayload(req: Request) returns (t: MsgType, payload: seq<u8>)
    ensures t == TypeOf(req) && payload == Payload(req)
  {
    hide StringBytes, ListBytes, DataBytes, Le;
    var w := new PayloadWriter();
    match req {
      case ClientHello(client, protocol) =>
        w.PutString(client);
        w.PutString(protocol);
        t := ClientHelloType;
      case Ping(id) =>
        w.Extend(Le(id, 8));
        t := PingType;
      case ListIfaces =>
        t := ListIfacesType;
      case Subscribe(wanted) =>
        w.PutList(wanted);
        t := SubscribeType;
      case Unsubscribe =>
        t := UnsubscribeType;
      case SendFrame(iface, id, isFd, brs, esi, data) =>
        w.PutString(iface);
        w.Extend(Le(id, 4));
        w.Push(BoolByte(isFd));
        w.Push(BoolByte(brs));
        w.Push(BoolByte(esi));
        w.PutData(data);
        t := SendFrameType;
    }
    payload := w.out;
  }

  /** `encode_daemon_payload`. */
  method EncodeDaemonPayload(resp: Response) returns (t: MsgType, payload: seq<u8>)
    ensures t == TypeOf(resp) && payload == Payload(resp)
  {
    hide StringBytes, ListBytes, DataBytes, Le;
    var w := new PayloadWriter();
    match resp {
      case HelloAck(version, serverName, features) =>
        w.PutString(version);
        w.PutString(serverName);
        w.PutList(features);
        t := HelloAckType;
      case Pong(id) =>
        w.Extend(Le(id, 8));
        t := PongType;
      case Ifaces(items) =>
        w.PutList(items);
        t := IfacesType;
      case Subscribed(ifaces) =>
        w.PutList(ifaces);
        t := SubscribedType;
      case Unsubscribed =>
        t := UnsubscribedType;
      case SendAck(ok, errorMessage) =>
        w.Push(BoolByte(ok));
        match errorMessage {
          case Some(text) => w.PutString(text);
          case None => w.PutString([]);
        }
        t := SendAckType;
      case FrameEvent(tsMs, iface, dir, id, isFd, data) =>
        w.Extend(Le(tsMs, 8));
        w.PutString(iface);
        w.PutString(dir);
        w.Extend(Le(id, 4));
        w.Push(BoolByte(isFd));
        w.PutData(data);
        t := FrameEventType;
      case Error(message) =>
        w.PutString(message);
        t := ErrorType;
    }
    payload := w.out;
  }

  /** `encode_packet`. */
  method EncodePacket(t: MsgType, payload: seq<u8>) returns (packet: seq<u8>)
    ensures packet == Packet(t, payload)
  {
    hide Le, TypeCode;
    packet := MAGIC;
    packet := packet + Le(TypeCode(t), 2);
    packet := packet + Le(0, 2);
    packet := packet + Le(|payload| % U32_SPAN, 4);
    packet := packet + payload;
  }

  // ---------------------------------------------------------------- reading

  function WithItems(acc: seq<Str>, r: Parsed<seq<Str>>): Parsed<seq<Str>> {
    match r
    case Ok((ss, rest)) => Ok((acc + ss, rest))
    case Err(e) => Err(e)
  }

  /** The `&mut &[u8]` that the `get_*` functions advance. After an error the slice is not used again. */
  class PayloadCursor {
    var input: seq<u8>

    constructor (bytes: seq<u8>)
      ensures input == bytes
    {
      input := bytes;
    }

    method GetU8() returns (r: Result<u8, DecodeError>)
      modifies this
      ensures Advanced(BinaryMessage.GetU8(old(input)), r, input)
    {
      if |input| < 1 { return Err(Eof); }
      var value := input[0];
      assert input[..1] == [value] && FromLe([value]) == value;
      input := input[1..];
      return Ok(value);
    }

    method GetU16() returns (r: Result<u16, DecodeError>)
      modifies this
      ensures Advanced(BinaryMessage.GetU16(old(input)), r, input)
    {
      if |input| < 2 { return Err(Eof); }
      Spans();
      LeOfFromLe(input[..2]);
      var value := FromLe(input[..2]);
      input := input[2..];
      return Ok(value);
    }

    method GetU32() returns (r: Result<u32, DecodeError>)
      modifies this
      ensures Advanced(BinaryMessage.GetU32(old(input)), r, input)
    {
      if |input| < 4 { return Err(Eof); }
      Spans();
      LeOfFromLe(input[..4]);
      var value := FromLe(input[..4]);
      input := input[4..];
      return Ok(value);
    }

    method GetU64() returns (r: Result<u64, DecodeError>)
      modifies this
      ensures Advanced(BinaryMessage.GetU64(old(input)), r, input)
    {
      if |input| < 8 { return Err(Eof); }
      Spans();
      LeOfFromLe(input[..8]);
      var value := FromLe(input[..8]);
      input := input[8..];
      return Ok(value);
    }

    method GetString() returns (r: Result<Str, DecodeError>)
      modifies this
      ensures Advanced(BinaryMessage.GetString(old(input)), r, input)
    {
      hide Utf8.Valid, BinaryMessage.GetU16;
      var len :- GetU16();
      if |input| < len { return Err(EofInString); }
      if !Utf8.Valid(input[..len]) { return Err(BadUtf8); }
      var s := input[..len];
      input := input[len..];
      return Ok(s);
    }

    /** The count and the loop that the list-carrying messages share. */
    method GetList() returns (r: Result<seq<Str>, DecodeError>)
      modifies this
      ensures Advanced(BinaryMessage.GetList(old(input)), r, input)
    {
      hide BinaryMessage.GetString, BinaryMessage.GetU16;
      var count :- GetU16();
      var items: seq<Str> := [];
      ghost var whole := GetStrings(input, count);
      assert WithItems([], whole) == whole by { if whole.Ok? { assert [] + whole.value.0 == whole.value.0; } }
      for i := 0 to count
        invariant whole == WithItems(items, GetStrings(input, count - i))
      {
        ghost var before := input;
        var s :- GetString();
        ghost var tail := GetStrings(input, count - i - 1);
        if tail.Ok? { assert items + ([s] + tail.value.0) == (items + [s]) + tail.value.0; }
        items := items + [s];
      }
      assert items + [] == items;
      return Ok(items);
    }

    method GetData() returns (r: Result<seq<u8>, DecodeError>)
      modifies this
      ensures Advanced(BinaryMessage.GetData(old(input)), r, input)
    {
      hide BinaryMessage.GetU16;
      var len :- GetU16();
      if |input| < len { return Err(BadDataLen); }
      var data := input[..len];
      input := input[len..];
      return Ok(data);
    }
  }

  /** The cursor method returned what the parsing function gives, and stands where the function leaves off. */
  predicate Advanced<T(==)>(p: Parsed<T>, r: Result<T, DecodeError>, input: seq<u8>) {
    match p
    case Ok((value, rest)) => r == Ok(value) && input == rest
    case Err(e) => r == Err(e)
  }

  /** `decode_client_payload`. */
  method DecodeClientPayload(t: MsgType, payload: seq<u8>) returns (r: Result<Message, DecodeError>)
    ensures r == DecodeSided(FromClient, t, payload)
  {
    hide GetString, GetU8, GetU32, GetU64, GetList, GetData;
    var c := new PayloadCursor(payload);
    match t {
      case ClientHelloType =>
        var client :- c.GetString();
        var protocol :- c.GetString();
        return Ok(ClientHello(client, protocol));
      case PingType =>
        var id :- c.GetU64();
        return Ok(Ping(id));
      case ListIfacesType =>
        return Ok(ListIfaces);
      case SubscribeType =>
        var wanted :- c.GetList();
        return Ok(Subscribe(wanted));
      case UnsubscribeType =>
        return Ok(Unsubscribe);
      case SendFrameType =>
        var iface :- c.GetString();
        var id :- c.GetU32();
        var isFd :- c.GetU8();
        var brs :- c.GetU8();
        var esi :- c.GetU8();
        var data :- c.GetData();
        return Ok(SendFrame(iface, id, isFd != 0, brs != 0, esi != 0, data));
      case _ =>
        return Err(WrongSide(t));
    }
  }

  /** `decode_daemon_payload`. */
  method DecodeDaemonPayload(t: MsgType, payload: seq<u8>) returns (r: Result<Message, DecodeError>)
    ensures r == DecodeSided(FromDaemon, t, payload)
  {
    hide GetString, GetU8, GetU32, GetU64, GetList, GetData;
    var c := new PayloadCursor(payload);
    match t {
      case HelloAckType =>
        var version :- c.GetString();
        var serverName :- c.GetString();
        var features :- c.GetList();
        return Ok(HelloAck(version, serverName, features));
      case PongType =>
        var id :- c.GetU64();
        return Ok(Pong(id));
      case IfacesType =>
        var items :- c.GetList();
        return Ok(Ifaces(items));
      case SubscribedType =>
        var ifaces :- c.GetList();
        return Ok(Subscribed(ifaces));
      case UnsubscribedType =>
        return Ok(Unsubscribed);
      case SendAckType =>
        var ok :- c.GetU8();
        var text :- c.GetString();
        return Ok(SendAck(ok != 0, if text == [] then None else Some(text)));
      case FrameEventType =>
        var tsMs :- c.GetU64();
        var iface :- c.GetString();
        var dir :- c.GetString();
        var id :- c.GetU32();
        var isFd :- c.GetU8();
        var data :- c.GetData();
        return Ok(FrameEvent(tsMs, iface, dir, id, isFd != 0, data));
      case ErrorType =>
        var message :- c.GetString();
        return Ok(Error(message));
      case _ =>
        return Err(WrongSide(t));
    }
  }

  /** `decode_client_from`. */
  method DecodeClientFrom(buffer: seq<u8>) returns (r: Result<Decoded, DecodeError>)
    ensures r == DecodeFrom(FromClient, buffer)
  {
    hide DecodePacket, DecodeSided;
    var frame :- DecodePacket(buffer);
    if frame.Partial? { return Ok(Incomplete); }
    var request :- DecodeClientPayload(frame.msgType, frame.payload);
    return Ok(Complete(request, frame.total));
  }

  /** `decode_daemon_from`. */
  method DecodeDaemonFrom(buffer: seq<u8>) returns (r: Result<Decoded, DecodeError>)
    ensures r == DecodeFrom(FromDaemon, buffer)
  {
    hide DecodePacket, DecodeSided;
    var frame :- DecodePacket(buffer);
    if frame.Partial? { return Ok(Incomplete); }
    var response :- DecodeDaemonPayload(frame.msgType, frame.payload);
    return Ok(Complete(response, frame.total));
  }

  /** `encode_client` and `encode_daemon`. */
  method EncodeMessage(m: Message) returns (packet: seq<u8>)
    ensures packet == Encode(m)
  {
    hide Payload, Packet;
    var t, payload;
    if IsRequest(m) {
      t, payload := EncodeClientPayload(m);
    } else {
      t, payload := EncodeDaemonPayload(m);
    }
    packet := EncodePacket(t, payload);
  }
}
