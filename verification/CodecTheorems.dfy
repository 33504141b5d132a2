/** What decoding an encoding gives back, for every message; and what re-encoding a decoded message gives. */
module CodecTheorems {
  import opened Bytes
  import opened Results
  import opened BinaryMessage
  import Utf8

  // ---------------------------------------------------------------- the explicit canonical form

  /** The part of a string that is stored. */
  function Cut(s: Str): Str { s[..Stored(s)] }

  predicate CleanCut(s: Str) { Utf8.IsCharBoundary(s, Stored(s)) }

  function CutFirst(ss: seq<Str>, n: nat): (r: seq<Str>)
    requires n <= |ss|
    ensures |r| == n
    ensures forall i :: 0 <= i < n ==> r[i] == Cut(ss[i])
  {
    if n == 0 then [] else [Cut(ss[0])] + CutFirst(ss[1..], n - 1)
  }

  predicate CleanFirst(ss: seq<Str>, n: nat)
    requires n <= |ss|
  {
    forall i :: 0 <= i < n ==> CleanCut(ss[i])
  }

  function CutList(ss: seq<Str>): seq<Str> { CutFirst(ss, |ss| % U16_SPAN) }
  predicate CleanList(ss: seq<Str>) { CleanFirst(ss, |ss| % U16_SPAN) }
  function CutData(d: seq<u8>): seq<u8> { d[..|d| % U16_SPAN] }

  /** Strings cut to 65535 bytes, lists and data cut to their length modulo 65536, `Some("")` turned into `None`. */
  function Canonical(m: Message): Message {
    match m
    case ClientHello(client, protocol) => ClientHello(Cut(client), Cut(protocol))
    case Subscribe(wanted) => Subscribe(CutList(wanted))
    case SendFrame(iface, id, isFd, brs, esi, data) => SendFrame(Cut(iface), id, isFd, brs, esi, CutData(data))
    case HelloAck(version, serverName, features) => HelloAck(Cut(version), Cut(serverName), CutList(features))
    case Ifaces(items) => Ifaces(CutList(items))
    case Subscribed(ifaces) => Subscribed(CutList(ifaces))
    case SendAck(ok, Some(text)) => SendAck(ok, if text == [] then None else Some(Cut(text)))
    case FrameEvent(tsMs, iface, dir, id, isFd, data) =>
      FrameEvent(tsMs, Cut(iface), Cut(dir), id, isFd, CutData(data))
    case Error(message) => Error(Cut(message))
    case _ => m
  }

  /** No string that the decoder will read was cut inside a character. */
  predicate KeptCutsClean(m: Message) {
    match m
    case ClientHello(client, protocol) => CleanCut(client) && CleanCut(protocol)
    case Subscribe(wanted) => CleanList(wanted)
    case SendFrame(iface, _, _, _, _, _) => CleanCut(iface)
    case HelloAck(version, serverName, features) => CleanCut(version) && CleanCut(serverName) && CleanList(features)
    case Ifaces(items) => CleanList(items)
    case Subscribed(ifaces) => CleanList(ifaces)
    case SendAck(_, Some(text)) => CleanCut(text)
    case FrameEvent(_, iface, dir, _, _, _) => CleanCut(iface) && CleanCut(dir)
    case Error(message) => CleanCut(message)
    case _ => true
  }

  predicate AllValid(ss: seq<Str>) { forall i :: 0 <= i < |ss| ==> Utf8.Valid(ss[i]) }

  /** Every string is UTF-8, as the `String` type guarantees in the source. */
  predicate WellFormed(m: Message) {
    match m
    case ClientHello(client, protocol) => Utf8.Valid(client) && Utf8.Valid(protocol)
    case Subscribe(wanted) => AllValid(wanted)
    case SendFrame(iface, _, _, _, _, _) => Utf8.Valid(iface)
    case HelloAck(version, serverName, features) =>
      Utf8.Valid(version) && Utf8.Valid(serverName) && AllValid(features)
    case Ifaces(items) => AllValid(items)
    case Subscribed(ifaces) => AllValid(ifaces)
    case SendAck(_, Some(text)) => Utf8.Valid(text)
    case FrameEvent(_, iface, dir, _, _, _) => Utf8.Valid(iface) && Utf8.Valid(dir)
    case Error(message) => Utf8.Valid(message)
    case _ => true
  }

  predicate ShortList(ss: seq<Str>) {
    |ss| < U16_SPAN && forall i :: 0 <= i < |ss| ==> |ss[i]| < U16_SPAN
  }

  /** Every string, list and data block fits its 16-bit length, and no error text is `Some("")`. */
  predicate InRange(m: Message) {
    match m
    case ClientHello(client, protocol) => |client| < U16_SPAN && |protocol| < U16_SPAN
    case Subscribe(wanted) => ShortList(wanted)
    case SendFrame(iface, _, _, _, _, data) => |iface| < U16_SPAN && |data| < U16_SPAN
    case HelloAck(version, serverName, features) =>
      |version| < U16_SPAN && |serverName| < U16_SPAN && ShortList(features)
    case Ifaces(items) => ShortList(items)
    case Subscribed(ifaces) => ShortList(ifaces)
    case SendAck(_, Some(text)) => 0 < |text| < U16_SPAN
    case FrameEvent(_, iface, dir, _, _, data) => |iface| < U16_SPAN && |dir| < U16_SPAN && |data| < U16_SPAN
    case Error(message) => |message| < U16_SPAN
    case _ => true
  }

  // ---------------------------------------------------------------- fields read back

  lemma UintReads(v: nat, w: nat, rest: seq<u8>)
    requires v < Pow256(w)
    ensures GetUint(Le(v, w) + rest, w) == Ok((v, rest))
  {
    FieldReadsBack(v, w, rest);
  }

  lemma StringReads(s: Str, rest: seq<u8>)
    requires Utf8.Valid(s)
    ensures GetString(StringBytes(s) + rest) == if CleanCut(s) then Ok((Cut(s), rest)) else Err(BadUtf8)
  {
    hide Le, FromLe, Utf8.Valid, GetUint;
    var n := Stored(s);
    Spans();
    UintReads(n, 2, s[..n] + rest);
    assert StringBytes(s) + rest == Le(n, 2) + (s[..n] + rest);
    assert (s[..n] + rest)[..n] == s[..n] && (s[..n] + rest)[n..] == rest;
    Utf8.CutIsValid(s, n);
  }

  lemma {:induction false} StringsRead(ss: seq<Str>, n: nat, rest: seq<u8>)
    requires n <= |ss| && AllValid(ss)
    ensures GetStrings(StringsBytes(ss) + rest, n) ==
            if CleanFirst(ss, n) then Ok((CutFirst(ss, n), StringsBytes(ss[n..]) + rest)) else Err(BadUtf8)
    decreases n
  {
    hide GetString, Utf8.Valid;
    if n == 0 {
      assert ss[0..] == ss;
    } else {
      var tail := StringsBytes(ss[1..]) + rest;
      assert StringsBytes(ss) + rest == StringBytes(ss[0]) + tail;
      StringReads(ss[0], tail);
      StringsRead(ss[1..], n - 1, rest);
      assert ss[1..][n - 1..] == ss[n..];
      assert CleanFirst(ss, n) <==> CleanCut(ss[0]) && CleanFirst(ss[1..], n - 1) by {
        if CleanCut(ss[0]) && CleanFirst(ss[1..], n - 1) {
          forall i | 0 <= i < n ensures CleanCut(ss[i]) { if i > 0 { assert ss[i] == ss[1..][i - 1]; } }
        }
      }
    }
  }

  lemma ListReads(ss: seq<Str>)
    requires AllValid(ss)
    ensures var r := GetList(ListBytes(ss));
            if CleanList(ss) then r.Ok? && r.value.0 == CutList(ss) else r == Err(BadUtf8)
  {
    var k := |ss| % U16_SPAN;
    Spans();
    UintReads(k, 2, StringsBytes(ss));
    StringsRead(ss, k, []);
    assert StringsBytes(ss) + [] == StringsBytes(ss);
  }

  lemma DataReads(d: seq<u8>)
    ensures GetData(DataBytes(d)) == Ok((CutData(d), d[|d| % U16_SPAN..]))
  {
    Spans();
    UintReads(|d| % U16_SPAN, 2, d);
  }

  lemma ByteReads(b: u8, rest: seq<u8>)
    ensures GetU8([b] + rest) == Ok((b, rest))
  {
    assert ([b] + rest)[..1] == [b];
    assert FromLe([b]) == b;
  }

  // ---------------------------------------------------------------- payloads read back

  ghost predicate ReadsBack(m: Message) {
    DecodePayload(TypeOf(m), Payload(m)) == if KeptCutsClean(m) then Ok(Canonical(m)) else Err(BadUtf8)
  }

  lemma HelloReads(m: Message)
    requires m.ClientHello? && WellFormed(m)
    ensures ReadsBack(m)
  {
    hide GetString, Utf8.Valid, StringBytes;
    StringReads(m.client, StringBytes(m.protocol));
    StringReads(m.protocol, []);
    assert StringBytes(m.protocol) + [] == StringBytes(m.protocol);
  }

  lemma SendFrameReads(m: Message)
    requires m.SendFrame? && WellFormed(m)
    ensures ReadsBack(m)
  {
    hide GetString, GetUint, GetData, GetU8, Utf8.Valid, StringBytes, DataBytes, Le;
    var tail3 := DataBytes(m.data);
    var tail2 := [BoolByte(m.isFd), BoolByte(m.brs), BoolByte(m.esi)] + tail3;
    var tail1 := Le(m.id, 4) + tail2;
    StringReads(m.iface, tail1);
    Spans();
    UintReads(m.id, 4, tail2);
    assert tail2 == [BoolByte(m.isFd)] + ([BoolByte(m.brs)] + ([BoolByte(m.esi)] + tail3));
    ByteReads(BoolByte(m.isFd), [BoolByte(m.brs)] + ([BoolByte(m.esi)] + tail3));
    ByteReads(BoolByte(m.brs), [BoolByte(m.esi)] + tail3);
    ByteReads(BoolByte(m.esi), tail3);
    DataReads(m.data);
  }

  lemma HelloAckReads(m: Message)
    requires m.HelloAck? && WellFormed(m)
    ensures ReadsBack(m)
  {
    hide GetString, GetList, Utf8.Valid, StringBytes, ListBytes, CutList, CleanList;
    StringReads(m.version, StringBytes(m.serverName) + ListBytes(m.features));
    StringReads(m.serverName, ListBytes(m.features));
    ListReads(m.features);
  }

  lemma SendAckReads(m: Message)
    requires m.SendAck? && WellFormed(m)
    ensures ReadsBack(m)
  {
    hide GetString, GetU8, Utf8.Valid, StringBytes;
    var text := if m.errorMessage.Some? then m.errorMessage.value else [];
    assert Utf8.Valid(text) by { EmptyIsValid(); }
    ByteReads(BoolByte(m.ok), StringBytes(text));
    StringReads(text, []);
    assert StringBytes(text) + [] == StringBytes(text);
  }

  lemma EmptyIsValid()
    ensures Utf8.Valid([])
  {
  }

  lemma FrameEventReads(m: Message)
    requires m.FrameEvent? && WellFormed(m)
    ensures ReadsBack(m)
  {
    hide GetString, GetUint, GetData, GetU8, Utf8.Valid, StringBytes, DataBytes, Le;
    var tail4 := [BoolByte(m.isFd)] + DataBytes(m.data);
    var tail3 := Le(m.id, 4) + tail4;
    var tail2 := StringBytes(m.dir) + tail3;
    var tail1 := StringBytes(m.iface) + tail2;
    Spans();
    UintReads(m.tsMs, 8, tail1);
    StringReads(m.iface, tail2);
    StringReads(m.dir, tail3);
    UintReads(m.id, 4, tail4);
    ByteReads(BoolByte(m.isFd), DataBytes(m.data));
    DataReads(m.data);
  }

  lemma PayloadReads(m: Message)
    requires WellFormed(m)
    ensures ReadsBack(m)
  {
    hide GetString, GetUint, GetList, Utf8.Valid, StringBytes, ListBytes, CutList, CleanList, Le;
    Spans();
    match m
    case ClientHello(_, _) => HelloReads(m);
    case Ping(id) => UintReads(id, 8, []); assert Le(id, 8) + [] == Le(id, 8);
    case Subscribe(wanted) => ListReads(wanted);
    case SendFrame(_, _, _, _, _, _) => SendFrameReads(m);
    case HelloAck(_, _, _) => HelloAckReads(m);
    case Pong(id) => UintReads(id, 8, []); assert Le(id, 8) + [] == Le(id, 8);
    case Ifaces(items) => ListReads(items);
    case Subscribed(ifaces) => ListReads(ifaces);
    case SendAck(_, _) => SendAckReads(m);
    case FrameEvent(_, _, _, _, _, _) => FrameEventReads(m);
    case Error(message) =>
      StringReads(message, []);
      assert StringBytes(message) + [] == StringBytes(message);
    case _ =>
  }

  // ---------------------------------------------------------------- packets read back

  /** Framing, for every payload whatsoever: the decoder sees exactly the first `|payload| mod 2^32` payload bytes. */
  lemma PacketReads(t: MsgType, payload: seq<u8>, rest: seq<u8>)
    ensures var kept := |payload| % U32_SPAN;
            DecodePacket(Packet(t, payload) + rest) == Ok(Whole(t, payload[..kept], HEADER_LEN + kept))
  {
    hide Le, FromLe, TypeCode;
    var kept := |payload| % U32_SPAN;
    var b := Packet(t, payload) + rest;
    assert b[0..4] == MAGIC;
    assert b[4..6] == Le(TypeCode(t), 2);
    assert b[8..12] == Le(kept, 4);
    assert b[12..12 + kept] == payload[..kept];
    Spans();
    FromLeOfLe(TypeCode(t), 2);
    FromLeOfLe(kept, 4);
  }

  predicate Encodable(m: Message) {
    WellFormed(m) && |Payload(m)| < U32_SPAN && KeptCutsClean(m)
  }

  /** Decoding the encoding of any message whose payload is under 2^32 bytes: its canonical form, or a UTF-8 error
      exactly when a kept string was cut inside a character; bytes that follow the packet do not matter. */
  lemma EncodingCharacterised(m: Message, rest: seq<u8>)
    requires WellFormed(m) && |Payload(m)| < U32_SPAN
    ensures DecodeFrom(SideOf(TypeOf(m)), Encode(m) + rest) ==
            if KeptCutsClean(m) then Ok(Complete(Canonical(m), |Encode(m)|)) else Err(BadUtf8)
  {
    hide DecodePacket, DecodePayload, Payload, KeptCutsClean, Canonical, Packet;
    PacketReads(TypeOf(m), Payload(m), rest);
    PayloadReads(m);
    assert Payload(m)[..|Payload(m)|] == Payload(m);
  }

  lemma {:induction false} CutFirstIsIdentity(ss: seq<Str>, n: nat)
    requires n <= |ss|
    ensures CutFirst(ss, n) == ss[..n] <==> forall i :: 0 <= i < n ==> |ss[i]| < U16_SPAN
  {
    forall i | 0 <= i < n && |ss[i]| < U16_SPAN ensures CutFirst(ss, n)[i] == ss[..n][i] {}
    if CutFirst(ss, n) == ss[..n] {
      forall i | 0 <= i < n ensures |ss[i]| < U16_SPAN {
        assert Cut(ss[i]) == ss[..n][i];
      }
    }
  }

  lemma ListIsKept(ss: seq<Str>)
    ensures CleanList(ss) && CutList(ss) == ss <==> ShortList(ss)
  {
    var k := |ss| % U16_SPAN;
    CutFirstIsIdentity(ss, k);
    if |ss| < U16_SPAN {
      assert ss[..k] == ss;
    }
  }

  lemma StringIsKept(s: Str)
    ensures CleanCut(s) && Cut(s) == s <==> |s| < U16_SPAN
  {
  }

  lemma DataIsKept(d: seq<u8>)
    ensures CutData(d) == d <==> |d| < U16_SPAN
  {
  }

  /** A message survives the trip unchanged exactly when every length fits its 16-bit field. */
  lemma IdentityIffInRange(m: Message)
    ensures KeptCutsClean(m) && Canonical(m) == m <==> InRange(m)
  {
    hide CutList, CleanList, ShortList, Cut, CleanCut, CutData;
    match m
    case ClientHello(client, protocol) => StringIsKept(client); StringIsKept(protocol);
    case Subscribe(wanted) => ListIsKept(wanted);
    case SendFrame(iface, _, _, _, _, data) => StringIsKept(iface); DataIsKept(data);
    case HelloAck(version, serverName, features) =>
      StringIsKept(version); StringIsKept(serverName); ListIsKept(features);
    case SendAck(_, Some(text)) => StringIsKept(text);
    case FrameEvent(_, iface, dir, _, _, data) => StringIsKept(iface); StringIsKept(dir); DataIsKept(data);
    case Error(message) => StringIsKept(message);
    case Ifaces(items) => ListIsKept(items);
    case Subscribed(ifaces) => ListIsKept(ifaces);
    case _ =>
  }

  // ---------------------------------------------------------------- re-encoding what was decoded

  lemma GotString(input: seq<u8>)
    requires GetString(input).Ok?
    ensures var (s, rest) := GetString(input).value;
            Utf8.Valid(s) && |s| < U16_SPAN && |StringBytes(s)| + |rest| == |input|
  {
  }

  lemma {:induction false} GotStrings(input: seq<u8>, count: nat)
    requires count < U16_SPAN && GetStrings(input, count).Ok?
    ensures var (ss, rest) := GetStrings(input, count).value;
            AllValid(ss) && ShortList(ss) && |StringsBytes(ss)| + |rest| == |input|
    decreases count
  {
    hide GetString, Utf8.Valid, StringBytes;
    if count > 0 {
      GotString(input);
      var (s, rest) := GetString(input).value;
      GotStrings(rest, count - 1);
      var (tail, rest') := GetStrings(rest, count - 1).value;
      assert ([s] + tail)[1..] == tail;
    }
  }

  lemma GotList(input: seq<u8>)
    requires GetList(input).Ok?
    ensures var (ss, rest) := GetList(input).value;
            AllValid(ss) && ShortList(ss) && |ListBytes(ss)| + |rest| == |input|
  {
    hide GetStrings, AllValid, ShortList, StringsBytes;
    var (count, rest) := GetU16(input).value;
    GotStrings(rest, count);
  }

  /** What a decoded payload can hold: valid strings, lengths that fit, and no more bytes than were read. */
  ghost predicate FitsIn(m: Message, p: seq<u8>) {
    WellFormed(m) && InRange(m) && |Payload(m)| <= |p|
  }

  lemma GotHello(p: seq<u8>)
    requires DecodeHello(p).Ok?
    ensures FitsIn(DecodeHello(p).value, p)
  {
    hide GetString, Utf8.Valid, StringBytes;
    GotString(p);
    GotString(GetString(p).value.1);
  }

  lemma GotSendFrame(p: seq<u8>)
    requires DecodeSendFrame(p).Ok?
    ensures FitsIn(DecodeSendFrame(p).value, p)
  {
    hide GetString, Utf8.Valid, StringBytes;
    GotString(p);
  }

  lemma GotHelloAck(p: seq<u8>)
    requires DecodeHelloAck(p).Ok?
    ensures FitsIn(DecodeHelloAck(p).value, p)
  {
    hide GetString, GetList, Utf8.Valid, StringBytes, ListBytes, ShortList, AllValid;
    GotString(p);
    var p1 := GetString(p).value.1;
    GotString(p1);
    GotList(GetString(p1).value.1);
  }

  lemma GotSendAck(p: seq<u8>)
    requires DecodeSendAck(p).Ok?
    ensures FitsIn(DecodeSendAck(p).value, p)
  {
    hide GetString, Utf8.Valid;
    GotString(p[1..]);
  }

  lemma GotFrameEvent(p: seq<u8>)
    requires DecodeFrameEvent(p).Ok?
    ensures FitsIn(DecodeFrameEvent(p).value, p)
  {
    hide GetString, Utf8.Valid, StringBytes;
    GotString(p[8..]);
    GotString(GetString(p[8..]).value.1);
  }

  lemma GotPayload(t: MsgType, p: seq<u8>)
    requires DecodePayload(t, p).Ok?
    ensures FitsIn(DecodePayload(t, p).value, p)
  {
    hide GetString, GetList, Utf8.Valid, StringBytes, ListBytes, ShortList, AllValid,
         DecodeHello, DecodeSendFrame, DecodeHelloAck, DecodeSendAck, DecodeFrameEvent;
    match t
    case ClientHelloType => GotHello(p);
    case SubscribeType => GotList(p);
    case SendFrameType => GotSendFrame(p);
    case HelloAckType => GotHelloAck(p);
    case IfacesType => GotList(p);
    case SubscribedType => GotList(p);
    case SendAckType => GotSendAck(p);
    case FrameEventType => GotFrameEvent(p);
    case ErrorType => GotString(p);
    case _ =>
  }

  lemma PayloadLenFits(b: seq<u8>)
    requires DecodePacket(b).Ok? && DecodePacket(b).value.Whole?
    ensures |DecodePacket(b).value.payload| < U32_SPAN
  {
    hide FromLe;
    Spans();
    LeOfFromLe(b[8..12]);
  }

  /** Re-encoding any decoded message neither truncates nor wraps, is no longer than the packet it came from, and
      decodes to the same message. */
  lemma ReencodingIsRetraction(side: Side, b: seq<u8>, rest: seq<u8>)
    requires DecodeFrom(side, b).Ok? && DecodeFrom(side, b).value.Complete?
    ensures var m := DecodeFrom(side, b).value.msg;
            && Encodable(m) && InRange(m)
            && |Encode(m)| <= DecodeFrom(side, b).value.consumed
            && DecodeFrom(side, Encode(m) + rest) == Ok(Complete(m, |Encode(m)|))
  {
    hide DecodePacket, DecodePayload, Payload, KeptCutsClean, Canonical, Packet, InRange, WellFormed;
    var frame := DecodePacket(b).value;
    var m := DecodeFrom(side, b).value.msg;
    PayloadLenFits(b);
    GotPayload(frame.msgType, frame.payload);
    IdentityIffInRange(m);
    DecodedType(frame.msgType, frame.payload);
    EncodingCharacterised(m, rest);
  }

  // ---------------------------------------------------------------- bytes still to come

  /** A decision, once reached, is not revised by later bytes. */
  lemma DecodeIsPrefixStable(side: Side, b: seq<u8>, more: seq<u8>)
    requires DecodeFrom(side, b) != Ok(Incomplete)
    ensures DecodeFrom(side, b + more) == DecodeFrom(side, b)
  {
    hide DecodeSided, FromLe, TypeFromU16;
    var c := b + more;
    assert c[0..4] == b[0..4] && c[4..6] == b[4..6] && c[8..12] == b[8..12];
    if |b| >= HEADER_LEN + FromLe(b[8..12]) {
      assert c[HEADER_LEN..HEADER_LEN + FromLe(b[8..12])] == b[HEADER_LEN..HEADER_LEN + FromLe(b[8..12])];
    }
  }

  /** Part of a packet is never an error and never a message. */
  lemma PacketPrefixIsIncomplete(side: Side, m: Message, k: nat)
    requires |Payload(m)| < U32_SPAN && k < |Encode(m)|
    ensures DecodeFrom(side, Encode(m)[..k]) == Ok(Incomplete)
  {
    hide Le, FromLe, Payload, DecodeSided;
    if k >= HEADER_LEN {
      var b := Encode(m)[..k];
      assert b[0..4] == MAGIC;
      assert b[8..12] == Le(|Payload(m)|, 4);
      Spans();
      FromLeOfLe(|Payload(m)|, 4);
    }
  }

  // ---------------------------------------------------------------- the 32-bit length field

  function StoredTotal(ss: seq<Str>): nat {
    if ss == [] then 0 else Stored(ss[0]) + StoredTotal(ss[1..])
  }

  const MAX_STRING: nat := U16_SPAN - 1

  lemma {:induction false} StringsLength(ss: seq<Str>)
    ensures |StringsBytes(ss)| == 2 * |ss| + StoredTotal(ss)
    ensures StoredTotal(ss) <= |ss| * MAX_STRING
  {
    if ss != [] { StringsLength(ss[1..]); }
  }

  /** Is `m` a message whose payload is one string list, and which list? */
  function ListOf(m: Message): Option<seq<Str>> {
    match m
    case Subscribe(wanted) => Some(wanted)
    case Ifaces(items) => Some(items)
    case Subscribed(ifaces) => Some(ifaces)
    case _ => None
  }

  /** The list of 65535 entries whose stored bytes are at most one short of the maximum. */
  predicate Overlong(ss: seq<Str>) {
    |ss| == MAX_STRING && StoredTotal(ss) >= MAX_STRING * MAX_STRING - 1
  }

  /** For lists of at most 65535 entries the payload is at most 2^32+1 bytes, and the `u32` length field states its
      length exactly unless the list is `Overlong`. */
  lemma LengthFieldBound(m: Message)
    requires ListOf(m).Some? && |ListOf(m).value| < U16_SPAN
    ensures |Payload(m)| <= U32_SPAN + 1
    ensures FromLe(Encode(m)[8..12]) == |Payload(m)| <==> !Overlong(ListOf(m).value)
  {
    hide Le, FromLe, StringsBytes, StoredTotal;
    var ss := ListOf(m).value;
    StringsLength(ss);
    assert |Payload(m)| == 2 + 2 * |ss| + StoredTotal(ss);
    assert |Payload(m)| >= U32_SPAN <==> Overlong(ss);
    assert Encode(m)[8..12] == Le(|Payload(m)| % U32_SPAN, 4);
    Spans();
    FromLeOfLe(|Payload(m)| % U32_SPAN, 4);
  }

  /** An `Overlong` list does not decode: its wrapped length field leaves fewer than two payload bytes. */
  lemma OverlongListFails(m: Message, rest: seq<u8>)
    requires ListOf(m).Some? && Overlong(ListOf(m).value)
    ensures DecodeFrom(SideOf(TypeOf(m)), Encode(m) + rest) == Err(Eof)
  {
    hide Packet, Payload, StringsBytes, StoredTotal, DecodePacket, GetStrings;
    var ss := ListOf(m).value;
    StringsLength(ss);
    assert |Payload(m)| == 2 + 2 * |ss| + StoredTotal(ss) by { ListPayload(m); }
    PacketReads(TypeOf(m), Payload(m), rest);
    assert |Payload(m)| % U32_SPAN < 2;
  }

  lemma ListPayload(m: Message)
    requires ListOf(m).Some?
    ensures Payload(m) == ListBytes(ListOf(m).value)
  {
  }

  lemma {:induction false} FullStrings(n: nat, s: Str)
    requires |s| == MAX_STRING
    ensures StoredTotal(seq(n, _ => s)) == n * MAX_STRING
  {
    if n > 0 {
      assert seq(n, _ => s)[1..] == seq(n - 1, _ => s);
      FullStrings(n - 1, s);
    }
  }

  /** The bound is attained: 65535 strings of 65535 bytes make a payload of 2^32+1 bytes. */
  lemma BoundIsAttained(s: Str)
    requires |s| == MAX_STRING
    ensures var ss := seq(MAX_STRING, _ => s); Overlong(ss) && |Payload(Subscribe(ss))| == U32_SPAN + 1
  {
    hide StringsBytes, StoredTotal;
    var ss := seq(MAX_STRING, _ => s);
    FullStrings(MAX_STRING, s);
    StringsLength(ss);
  }
}
