/** What the decoders answer on any bytes at all, read off the bytes by their offsets. */
module DecoderVerdict {
  import opened Bytes
  import opened Results
  import opened BinaryMessage
  import WireLayout
  import Utf8

  // ---------------------------------------------------------------- fields at an offset

  /** What is wrong with the string that begins at `k`. */
  function StringFault(p: seq<u8>, k: nat): Option<DecodeError> {
    hide Utf8.Valid;
    if |p| < k + 2 then Some(Eof)
    else if |p| < k + 2 + U16At(p, k) then Some(EofInString)
    else if !Utf8.Valid(p[k + 2..k + 2 + U16At(p, k)]) then Some(BadUtf8)
    else None
  }

  function StringEnd(p: seq<u8>, k: nat): nat
    requires k + 2 <= |p|
  {
    k + 2 + U16At(p, k)
  }

  function StringIn(p: seq<u8>, k: nat): Str
    requires StringFault(p, k).None?
  {
    p[k + 2..StringEnd(p, k)]
  }

  /** The offset after `n` strings from `k` on, or what is wrong with the first bad one. */
  function StringsEnd(p: seq<u8>, k: nat, n: nat): (r: Result<nat, DecodeError>)
    ensures r.Ok? && k <= |p| ==> k <= r.value <= |p|
  {
    hide Utf8.Valid;
    if n == 0 then Ok(k)
    else
      var j :- StringsEnd(p, k, n - 1);
      if StringFault(p, j).Some? then Err(StringFault(p, j).value) else Ok(StringEnd(p, j))
  }

  function StringsIn(p: seq<u8>, k: nat, n: nat): (ss: seq<Str>)
    requires StringsEnd(p, k, n).Ok?
    ensures |ss| == n
  {
    hide Utf8.Valid;
    if n == 0 then [] else StringsIn(p, k, n - 1) + [StringIn(p, StringsEnd(p, k, n - 1).value)]
  }

  lemma GetU8At(p: seq<u8>, k: nat)
    requires k <= |p|
    ensures GetU8(p[k..]) == if |p| < k + 1 then Err(Eof) else Ok((p[k], p[k + 1..]))
  {
    if k < |p| { assert p[k..][..1] == [p[k]] && FromLe([p[k]][1..]) == 0; }
  }

  lemma GetU16At(p: seq<u8>, k: nat)
    requires k <= |p|
    ensures GetU16(p[k..]) == if |p| < k + 2 then Err(Eof) else Ok((U16At(p, k), p[k + 2..]))
  {
    hide FromLe, Pow256;
    if k + 2 <= |p| {
      assert p[k..][..2] == p[k..k + 2];
      ReadsU16(p, k);
    }
  }

  lemma GetU32At(p: seq<u8>, k: nat)
    requires k <= |p|
    ensures GetU32(p[k..]) == if |p| < k + 4 then Err(Eof) else Ok((U32At(p, k), p[k + 4..]))
  {
    hide FromLe, Pow256;
    if k + 4 <= |p| {
      assert p[k..][..4] == p[k..k + 4];
      ReadsU32(p, k);
    }
  }

  lemma GetU64At(p: seq<u8>, k: nat)
    requires k <= |p|
    ensures GetU64(p[k..]) == if |p| < k + 8 then Err(Eof) else Ok((U64At(p, k), p[k + 8..]))
  {
    hide FromLe, Pow256;
    if k + 8 <= |p| {
      assert p[k..][..8] == p[k..k + 8];
      ReadsU64(p, k);
    }
  }

  lemma GetStringAt(p: seq<u8>, k: nat)
    requires k <= |p|
    ensures GetString(p[k..]) == if StringFault(p, k).Some? then Err(StringFault(p, k).value)
                                 else Ok((StringIn(p, k), p[StringEnd(p, k)..]))
  {
    hide GetU16, Utf8.Valid;
    GetU16At(p, k);
    if k + 2 <= |p| && StringEnd(p, k) <= |p| {
      assert p[k + 2..][..U16At(p, k)] == p[k + 2..k + 2 + U16At(p, k)];
    }
  }

  lemma GetDataAt(p: seq<u8>, k: nat)
    requires k <= |p|
    ensures GetData(p[k..]) == if |p| < k + 2 then Err(Eof)
                               else if |p| < k + 2 + U16At(p, k) then Err(BadDataLen)
                               else Ok((p[k + 2..k + 2 + U16At(p, k)], p[k + 2 + U16At(p, k)..]))
  {
    hide GetU16;
    GetU16At(p, k);
    if k + 2 <= |p| && k + 2 + U16At(p, k) <= |p| {
      assert p[k + 2..][..U16At(p, k)] == p[k + 2..k + 2 + U16At(p, k)];
    }
  }

  lemma {:induction false} StringsFromFirst(p: seq<u8>, k: nat, n: nat)
    requires k <= |p|
    ensures StringFault(p, k).Some? ==> StringsEnd(p, k, n + 1) == Err(StringFault(p, k).value)
    ensures StringFault(p, k).None? ==> StringsEnd(p, k, n + 1) == StringsEnd(p, StringEnd(p, k), n)
    ensures StringFault(p, k).None? && StringsEnd(p, k, n + 1).Ok? ==>
              StringsIn(p, k, n + 1) == [StringIn(p, k)] + StringsIn(p, StringEnd(p, k), n)
    decreases n
  {
    hide StringFault, StringIn;
    assert StringsEnd(p, k, 0) == Ok(k);
    if n == 0 {
      if StringFault(p, k).None? { assert StringsIn(p, k, 0) == []; }
    } else {
      StringsFromFirst(p, k, n - 1);
    }
  }

  lemma {:induction false} GetStringsAt(p: seq<u8>, k: nat, n: nat)
    requires k <= |p|
    ensures GetStrings(p[k..], n) == match StringsEnd(p, k, n)
                                     case Err(e) => Err(e)
                                     case Ok(end) => Ok((StringsIn(p, k, n), p[end..]))
    decreases n
  {
    hide StringFault, StringIn, GetString, Utf8.Valid;
    if n > 0 {
      GetStringAt(p, k);
      StringsFromFirst(p, k, n - 1);
      if StringFault(p, k).None? {
        NoFaultFits(p, k);
        GetStringsAt(p, StringEnd(p, k), n - 1);
      }
    }
  }

  lemma NoFaultFits(p: seq<u8>, k: nat)
    requires StringFault(p, k).None?
    ensures k + 2 <= StringEnd(p, k) <= |p|
  {
  }

  /** The list of strings whose count stands at `k`. */
  function ListIn(p: seq<u8>, k: nat): Result<seq<Str>, DecodeError> {
    hide StringsEnd, StringsIn;
    if |p| < k + 2 then Err(Eof)
    else
      match StringsEnd(p, k + 2, U16At(p, k))
      case Err(e) => Err(e)
      case Ok(_) => Ok(StringsIn(p, k + 2, U16At(p, k)))
  }

  lemma GetListAt(p: seq<u8>, k: nat)
    requires k <= |p|
    ensures var r := GetList(p[k..]);
            if r.Ok? then ListIn(p, k) == Ok(r.value.0) else ListIn(p, k) == Err(r.error)
  {
    hide GetU16, GetStrings, StringsEnd, StringsIn;
    GetU16At(p, k);
    if k + 2 <= |p| { GetStringsAt(p, k + 2, U16At(p, k)); }
  }

  // ---------------------------------------------------------------- payloads

  function ReadHello(p: seq<u8>): Result<Message, DecodeError> {
    hide StringFault, StringIn;
    if StringFault(p, 0).Some? then Err(StringFault(p, 0).value)
    else
      NoFaultFits(p, 0);
      var k := StringEnd(p, 0);
      if StringFault(p, k).Some? then Err(StringFault(p, k).value)
      else Ok(ClientHello(StringIn(p, 0), StringIn(p, k)))
  }

  /** Interface, id, three flags (any byte but zero is true), data. */
  function ReadSendFrame(p: seq<u8>): Result<Message, DecodeError> {
    hide StringFault, StringIn;
    if StringFault(p, 0).Some? then Err(StringFault(p, 0).value)
    else
      NoFaultFits(p, 0);
      var k := StringEnd(p, 0);
      if |p| < k + 9 then Err(Eof)
      else if |p| < k + 9 + U16At(p, k + 7) then Err(BadDataLen)
      else Ok(SendFrame(StringIn(p, 0), U32At(p, k), p[k + 4] != 0, p[k + 5] != 0, p[k + 6] != 0,
                        p[k + 9..k + 9 + U16At(p, k + 7)]))
  }

  function ReadHelloAck(p: seq<u8>): Result<Message, DecodeError> {
    hide StringFault, StringIn, ListIn;
    if StringFault(p, 0).Some? then Err(StringFault(p, 0).value)
    else
      NoFaultFits(p, 0);
      var k := StringEnd(p, 0);
      if StringFault(p, k).Some? then Err(StringFault(p, k).value)
      else
        NoFaultFits(p, k);
        match ListIn(p, StringEnd(p, k))
        case Err(e) => Err(e)
        case Ok(features) => Ok(HelloAck(StringIn(p, 0), StringIn(p, k), features))
  }

  /** A flag and a text; an empty text is no text. */
  function ReadSendAck(p: seq<u8>): Result<Message, DecodeError> {
    hide StringFault, StringIn;
    if |p| < 1 then Err(Eof)
    else if StringFault(p, 1).Some? then Err(StringFault(p, 1).value)
    else Ok(SendAck(p[0] != 0, if StringIn(p, 1) == [] then None else Some(StringIn(p, 1))))
  }

  /** Time, interface, direction, id, flag, data. */
  function ReadFrameEvent(p: seq<u8>): Result<Message, DecodeError> {
    hide StringFault, StringIn;
    if |p| < 8 then Err(Eof)
    else if StringFault(p, 8).Some? then Err(StringFault(p, 8).value)
    else
      NoFaultFits(p, 8);
      var j := StringEnd(p, 8);
      if StringFault(p, j).Some? then Err(StringFault(p, j).value)
      else
        NoFaultFits(p, j);
        var k := StringEnd(p, j);
        if |p| < k + 7 then Err(Eof)
        else if |p| < k + 7 + U16At(p, k + 5) then Err(BadDataLen)
        else Ok(FrameEvent(U64At(p, 0), StringIn(p, 8), StringIn(p, j), U32At(p, k), p[k + 4] != 0,
                           p[k + 7..k + 7 + U16At(p, k + 5)]))
  }

  /** What a payload says, by offsets, for the type with the given number. */
  function Reading(code: nat, p: seq<u8>): Result<Message, DecodeError>
    requires KnownCode(code)
  {
    hide ListIn, StringFault, StringIn, ReadHello, ReadSendFrame, ReadHelloAck, ReadSendAck, ReadFrameEvent;
    match code
    case 1 => ReadHelloAck(p)
    case 2 => if |p| < 8 then Err(Eof) else Ok(Pong(U64At(p, 0)))
    case 3 => (match ListIn(p, 0) case Err(e) => Err(e) case Ok(ss) => Ok(Ifaces(ss)))
    case 4 => (match ListIn(p, 0) case Err(e) => Err(e) case Ok(ss) => Ok(Subscribed(ss)))
    case 5 => Ok(Unsubscribed)
    case 6 => ReadSendAck(p)
    case 7 => ReadFrameEvent(p)
    case 8 => if StringFault(p, 0).Some? then Err(StringFault(p, 0).value) else Ok(Error(StringIn(p, 0)))
    case 101 => ReadHello(p)
    case 102 => if |p| < 8 then Err(Eof) else Ok(Ping(U64At(p, 0)))
    case 103 => Ok(ListIfaces)
    case 104 => (match ListIn(p, 0) case Err(e) => Err(e) case Ok(ss) => Ok(Subscribe(ss)))
    case 105 => Ok(Unsubscribe)
    case 106 => ReadSendFrame(p)
  }

  predicate KnownCode(c: nat) { 1 <= c <= 8 || 101 <= c <= 106 }

  lemma HelloRead(p: seq<u8>)
    ensures DecodeHello(p) == ReadHello(p)
  {
    hide StringFault, StringIn, GetString;
    assert p[0..] == p;
    GetStringAt(p, 0);
    if StringFault(p, 0).None? {
      NoFaultFits(p, 0);
      GetStringAt(p, StringEnd(p, 0));
    }
  }

  lemma SendFrameRead(p: seq<u8>)
    ensures DecodeSendFrame(p) == ReadSendFrame(p)
  {
    hide StringFault, StringIn, GetString, GetU8, GetU32, GetData;
    assert p[0..] == p;
    GetStringAt(p, 0);
    if StringFault(p, 0).None? {
      NoFaultFits(p, 0);
      var k := StringEnd(p, 0);
      GetU32At(p, k);
      if |p| >= k + 4 { GetU8At(p, k + 4); }
      if |p| >= k + 5 { GetU8At(p, k + 5); }
      if |p| >= k + 6 { GetU8At(p, k + 6); }
      if |p| >= k + 7 { GetDataAt(p, k + 7); }
    }
  }

  lemma HelloAckRead(p: seq<u8>)
    ensures DecodeHelloAck(p) == ReadHelloAck(p)
  {
    hide StringFault, StringIn, GetString, GetList, ListIn;
    assert p[0..] == p;
    GetStringAt(p, 0);
    if StringFault(p, 0).None? {
      NoFaultFits(p, 0);
      var k := StringEnd(p, 0);
      GetStringAt(p, k);
      if StringFault(p, k).None? {
        NoFaultFits(p, k);
        GetListAt(p, StringEnd(p, k));
      }
    }
  }

  lemma SendAckRead(p: seq<u8>)
    ensures DecodeSendAck(p) == ReadSendAck(p)
  {
    hide StringFault, StringIn, GetString, GetU8;
    assert p[0..] == p;
    GetU8At(p, 0);
    if |p| >= 1 { GetStringAt(p, 1); }
  }

  lemma FrameEventRead(p: seq<u8>)
    ensures DecodeFrameEvent(p) == ReadFrameEvent(p)
  {
    hide StringFault, StringIn, GetString, GetU8, GetU32, GetU64, GetData, U64At;
    assert p[0..] == p;
    GetU64At(p, 0);
    if |p| >= 8 {
      GetStringAt(p, 8);
      if StringFault(p, 8).None? {
        NoFaultFits(p, 8);
        var j := StringEnd(p, 8);
        GetStringAt(p, j);
        if StringFault(p, j).None? {
          NoFaultFits(p, j);
          var k := StringEnd(p, j);
          GetU32At(p, k);
          if |p| >= k + 4 { GetU8At(p, k + 4); }
          if |p| >= k + 5 { GetDataAt(p, k + 5); }
        }
      }
    }
  }

  /** The cursor decoders answer exactly what stands at the offsets, for every payload, good or bad. */
  lemma PayloadVerdict(t: MsgType, p: seq<u8>)
    ensures KnownCode(TypeCode(t)) && DecodePayload(t, p) == Reading(TypeCode(t), p)
  {
    hide StringFault, StringIn, GetString, GetU64, GetList, ListIn, DecodeHello, DecodeSendFrame, DecodeHelloAck, DecodeSendAck,
         DecodeFrameEvent, ReadHello, ReadSendFrame, ReadHelloAck, ReadSendAck, ReadFrameEvent, U64At;
    assert p[0..] == p;
    match t
    case ClientHelloType => HelloRead(p);
    case SendFrameType => SendFrameRead(p);
    case HelloAckType => HelloAckRead(p);
    case SendAckType => SendAckRead(p);
    case FrameEventType => FrameEventRead(p);
    case PingType => GetU64At(p, 0);
    case PongType => GetU64At(p, 0);
    case SubscribeType => GetListAt(p, 0);
    case IfacesType => GetListAt(p, 0);
    case SubscribedType => GetListAt(p, 0);
    case ErrorType => GetStringAt(p, 0);
    case _ =>
  }

  // ---------------------------------------------------------------- packets

  predicate HasMagic(b: seq<u8>)
    requires |b| >= 4
  {
    b[0] == 0x43 && b[1] == 0x42 && b[2] == 0x44 && b[3] == 0x31
  }

  /** A header with the magic and all the payload bytes it announces. */
  predicate AllThere(b: seq<u8>) { |b| >= 12 && HasMagic(b) && |b| >= 12 + U32At(b, 8) }

  /** Bytes are still missing: of the header, or of the payload behind a good header. */
  predicate StillMissing(b: seq<u8>) { |b| < 12 || (HasMagic(b) && |b| < 12 + U32At(b, 8)) }

  /** The answer of the packet decoder on every buffer. */
  lemma PacketVerdict(b: seq<u8>)
    ensures DecodePacket(b) == Ok(Partial) <==> StillMissing(b)
    ensures DecodePacket(b) == Err(BadMagic) <==> |b| >= 12 && !HasMagic(b)
    ensures forall raw: u16 :: DecodePacket(b) == Err(UnknownType(raw)) <==>
                            AllThere(b) && raw == U16At(b, 4) && !KnownCode(raw)
    ensures DecodePacket(b).Ok? && DecodePacket(b).value.Whole? <==> AllThere(b) && KnownCode(U16At(b, 4))
    ensures DecodePacket(b).Ok? && DecodePacket(b).value.Whole? ==>
              var f := DecodePacket(b).value;
              TypeCode(f.msgType) == U16At(b, 4) && f.total == 12 + U32At(b, 8) && f.payload == b[12..f.total]
  {
    hide FromLe, U16At, U32At;
    if |b| >= 12 {
      assert b[0..4] == MAGIC <==> HasMagic(b) by {
        var m := b[0..4];
        assert m[0] == b[0] && m[1] == b[1] && m[2] == b[2] && m[3] == b[3];
      }
      ReadsU16(b, 4);
      ReadsU32(b, 8);
      CodesAreKnown(U16At(b, 4));
    }
  }

  lemma CodesAreKnown(c: u16)
    ensures TypeFromU16(c).Ok? <==> KnownCode(c)
  {
  }

  /** A payload can be too short or hold bad text; nothing else is ever wrong with it. */
  predicate PayloadError(e: DecodeError) { e.Eof? || e.EofInString? || e.BadUtf8? || e.BadDataLen? }

  lemma {:induction false} StringsErrors(p: seq<u8>, k: nat, n: nat)
    ensures StringsEnd(p, k, n).Err? ==> PayloadError(StringsEnd(p, k, n).error)
    decreases n
  {
    hide Utf8.Valid;
    if n > 0 { StringsErrors(p, k, n - 1); }
  }

  lemma ListErrors(p: seq<u8>, k: nat)
    ensures ListIn(p, k).Err? ==> PayloadError(ListIn(p, k).error)
  {
    hide StringsEnd, StringsIn;
    if k + 2 <= |p| { StringsErrors(p, k + 2, U16At(p, k)); }
  }

  lemma StringErrors(p: seq<u8>, k: nat)
    ensures StringFault(p, k).Some? ==> PayloadError(StringFault(p, k).value)
  {
    hide Utf8.Valid;
  }

  lemma ReadingErrors(code: nat, p: seq<u8>)
    requires KnownCode(code)
    ensures Reading(code, p).Err? ==> PayloadError(Reading(code, p).error)
  {
    hide ListIn, StringFault, StringIn, PayloadError, U64At, U32At, U16At, ReadSendFrame, ReadFrameEvent, ReadHelloAck;
    ListErrors(p, 0);
    forall k ensures StringFault(p, k).Some? ==> PayloadError(StringFault(p, k).value) { StringErrors(p, k); }
    ShortErrors();
    ReadingErrorsOfThree(p);
  }

  lemma ShortErrors()
    ensures PayloadError(Eof) && PayloadError(BadDataLen)
  {
  }

  lemma ReadingErrorsOfThree(p: seq<u8>)
    ensures ReadSendFrame(p).Err? ==> PayloadError(ReadSendFrame(p).error)
    ensures ReadFrameEvent(p).Err? ==> PayloadError(ReadFrameEvent(p).error)
    ensures ReadHelloAck(p).Err? ==> PayloadError(ReadHelloAck(p).error)
  {
    hide ListIn, StringFault, StringIn, PayloadError, U64At, U32At;
    forall k ensures ListIn(p, k).Err? ==> PayloadError(ListIn(p, k).error) { ListErrors(p, k); }
    forall k ensures StringFault(p, k).Some? ==> PayloadError(StringFault(p, k).value) { StringErrors(p, k); }
    ShortErrors();
  }

  predicate OwnSide(side: Side, code: nat) { code > 100 <==> side == FromClient }

  /** The answer of the decoders on every buffer: which bytes lead to which message and which error. */
  lemma DecodeVerdict(side: Side, b: seq<u8>)
    ensures var r := DecodeFrom(side, b);
            && (r == Ok(Incomplete) <==> StillMissing(b))
            && (r == Err(BadMagic) <==> |b| >= 12 && !HasMagic(b))
            && (forall raw: u16 :: r == Err(UnknownType(raw)) <==> AllThere(b) && raw == U16At(b, 4) && !KnownCode(raw))
            && (forall t :: r == Err(WrongSide(t)) <==>
                  AllThere(b) && TypeCode(t) == U16At(b, 4) && !OwnSide(side, U16At(b, 4)))
            && (AllThere(b) && KnownCode(U16At(b, 4)) && OwnSide(side, U16At(b, 4)) ==>
                  var end := 12 + U32At(b, 8);
                  r == match Reading(U16At(b, 4), b[12..end])
                       case Ok(m) => Ok(Complete(m, end))
                       case Err(e) => Err(e))
  {
    hide DecodePacket, DecodePayload, Reading, U16At, U32At, TypeCode, TypeFromU16, HasMagic;
    PacketVerdict(b);
    if AllThere(b) && KnownCode(U16At(b, 4)) {
      var f := DecodePacket(b).value;
      PayloadVerdict(f.msgType, f.payload);
      ReadingErrors(U16At(b, 4), f.payload);
      CodesTellTypes(f.msgType);
    }
    KnownTypes();
  }

  lemma KnownTypes()
    ensures forall t :: KnownCode(TypeCode(t))
  {
  }

  lemma CodesTellTypes(t: MsgType)
    ensures forall u :: TypeCode(u) == TypeCode(t) ==> u == t
  {
  }
}
