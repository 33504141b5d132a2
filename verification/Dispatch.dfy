/** What a session does with one decoded request, on the binary transports and on the TCP JSON transport. */
module Dispatch {
  import opened Bytes
  import opened Results
  import opened BinaryMessage
  import opened Service
  import Protocol
  import Hex
  import Utf8

  /** The two binary transports; they differ only in the text that answers a repeated hello. */
  datatype Transport = TcpBinary | WsBinary

  /** The effects of handling one request: the subscription set, the reply, the TX-port calls and the events
      published on the bus. */
  datatype Effect<+R> = Effect(subscribed: set<Str>, reply: R, calls: seq<TxCall>, events: seq<Protocol.BusFrame>)

  function AsSet(ifaces: seq<Str>): set<Str> { set i | i in ifaces }

  function RepeatedHello(t: Transport): Response {
    Error(Utf8.Encode(match t
                      case TcpBinary => "client_hello already completed"
                      case WsBinary => "ClientHello already completed"))
  }

  function RepeatedHelloJson(): Protocol.DaemonResponse {
    hide Utf8.Encode;
    Protocol.Error(Utf8.Encode("client_hello already completed"))
  }

  function ListReply(response: Protocol.DaemonResponse): Response {
    hide Utf8.Encode;
    match response
    case Ifaces(items) => Ifaces(items)
    case Error(message) => Error(message)
    case _ => Error(Utf8.Encode("unexpected response for list_ifaces"))
  }

  function SendReply(response: Protocol.DaemonResponse): Response {
    hide Utf8.Encode;
    match response
    case SendAck(ok, errorMessage) => SendAck(ok, errorMessage)
    case Error(message) => SendAck(false, Some(message))
    case _ => Error(Utf8.Encode("unexpected response for send_frame"))
  }

  /** One iteration of the binary dispatch loop after a request was decoded. Frame data takes a detour through
      lower-case hex text because the service takes hex. */
  function DispatchBinary(t: Transport, subscribed: set<Str>, r: Request, o: Oracle): Effect<Response> {
    hide Utf8.Encode, Handle, Hex.HexLower, AsSet;
    match r
    case Ping(id) => Effect(subscribed, Pong(id), [], [])
    case ListIfaces =>
      var h := Handle(Protocol.ListIfaces, o);
      Effect(subscribed, ListReply(h.response), h.calls, h.events)
    case Subscribe(wanted) => Effect(AsSet(wanted), Subscribed(wanted), [], [])
    case Unsubscribe => Effect({}, Unsubscribed, [], [])
    case SendFrame(iface, id, isFd, brs, esi, data) =>
      var h := Handle(Protocol.SendFrame(iface, id, isFd, brs, esi, Hex.HexLower(data)), o);
      Effect(subscribed, SendReply(h.response), h.calls, h.events)
    case ClientHello(_, _) => Effect(subscribed, RepeatedHello(t), [], [])
  }

  /** One iteration of the JSON-lines dispatch loop after a line was parsed. */
  function DispatchJson(subscribed: set<Str>, r: Protocol.ClientRequest, o: Oracle): Effect<Protocol.DaemonResponse> {
    match r
    case Subscribe(ifaces, _) => Effect(AsSet(ifaces), Protocol.Subscribed(ifaces), [], [])
    case Unsubscribe => Effect({}, Protocol.Unsubscribed, [], [])
    case ClientHello(_, _) => Effect(subscribed, RepeatedHelloJson(), [], [])
    case _ =>
      var h := Handle(r, o);
      Effect(subscribed, h.response, h.calls, h.events)
  }

  // ---------------------------------------------------------------- frames leaving the bus

  function DirText(d: Protocol.Direction): Str {
    Utf8.Encode(if d.Rx? then "rx" else "tx")
  }

  function FrameToBinary(ev: Protocol.BusFrame): Response {
    FrameEvent(ev.tsMs, ev.iface, DirText(ev.dir), ev.id, ev.isFd, ev.data)
  }

  function FrameToJson(ev: Protocol.BusFrame): Protocol.DaemonResponse {
    Protocol.Frame(ev.tsMs, ev.iface, DirText(ev.dir), ev.id, ev.isFd, Hex.HexLower(ev.data))
  }

  // ---------------------------------------------------------------- the two transports agree

  /** A JSON request that asks for the same thing; its hex text may use either case and any whitespace. */
  predicate Corresponds(b: Request, j: Protocol.ClientRequest) {
    match b
    case Ping(id) => j == Protocol.Ping(id)
    case ListIfaces => j.ListIfaces?
    case Subscribe(wanted) => j.Subscribe? && j.ifaces == wanted
    case Unsubscribe => j.Unsubscribe?
    case SendFrame(iface, id, isFd, brs, esi, data) =>
      && j.SendFrame? && j.iface == iface && j.id == id && j.isFd == isFd && j.brs == brs && j.esi == esi
      && Hex.HexToBytes(j.dataHex) == Ok(data)
    case ClientHello(client, protocol) => j == Protocol.ClientHello(client, protocol)
  }

  /** The binary response that says what the JSON response says; the order in which features are listed says nothing. */
  predicate IsImage(b: Response, j: Protocol.DaemonResponse) {
    match j
    case HelloAck(version, features, serverName) =>
      b.HelloAck? && b.version == version && b.serverName == serverName && multiset(b.features) == multiset(features)
    case Pong(id) => b == Pong(id)
    case Ifaces(items) => b == Ifaces(items)
    case Subscribed(ifaces) => b == Subscribed(ifaces)
    case Unsubscribed => b == Unsubscribed
    case Frame(tsMs, iface, dir, id, isFd, dataHex) =>
      && b.FrameEvent? && b.tsMs == tsMs && b.iface == iface && b.dir == dir && b.id == id && b.isFd == isFd
      && Hex.HexToBytes(dataHex) == Ok(b.data)
    case SendAck(ok, errorMessage) => b == SendAck(ok, errorMessage)
    case Error(message) => b == Error(message)
  }

  ghost predicate SameEffect(b: Effect<Response>, j: Effect<Protocol.DaemonResponse>) {
    b.subscribed == j.subscribed && b.calls == j.calls && b.events == j.events && IsImage(b.reply, j.reply)
  }

  /** Binary and JSON dispatch of the same request have the same effects, and the replies say the same. The one
      exception is a hello repeated on the WebSocket transport, whose error text differs. */
  lemma TransportsAgree(t: Transport, subscribed: set<Str>, b: Request, j: Protocol.ClientRequest, o: Oracle)
    requires Corresponds(b, j)
    ensures SameEffect(DispatchBinary(t, subscribed, b, o), DispatchJson(subscribed, j, o))
            <==> !(t.WsBinary? && b.ClientHello?)
  {
    hide Hex.HexToBytes, Utf8.Encode, Hex.HexLower, Handle, SendReply, ListReply, AsSet, RepeatedHello, RepeatedHelloJson;
    match b
    case SendFrame(iface, id, isFd, brs, esi, data) =>
      SendsAgree(iface, id, isFd, brs, esi, data, j.dataHex, o);
    case ListIfaces => ListsAgree(o);
    case Ping(id) => PingsAgree(id, o);
    case ClientHello(_, _) => HellosAgree(t);
    case _ =>
  }

  lemma SendsAgree(iface: Str, id: u32, isFd: bool, brs: bool, esi: bool, data: seq<u8>, text: string, o: Oracle)
    requires Hex.HexToBytes(text) == Ok(data)
    ensures var h := Handle(Protocol.SendFrame(iface, id, isFd, brs, esi, text), o);
            && Handle(Protocol.SendFrame(iface, id, isFd, brs, esi, Hex.HexLower(data)), o) == h
            && h.response.SendAck? && IsImage(SendReply(h.response), h.response)
  {
    hide Hex.HexToBytes, Utf8.Encode, Hex.HexLower;
    Hex.HexRoundTrip(data);
  }

  lemma ListsAgree(o: Oracle)
    ensures var h := Handle(Protocol.ListIfaces, o); IsImage(ListReply(h.response), h.response)
  {
    hide Utf8.Encode;
  }

  lemma PingsAgree(id: u64, o: Oracle)
    ensures Handle(Protocol.Ping(id), o) == Handled(Protocol.Pong(id), [], [])
  {
    hide Utf8.Encode;
  }

  lemma FirstByte(s: string)
    requires |s| > 0 && s[0] as int < 0x80
    ensures |Utf8.Encode(s)| > 0 && Utf8.Encode(s)[0] == s[0] as int
  {
    hide Utf8.Valid, Utf8.HeadLen, Utf8.CharBytes;
  }

  lemma HellosAgree(t: Transport)
    ensures IsImage(RepeatedHello(t), RepeatedHelloJson()) <==> t.TcpBinary?
  {
    hide Utf8.Encode;
    FirstByte("client_hello already completed");
    FirstByte("ClientHello already completed");
  }

  lemma DirBytes(d: Protocol.Direction)
    ensures DirText(d) == if d.Rx? then [0x72, 0x78] else [0x74, 0x78]
  {
    hide Utf8.Encode;
    Utf8.AsciiIsItself("rx");
    Utf8.AsciiIsItself("tx");
    var rx, tx := Utf8.Encode("rx"), Utf8.Encode("tx");
    assert rx == [rx[0], rx[1]] && tx == [tx[0], tx[1]];
  }

  /** The frame event carries the time, interface, id, kind and data of the bus frame, and "rx" or "tx" in ASCII. */
  lemma FrameSays(ev: Protocol.BusFrame)
    ensures FrameToBinary(ev) ==
            FrameEvent(ev.tsMs, ev.iface, if ev.dir.Rx? then [0x72, 0x78] else [0x74, 0x78], ev.id, ev.isFd, ev.data)
  {
    hide DirText;
    DirBytes(ev.dir);
  }

  /** A frame event written by a binary session says what the JSON session's line says. */
  lemma FramesAgree(ev: Protocol.BusFrame)
    ensures IsImage(FrameToBinary(ev), FrameToJson(ev))
  {
    hide Hex.HexToBytes, Utf8.Encode, Hex.HexLower;
    Hex.HexRoundTrip(ev.data);
  }

  // ---------------------------------------------------------------- whole sessions

  /** Everything a session has done to its subscription set, its reply queue, the TX port and the bus. */
  datatype Totals<R> = Totals(subscribed: set<Str>, replies: seq<R>, calls: seq<TxCall>, events: seq<Protocol.BusFrame>)

  function Add<R>(s: Totals<R>, e: Effect<R>): Totals<R> {
    Totals(e.subscribed, s.replies + [e.reply], s.calls + e.calls, s.events + e.events)
  }

  function RunBinary(t: Transport, s: Totals<Response>, rs: seq<Request>, os: seq<Oracle>): Totals<Response>
    requires |os| == |rs|
    decreases |rs|
  {
    hide *;
    if rs == [] then s
    else RunBinary(t, Add(s, DispatchBinary(t, s.subscribed, rs[0], os[0])), rs[1..], os[1..])
  }

  function RunJson(s: Totals<Protocol.DaemonResponse>, rs: seq<Protocol.ClientRequest>, os: seq<Oracle>)
    : Totals<Protocol.DaemonResponse>
    requires |os| == |rs|
    decreases |rs|
  {
    hide *;
    if rs == [] then s
    else RunJson(Add(s, DispatchJson(s.subscribed, rs[0], os[0])), rs[1..], os[1..])
  }

  ghost predicate SameTotals(b: Totals<Response>, j: Totals<Protocol.DaemonResponse>) {
    && b.subscribed == j.subscribed && b.calls == j.calls && b.events == j.events
    && |b.replies| == |j.replies| && forall i :: 0 <= i < |b.replies| ==> IsImage(b.replies[i], j.replies[i])
  }

  /** Whole TCP sessions that ask for the same things, under the same port answers, do the same things. */
  lemma {:induction false} SessionsAgree(
    b: Totals<Response>, j: Totals<Protocol.DaemonResponse>,
    bs: seq<Request>, js: seq<Protocol.ClientRequest>, os: seq<Oracle>)
    requires SameTotals(b, j) && |bs| == |js| == |os|
    requires forall i :: 0 <= i < |bs| ==> Corresponds(bs[i], js[i])
    ensures SameTotals(RunBinary(TcpBinary, b, bs, os), RunJson(j, js, os))
    decreases |bs|
  {
    hide DispatchBinary, DispatchJson, Corresponds, IsImage;
    if bs != [] {
      TransportsAgree(TcpBinary, b.subscribed, bs[0], js[0], os[0]);
      SessionsAgree(
        Add(b, DispatchBinary(TcpBinary, b.subscribed, bs[0], os[0])),
        Add(j, DispatchJson(j.subscribed, js[0], os[0])), bs[1..], js[1..], os[1..]);
    }
  }

  // ---------------------------------------------------------------- what each request costs and answers

  /** The kinds of reply each request can get; a session never answers with anything else. */
  predicate RightKind(t: Transport, r: Request, reply: Response) {
    match r
    case Ping(id) => reply == Pong(id)
    case ListIfaces => reply.Ifaces? || reply.Error?
    case Subscribe(wanted) => reply == Subscribed(wanted)
    case Unsubscribe => reply == Unsubscribed
    case SendFrame(_, _, _, _, _, _) => reply.SendAck? && (reply.ok <==> reply.errorMessage.None?)
    case ClientHello(_, _) => reply == RepeatedHello(t)
  }

  /** What the reply to each request says, given what the ports answered while it was handled. */
  predicate Answers(t: Transport, r: Request, o: Oracle, reply: Response) {
    hide Utf8.Encode;
    match r
    case Ping(id) => reply == Pong(id)
    case ListIfaces =>
      (match o.discovery
       case Ok(items) => reply == Ifaces(items)
       case Err(text) => reply == Error(Utf8.Encode("list_ifaces failed: ") + text))
    case Subscribe(wanted) => reply == Subscribed(wanted)
    case Unsubscribe => reply == Unsubscribed
    case SendFrame(_, _, _, _, _, _) =>
      reply == if o.tx.Sent? then SendAck(true, None) else SendAck(false, Some(o.tx.text))
    case ClientHello(_, _) =>
      reply == (if t.TcpBinary? then Error(Utf8.Encode("client_hello already completed"))
                else Error(Utf8.Encode("ClientHello already completed")))
  }

  /** The same for JSON requests, whose hex text may be bad. */
  predicate AnswersJson(r: Protocol.ClientRequest, o: Oracle, reply: Protocol.DaemonResponse) {
    hide Utf8.Encode, Hex.HexToBytes;
    match r
    case Ping(id) => reply == Protocol.Pong(id)
    case ListIfaces =>
      (match o.discovery
       case Ok(items) => reply == Protocol.Ifaces(items)
       case Err(text) => reply == Protocol.Error(Utf8.Encode("list_ifaces failed: ") + text))
    case Subscribe(ifaces, _) => reply == Protocol.Subscribed(ifaces)
    case Unsubscribe => reply == Protocol.Unsubscribed
    case ClientHello(_, _) => reply == Protocol.Error(Utf8.Encode("client_hello already completed"))
    case SendFrame(_, _, _, _, _, dataHex) =>
      match Hex.HexToBytes(dataHex)
      case Err(OddLength) =>
        reply == Protocol.SendAck(false, Some(Utf8.Encode("bad data_hex: " + "hex string must have even length")))
      case Err(BadChar(b)) =>
        reply == Protocol.SendAck(false, Some(Utf8.Encode("bad data_hex: " + ("invalid hex char '" + [b as char] + "'"))))
      case Ok(_) =>
        reply == if o.tx.Sent? then Protocol.SendAck(true, None) else Protocol.SendAck(false, Some(o.tx.text))
  }

  lemma ListIsAnswered(o: Oracle)
    ensures var h := Handle(Protocol.ListIfaces, o);
            && AnswersJson(Protocol.ListIfaces, o, h.response) && h.calls == [] && h.events == []
            && Answers(TcpBinary, ListIfaces, o, ListReply(h.response))
            && Answers(WsBinary, ListIfaces, o, ListReply(h.response))
  {
    hide Utf8.Encode;
  }

  /** Every binary request is answered with what the ports said. */
  lemma RepliesSay(t: Transport, subscribed: set<Str>, r: Request, o: Oracle)
    ensures Answers(t, r, o, DispatchBinary(t, subscribed, r, o).reply)
  {
    hide Utf8.Encode, Handle, ListReply, SendReply, AsSet, Hex.HexLower;
    match r
    case ListIfaces => ListIsAnswered(o);
    case SendFrame(iface, id, isFd, brs, esi, data) => SendFrameIsOneCall(t, subscribed, r, o);
    case ClientHello(_, _) => HelloIsAnswered(t, o);
    case _ =>
  }

  lemma HelloIsAnswered(t: Transport, o: Oracle)
    ensures RepeatedHello(t) == if t.TcpBinary? then Error(Utf8.Encode("client_hello already completed"))
                                else Error(Utf8.Encode("ClientHello already completed"))
  {
    hide Utf8.Encode;
  }

  /** Every JSON request is answered with what the ports said, or with what is wrong with its hex text; and it changes the
      set only if it is a subscription request. */
  lemma JsonRepliesSay(subscribed: set<Str>, r: Protocol.ClientRequest, o: Oracle)
    ensures var e := DispatchJson(subscribed, r, o);
            && AnswersJson(r, o, e.reply)
            && (forall name :: name in e.subscribed <==>
                  if r.Subscribe? then name in r.ifaces else !r.Unsubscribe? && name in subscribed)
  {
    hide Utf8.Encode, Handle, Hex.HexToBytes, HexErrorText;
    match r
    case ListIfaces => ListIsAnswered(o);
    case SendFrame(_, _, _, _, _, _) => JsonSendIsAnswered(r, o);
    case Ping(id) => PingsAgree(id, o);
    case _ =>
  }

  lemma JsonSendIsAnswered(r: Protocol.ClientRequest, o: Oracle)
    requires r.SendFrame?
    ensures AnswersJson(r, o, Handle(r, o).response)
  {
    hide Utf8.Encode, Hex.HexToBytes;
  }

  /** For a binary `SendFrame` the hex detour loses nothing: exactly one TX-port call carries the request's fields,
      the answer is the port's, and an event is published exactly when the port accepted, at the time it did. */
  lemma SendFrameIsOneCall(t: Transport, subscribed: set<Str>, r: Request, o: Oracle)
    requires r.SendFrame?
    ensures var e := DispatchBinary(t, subscribed, r, o);
            && e.calls == [TxCall(r.iface, r.id, r.isFd, r.brs, r.esi, r.data, o.tx)]
            && e.reply == SendAck(o.tx.Sent?, if o.tx.Sent? then None else Some(o.tx.text))
            && (if o.tx.Sent? then |e.events| == 1 && MirrorsCall(e.events[0], e.calls[0]) else e.events == [])
            && (o.tx.Sent? ==> e.events[0].tsMs == o.now)
  {
    hide Hex.HexToBytes, Hex.HexLower, Utf8.Encode, Handle, RepeatedHello, AsSet, ListReply;
    SendIsHandled(r.iface, r.id, r.isFd, r.brs, r.esi, r.data, o);
  }

  lemma SendIsHandled(iface: Str, id: u32, isFd: bool, brs: bool, esi: bool, data: seq<u8>, o: Oracle)
    ensures var h := Handle(Protocol.SendFrame(iface, id, isFd, brs, esi, Hex.HexLower(data)), o);
            && h.calls == [TxCall(iface, id, isFd, brs, esi, data, o.tx)]
            && h.response == Protocol.SendAck(o.tx.Sent?, if o.tx.Sent? then None else Some(o.tx.text))
            && (if o.tx.Sent? then |h.events| == 1 && MirrorsCall(h.events[0], h.calls[0]) else h.events == [])
            && (o.tx.Sent? ==> h.events[0].tsMs == o.now)
  {
    hide Hex.HexToBytes, Hex.HexLower, Utf8.Encode, HexErrorText;
    Hex.HexRoundTrip(data);
  }

  lemma RepliesAnswer(t: Transport, subscribed: set<Str>, r: Request, o: Oracle)
    ensures RightKind(t, r, DispatchBinary(t, subscribed, r, o).reply)
    ensures !r.SendFrame? ==> DispatchBinary(t, subscribed, r, o).calls == []
                              && DispatchBinary(t, subscribed, r, o).events == []
  {
    hide Hex.HexToBytes, Hex.HexLower, Utf8.Encode;
    if r.SendFrame? { SendFrameIsOneCall(t, subscribed, r, o); }
  }
}
