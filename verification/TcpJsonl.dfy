/** The reading task of a TCP JSON-lines session, with each line already parsed or known not to parse. */
module TcpJsonl {
  import opened Bytes
  import opened Results
  import opened Protocol
  import opened Service
  import opened Dispatch
  import BinaryMessage
  import PacketStream
  import CodecTheorems
  import TcpBinaryReader
  import Hex
  import Utf8

  /** A line of input: only whitespace, not a request (`error` says why), or a request. */
  datatype Line = Blank | Invalid(error: Str) | Parsed(request: ClientRequest)

  function HelloReply(): DaemonResponse {
    hide Utf8.Encode;
    DaemonResponse.HelloAck(
      Utf8.Encode("1.0"), [Utf8.Encode("tcp"), Utf8.Encode("jsonl"), Utf8.Encode("binary")],
      Utf8.Encode("can-bridge-daemon"))
  }

  /** What a JSON-lines session has done when its task begins to read. */
  function JsonStart(calls: seq<TxCall>, events: seq<BusFrame>): Totals<DaemonResponse> {
    hide HelloReply;
    Totals({}, [HelloReply()], calls, events)
  }

  function BadJson(error: Str): DaemonResponse {
    hide Utf8.Encode;
    DaemonResponse.Error(Utf8.Encode("invalid json: ") + error)
  }

  function OnLine(s: Totals<DaemonResponse>, line: Line, o: Oracle): Totals<DaemonResponse> {
    hide DispatchJson, BadJson, Add;
    match line
    case Blank => s
    case Invalid(error) => s.(replies := s.replies + [BadJson(error)])
    case Parsed(request) => Add(s, DispatchJson(s.subscribed, request, o))
  }

  function OnLines(s: Totals<DaemonResponse>, lines: seq<Line>, os: seq<Oracle>): Totals<DaemonResponse>
    requires |os| == |lines|
    decreases |lines|
  {
    hide OnLine;
    if lines == [] then s else OnLines(OnLine(s, lines[0], os[0]), lines[1..], os[1..])
  }

  class Session {
    const service: BridgeService
    var subscribed: set<Str>
    var outgoing: seq<DaemonResponse>

    constructor (service: BridgeService)
      ensures this.service == service && View() == JsonStart(service.calls, service.published)
    {
      hide HelloReply;
      this.service := service;
      subscribed, outgoing := {}, [HelloReply()];
    }

    ghost function View(): Totals<DaemonResponse>
      reads this, service
    {
      Totals(subscribed, outgoing, service.calls, service.published)
    }

    method UpdateSubscriptionSet(ifaces: seq<Str>)
      modifies this`subscribed
      ensures subscribed == AsSet(ifaces)
    {
      subscribed := {};
      for i := 0 to |ifaces|
        invariant subscribed == AsSet(ifaces[..i])
      {
        subscribed := subscribed + {ifaces[i]};
      }
      assert ifaces[..|ifaces|] == ifaces;
    }

    method HandleLine(line: Line, o: Oracle)
      modifies this, service
      ensures View() == OnLine(old(View()), line, o)
    {
      hide Utf8.Encode, Service.Handle, AsSet;
      match line {
        case Blank =>
        case Invalid(error) =>
          outgoing := outgoing + [BadJson(error)];
        case Parsed(request) =>
          match request {
            case Subscribe(ifaces, _) =>
              UpdateSubscriptionSet(ifaces);
              outgoing := outgoing + [DaemonResponse.Subscribed(ifaces)];
            case Unsubscribe =>
              subscribed := {};
              outgoing := outgoing + [DaemonResponse.Unsubscribed];
            case ClientHello(_, _) =>
              outgoing := outgoing + [RepeatedHelloJson()];
            case _ =>
              var response := service.HandleRequest(request, o);
              outgoing := outgoing + [response];
          }
      }
    }

    /** The loop after the handshake, over the lines that arrive before the peer closes. */
    method ServeLines(lines: seq<Line>, os: seq<Oracle>)
      requires |os| == |lines|
      modifies this, service
      ensures View() == OnLines(old(View()), lines, os)
    {
      hide OnLine;
      for i := 0 to |lines|
        invariant OnLines(old(View()), lines, os) == OnLines(View(), lines[i..], os[i..])
      {
        HandleLine(lines[i], os[i]);
        assert lines[i..][1..] == lines[i + 1..] && os[i..][1..] == os[i + 1..];
      }
    }
  }

  function AsLines(js: seq<ClientRequest>): (lines: seq<Line>)
    ensures |lines| == |js|
  {
    if js == [] then [] else [Parsed(js[0])] + AsLines(js[1..])
  }

  lemma {:induction false} ParsedLinesRun(s: Totals<DaemonResponse>, js: seq<ClientRequest>, os: seq<Oracle>)
    requires |os| == |js|
    ensures OnLines(s, AsLines(js), os) == RunJson(s, js, os)
    decreases |js|
  {
    hide DispatchJson, Add;
    if js != [] {
      assert AsLines(js)[1..] == AsLines(js[1..]);
      ParsedLinesRun(Add(s, DispatchJson(s.subscribed, js[0], os[0])), js[1..], os[1..]);
    }
  }

  /** The two greetings have the same version, name and features, but list the features in a different order. */
  lemma GreetingsAgree()
    ensures IsImage(TcpBinaryReader.HelloReply(), HelloReply())
    ensures TcpBinaryReader.HelloReply().features != HelloReply().features
  {
    hide Utf8.Encode;
    var tcp, binary, jsonl := Utf8.Encode("tcp"), Utf8.Encode("binary"), Utf8.Encode("jsonl");
    var a: seq<Str>, b: seq<Str> := [tcp, binary, jsonl], [tcp, jsonl, binary];
    assert multiset(a) == multiset(b);
    TcpBinaryReader.TextOfBinary();
    TcpBinaryReader.TextOfJsonl();
    assert |binary| != |jsonl| && a[1] != b[1];
  }

  /** A binary session that ran through `bs` and a JSON-lines session that ran through `js` have done the same. */
  ghost predicate EndAlike(
    calls: seq<TxCall>, events: seq<BusFrame>, bs: seq<BinaryMessage.Request>, js: seq<ClientRequest>, os: seq<Oracle>)
    requires |bs| == |js| == |os|
  {
    hide TcpBinaryReader.AtStart, JsonStart, OnLines, RunBinary, SameTotals;
    SameTotals(RunBinary(TcpBinary, TcpBinaryReader.AtStart(calls, events), bs, os),
               OnLines(JsonStart(calls, events), AsLines(js), os))
  }

  /** A JSON-lines session and a TCP binary session that are asked for the same things, with the same port answers, end
      with the same subscriptions, the same port calls and the same published frames, and replied the same, from the
      greeting on. */
  lemma ServesLikeBinary(
    calls: seq<TxCall>, events: seq<BusFrame>,
    bs: seq<BinaryMessage.Request>, js: seq<ClientRequest>, os: seq<Oracle>)
    requires |bs| == |js| == |os|
    requires forall i :: 0 <= i < |bs| ==> Corresponds(bs[i], js[i])
    ensures EndAlike(calls, events, bs, js, os)
  {
    hide RunBinary, RunJson, OnLines, Corresponds, IsImage, TcpBinaryReader.HelloReply, HelloReply;
    GreetingsAgree();
    SessionsAgree(TcpBinaryReader.AtStart(calls, events), JsonStart(calls, events), bs, js, os);
    ParsedLinesRun(JsonStart(calls, events), js, os);
  }

  /** A binary session fed these chunks, and a JSON-lines session fed these requests, have done the same. */
  ghost predicate SameService(
    calls: seq<TxCall>, events: seq<BusFrame>, chunks: seq<seq<u8>>, js: seq<ClientRequest>, ports: nat -> Oracle, shown: Str)
  {
    hide TcpBinaryReader.AtStart, JsonStart, OnLines, TcpBinaryReader.Served, SameTotals;
    SameTotals(
      TcpBinaryReader.Served(TcpBinaryReader.AtStart(calls, events), TcpBinaryReader.Arrived(chunks),
                             TcpBinaryReader.HitsEof(chunks), ports, shown),
      OnLines(JsonStart(calls, events), AsLines(js), TcpBinaryReader.PortAnswers(ports, 0, |js|)))
  }

  /** The chunks are a hello and in-range requests, encoded one after the other and cut anywhere. */
  ghost predicate SentAs(hello: BinaryMessage.Request, bs: seq<BinaryMessage.Request>, chunks: seq<seq<u8>>) {
    hide CodecTheorems.InRange, PacketStream.SendableBy, PacketStream.EncodeEach, PacketStream.Joined;
    && hello.ClientHello? && PacketStream.SendableBy(BinaryMessage.FromClient, [hello] + bs)
    && (forall i :: 0 <= i < |bs| ==> CodecTheorems.InRange(bs[i]))
    && (forall i :: 0 <= i < |chunks| ==> chunks[i] != [])
    && PacketStream.Joined(chunks) == PacketStream.EncodeEach([hello] + bs)
  }

  /** The same from the client's bytes: a hello and any in-range requests, encoded and cut into reads in any way, have
      the effect of the corresponding JSON lines. */
  lemma BytesServeLikeLines(
    calls: seq<TxCall>, events: seq<BusFrame>, hello: BinaryMessage.Request, bs: seq<BinaryMessage.Request>,
    chunks: seq<seq<u8>>, js: seq<ClientRequest>, ports: nat -> Oracle, shown: Str)
    requires SentAs(hello, bs, chunks)
    requires |bs| == |js| && forall i :: 0 <= i < |bs| ==> Corresponds(bs[i], js[i])
    ensures SameService(calls, events, chunks, js, ports, shown)
  {
    hide SameTotals, RunBinary, OnLines, Corresponds, TcpBinaryReader.AtStart, JsonStart, PacketStream.SendableBy,
         PacketStream.EncodeEach, CodecTheorems.InRange, TcpBinaryReader.Expected, TcpBinaryReader.Served,
         TcpBinaryReader.PortAnswers, TcpBinaryReader.Arrived, TcpBinaryReader.HitsEof, PacketStream.Joined;
    TcpBinaryReader.EndToEndDelivery(hello, bs, chunks, TcpBinaryReader.AtStart(calls, events), ports, shown);
    ServesLikeBinary(calls, events, bs, js, TcpBinaryReader.PortAnswers(ports, 0, |bs|));
  }

  // ---------------------------------------------------------------- send_frame over whole sessions

  function OkAcks(rs: seq<DaemonResponse>): seq<DaemonResponse> {
    if rs == [] then []
    else
      var last := rs[|rs| - 1];
      OkAcks(rs[..|rs| - 1]) + if last.SendAck? && last.ok then [last] else []
  }

  lemma OkAcksAppend(rs: seq<DaemonResponse>, r: DaemonResponse)
    ensures OkAcks(rs + [r]) == OkAcks(rs) + if r.SendAck? && r.ok then [r] else []
  {
    assert (rs + [r])[..|rs|] == rs;
  }

  /** As many ok acknowledgements as accepted calls and as published frames, and each frame is that of its call. */
  ghost predicate Truthful(s: Totals<DaemonResponse>) {
    && |OkAcks(s.replies)| == |Accepted(s.calls)| == |s.events|
    && forall i :: 0 <= i < |s.events| ==> MirrorsCall(s.events[i], Accepted(s.calls)[i])
  }

  lemma TruthfulLine(s: Totals<DaemonResponse>, line: Line, o: Oracle)
    requires Truthful(s)
    ensures Truthful(OnLine(s, line, o))
  {
    hide OkAcks, Accepted, Handle, AsSet, Utf8.Encode, MirrorsCall;
    match line
    case Blank =>
    case Invalid(error) => OkAcksAppend(s.replies, BadJson(error));
    case Parsed(request) =>
      var e := DispatchJson(s.subscribed, request, o);
      OkAcksAppend(s.replies, e.reply);
      OneRequestTruthful(s.subscribed, request, o);
      if e.calls == [] {
        assert s.calls + [] == s.calls;
      } else {
        AcceptedAppends(s.calls, e.calls[0]);
        assert e.calls == [e.calls[0]];
      }
      assert s.events + [] == s.events;
  }

  lemma OneRequestTruthful(subscribed: set<Str>, request: ClientRequest, o: Oracle)
    ensures var e := DispatchJson(subscribed, request, o);
            && |e.calls| <= 1 && (e.reply.SendAck? && e.reply.ok <==> |e.calls| == 1 && e.calls[0].outcome.Sent?)
            && if e.reply.SendAck? && e.reply.ok then |e.events| == 1 && MirrorsCall(e.events[0], e.calls[0]) else e.events == []
  {
    hide Utf8.Encode, AsSet, Hex.HexToBytes;
    if request.SendFrame? { SendAckIsTruthful(request, o); }
  }

  /** Over any lines whatever, blank, bad and good: the ok acknowledgements of a JSON-lines session, the calls the port
      accepted and the frames published correspond one to one, in order. */
  lemma {:induction false} AcksAreTruthful(s: Totals<DaemonResponse>, lines: seq<Line>, os: seq<Oracle>)
    requires |os| == |lines| && Truthful(s)
    ensures Truthful(OnLines(s, lines, os))
    decreases |lines|
  {
    hide Truthful, OnLine;
    if lines != [] {
      TruthfulLine(s, lines[0], os[0]);
      AcksAreTruthful(OnLine(s, lines[0], os[0]), lines[1..], os[1..]);
    }
  }

  // ---------------------------------------------------------------- one reply per line

  /** The lines that are answered, each with what the ports answered meanwhile. */
  function Spoken(lines: seq<Line>, os: seq<Oracle>): seq<(Line, Oracle)>
    requires |os| == |lines|
    decreases |lines|
  {
    if lines == [] then []
    else (if lines[0].Blank? then [] else [(lines[0], os[0])]) + Spoken(lines[1..], os[1..])
  }

  predicate LineAnswered(line: Line, o: Oracle, reply: DaemonResponse) {
    hide Utf8.Encode, AnswersJson;
    match line
    case Blank => false
    case Invalid(error) => reply == DaemonResponse.Error(Utf8.Encode("invalid json: ") + error)
    case Parsed(request) => AnswersJson(request, o, reply)
  }

  lemma OneLine(s: Totals<DaemonResponse>, line: Line, o: Oracle)
    ensures var t := OnLine(s, line, o);
            if line.Blank? then t == s
            else |t.replies| == |s.replies| + 1 && s.replies == t.replies[..|s.replies|]
                 && LineAnswered(line, o, t.replies[|s.replies|])
  {
    hide Utf8.Encode, AnswersJson, DispatchJson;
    if line.Parsed? { JsonRepliesSay(s.subscribed, line.request, o); }
  }

  /** Every line that is not blank gets exactly one reply, in order: an error naming the fault if it is no request, and
      otherwise what the ports answered. */
  lemma {:induction false} LinesAreAnswered(s: Totals<DaemonResponse>, lines: seq<Line>, os: seq<Oracle>)
    requires |os| == |lines|
    ensures var t, spoken, n := OnLines(s, lines, os), Spoken(lines, os), |s.replies|;
            && |t.replies| == n + |spoken| && s.replies == t.replies[..n]
            && forall i :: 0 <= i < |spoken| ==> LineAnswered(spoken[i].0, spoken[i].1, t.replies[n + i])
    decreases |lines|
  {
    hide OnLine, LineAnswered;
    if lines != [] {
      var u := OnLine(s, lines[0], os[0]);
      OneLine(s, lines[0], os[0]);
      LinesAreAnswered(u, lines[1..], os[1..]);
      var t, n := OnLines(s, lines, os), |s.replies|;
      assert t.replies[..n] == t.replies[..|u.replies|][..n];
      if !lines[0].Blank? {
        assert t.replies[n] == t.replies[..|u.replies|][n];
        var rest := Spoken(lines[1..], os[1..]);
        forall i | 0 < i < |Spoken(lines, os)|
          ensures LineAnswered(Spoken(lines, os)[i].0, Spoken(lines, os)[i].1, t.replies[n + i])
        {
          assert Spoken(lines, os)[i] == rest[i - 1];
        }
      }
    }
  }
}
