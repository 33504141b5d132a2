/** The application service: one TX-port call per frame to send, and a bus event only for a frame that was sent. */
module Service {
  import opened Bytes
  import opened Results
  import opened Protocol
  import Hex
  import Utf8

  datatype TxOutcome = Sent | Refused(text: Str)

  /** One call of the TX port together with what the port answered. */
  datatype TxCall = TxCall(iface: Str, id: u32, isFd: bool, brs: bool, esi: bool, data: seq<u8>, outcome: TxOutcome)

  /** What the ports and the clock answer while one request is handled. */
  datatype Oracle = Oracle(discovery: Result<seq<Str>, Str>, tx: TxOutcome, now: u64)

  datatype Handled = Handled(response: DaemonResponse, calls: seq<TxCall>, events: seq<BusFrame>)

  function HexErrorText(e: Hex.HexError): string {
    match e
    case OddLength => "hex string must have even length"
    case BadChar(b) => "invalid hex char '" + [b as char] + "'"
  }

  /** `BridgeService::handle` as a value: the response, the TX-port calls and the published events. */
  function Handle(req: ClientRequest, o: Oracle): Handled {
    match req
    case Ping(id) => Handled(Pong(id), [], [])
    case ListIfaces =>
      (match o.discovery
       case Ok(items) => Handled(Ifaces(items), [], [])
       case Err(text) => Handled(Error(Utf8.Encode("list_ifaces failed: ") + text), [], []))
    case ClientHello(_, _) =>
      Handled(Error(Utf8.Encode("client_hello is handled by transport layer")), [], [])
    case Subscribe(_, _) =>
      Handled(Error(Utf8.Encode("subscribe/unsubscribe are handled by transport layer")), [], [])
    case Unsubscribe =>
      Handled(Error(Utf8.Encode("subscribe/unsubscribe are handled by transport layer")), [], [])
    case SendFrame(iface, id, isFd, brs, esi, dataHex) =>
      match Hex.HexToBytes(dataHex)
      case Err(e) => Handled(SendAck(false, Some(Utf8.Encode("bad data_hex: " + HexErrorText(e)))), [], [])
      case Ok(data) =>
        var call := TxCall(iface, id, isFd, brs, esi, data, o.tx);
        match o.tx
        case Refused(text) => Handled(SendAck(false, Some(text)), [call], [])
        case Sent => Handled(SendAck(true, None), [call], [BusFrame(o.now, iface, Tx, id, isFd, data)])
  }

  /** Requests about a connection's own state are not the service's business. */
  lemma ServiceRefuses(req: ClientRequest, o: Oracle)
    requires req.ClientHello? || req.Subscribe? || req.Unsubscribe?
    ensures var h := Handle(req, o);
            && h.calls == [] && h.events == []
            && h.response == if req.ClientHello? then Error(Utf8.Encode("client_hello is handled by transport layer"))
                             else Error(Utf8.Encode("subscribe/unsubscribe are handled by transport layer"))
  {
    hide Utf8.Encode;
  }

  /** Answers to `send_frame` tell exactly what happened: `ok` iff one call was made and accepted, and then exactly
      one Tx event with the call's interface, id, kind and data was published; otherwise none was. */
  lemma SendAckIsTruthful(req: ClientRequest, o: Oracle)
    requires req.SendFrame?
    ensures var h := Handle(req, o);
            && h.response.SendAck? && |h.calls| <= 1
            && (h.calls == [] <==> Hex.HexToBytes(req.dataHex).Err?)
            && (h.response.ok <==> |h.calls| == 1 && h.calls[0].outcome.Sent?)
            && (h.response.ok <==> h.response.errorMessage.None?)
            && (h.response.ok ==> |h.events| == 1 && MirrorsCall(h.events[0], h.calls[0]))
            && (!h.response.ok ==> h.events == [])
  {
    hide Hex.HexToBytes, Utf8.Encode;
  }

  /** The Tx event of a call: its interface, id, kind and data. */
  predicate MirrorsCall(ev: BusFrame, call: TxCall) {
    ev.dir == Tx && ev.iface == call.iface && ev.id == call.id && ev.isFd == call.isFd && ev.data == call.data
  }

  /** The calls the port accepted. */
  function Accepted(calls: seq<TxCall>): seq<TxCall> {
    if calls == [] then []
    else
      var last := calls[|calls| - 1];
      Accepted(calls[..|calls| - 1]) + if last.outcome.Sent? then [last] else []
  }

  lemma AcceptedAppends(calls: seq<TxCall>, call: TxCall)
    ensures Accepted(calls + [call]) == Accepted(calls) + if call.outcome.Sent? then [call] else []
  {
    assert (calls + [call])[..|calls|] == calls;
  }

  /** The service with the effects it has had: the port calls it made and the frames it put on the bus. */
  class BridgeService {
    var calls: seq<TxCall>
    var published: seq<BusFrame>

    constructor ()
      ensures calls == [] && published == []
    {
      calls, published := [], [];
    }

    method PublishFrame(ev: BusFrame)
      modifies this`published
      ensures published == old(published) + [ev]
    {
      published := published + [ev];
    }

    method CallPort(iface: Str, id: u32, isFd: bool, brs: bool, esi: bool, data: seq<u8>, o: Oracle)
      returns (outcome: TxOutcome)
      modifies this`calls
      ensures outcome == o.tx
      ensures calls == old(calls) + [TxCall(iface, id, isFd, brs, esi, data, o.tx)]
    {
      outcome := o.tx;
      calls := calls + [TxCall(iface, id, isFd, brs, esi, data, outcome)];
    }

    method HandleRequest(req: ClientRequest, o: Oracle) returns (response: DaemonResponse)
      modifies this
      ensures response == Handle(req, o).response
      ensures calls == old(calls) + Handle(req, o).calls
      ensures published == old(published) + Handle(req, o).events
    {
      hide Hex.HexToBytes, Utf8.Encode;
      match req {
        case Ping(id) =>
          return Pong(id);
        case ListIfaces =>
          match o.discovery {
            case Ok(items) => return Ifaces(items);
            case Err(text) => return Error(Utf8.Encode("list_ifaces failed: ") + text);
          }
        case ClientHello(_, _) =>
          return Error(Utf8.Encode("client_hello is handled by transport layer"));
        case Subscribe(_, _) =>
          return Error(Utf8.Encode("subscribe/unsubscribe are handled by transport layer"));
        case Unsubscribe =>
          return Error(Utf8.Encode("subscribe/unsubscribe are handled by transport layer"));
        case SendFrame(iface, id, isFd, brs, esi, dataHex) =>
          var decoded := Hex.ParseHex(dataHex);
          if decoded.Err? {
            return SendAck(false, Some(Utf8.Encode("bad data_hex: " + HexErrorText(decoded.error))));
          }
          var outcome := CallPort(iface, id, isFd, brs, esi, decoded.value, o);
          if outcome.Refused? {
            return SendAck(false, Some(outcome.text));
          }
          PublishFrame(BusFrame(o.now, iface, Tx, id, isFd, decoded.value));
          return SendAck(true, None);
      }
    }
  }
}
