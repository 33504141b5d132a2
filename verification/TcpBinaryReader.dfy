/** The reading task of a TCP binary session: handshake, then decode, dispatch and read until the peer closes. */
module TcpBinaryReader {
  import opened Bytes
  import opened Results
  import opened BinaryMessage
  import opened CodecTheorems
  import opened PacketStream
  import opened PayloadCodec
  import opened Service
  import opened Dispatch
  import Protocol
  import Hex
  import Utf8
  import DecoderVerdict

  /** How far a session has come when its chunks are used up or it has returned. */
  datatype End =
    | AwaitingHello               // blocked in a read, handshake not complete
    | Waiting                     // blocked in a read after the handshake
    | ClosedByPeer                // a read of zero bytes after the handshake
    | ClosedInHandshake           // a read of zero bytes before a request was complete
    | NotHello(first: Request)    // the first request is something else: answered, then ended
    | Broken(error: DecodeError)  // undecodable bytes, before or after the handshake

  datatype Outcome = Outcome(end: End, dispatched: seq<Request>)

  /** The client requests in a byte stream. */
  function RequestsIn(b: seq<u8>): seq<Request> {
    hide DecodeAll;
    DecodedAreRequests(b);
    DecodeAll(FromClient, b).msgs
  }

  lemma DecodedAreRequests(b: seq<u8>)
    ensures forall i :: 0 <= i < |DecodeAll(FromClient, b).msgs| ==> IsRequest(DecodeAll(FromClient, b).msgs[i])
  {
    hide DecodeAll, DecodeFrom;
    DecodeAllConsumes(FromClient, b);
    var s := DecodeAll(FromClient, b);
    ConsumesBytes(FromClient, b, s.msgs, s.rest);
  }

  /** What a session must do with the bytes `b`, however they were cut into chunks. */
  function Expected(b: seq<u8>, eof: bool): Outcome {
    hide DecodeAll, RequestsIn;
    var requests := RequestsIn(b);
    var error := DecodeAll(FromClient, b).error;
    if requests == [] then
      Outcome(if error.Some? then Broken(error.value) else if eof then ClosedInHandshake else AwaitingHello, [])
    else if !requests[0].ClientHello? then
      Outcome(NotHello(requests[0]), [])
    else
      Outcome(if error.Some? then Broken(error.value) else if eof then ClosedByPeer else Waiting, requests[1..])
  }

  /** The bytes that arrive before the first read of zero bytes. */
  function Arrived(chunks: seq<seq<u8>>): seq<u8> {
    if chunks == [] || chunks[0] == [] then [] else chunks[0] + Arrived(chunks[1..])
  }

  predicate HitsEof(chunks: seq<seq<u8>>) {
    chunks != [] && (chunks[0] == [] || HitsEof(chunks[1..]))
  }

  function HelloReply(): Response {
    hide Utf8.Encode;
    HelloAck(Utf8.Encode("1.0"), Utf8.Encode("can-bridge-daemon"),
             [Utf8.Encode("tcp"), Utf8.Encode("binary"), Utf8.Encode("jsonl")])
  }

  /** What a session has done when its task begins to read. */
  function AtStart(calls: seq<TxCall>, events: seq<Protocol.BusFrame>): Totals<Response> {
    hide HelloReply;
    Totals({}, [HelloReply()], calls, events)
  }

  /** The answer to a first request that is not a hello; `shown` is its debug text. */
  function Rejection(shown: Str): Response {
    hide Utf8.Encode;
    Error(Utf8.Encode("expected client_hello, got ") + shown)
  }

  /** The answers of the ports to the requests number `from`, ..., `from + n - 1` of a session. */
  function PortAnswers(ports: nat -> Oracle, from: nat, n: nat): (os: seq<Oracle>)
    ensures |os| == n
    decreases n
  {
    if n == 0 then [] else [ports(from)] + PortAnswers(ports, from + 1, n - 1)
  }

  /** What a session that starts from `start` must have done after the bytes `b`. */
  function Served(start: Totals<Response>, b: seq<u8>, eof: bool, ports: nat -> Oracle, shown: Str): Totals<Response> {
    hide Expected, RunBinary, PortAnswers, Rejection;
    var r := Expected(b, eof);
    if r.end.NotHello? then start.(replies := start.replies + [Rejection(shown)])
    else RunBinary(TcpBinary, start, r.dispatched, PortAnswers(ports, 0, |r.dispatched|))
  }

  lemma {:induction false} RunBinaryConcat(
    t: Transport, s: Totals<Response>, ra: seq<Request>, oa: seq<Oracle>, rb: seq<Request>, ob: seq<Oracle>)
    requires |ra| == |oa| && |rb| == |ob|
    ensures RunBinary(t, s, ra + rb, oa + ob) == RunBinary(t, RunBinary(t, s, ra, oa), rb, ob)
    decreases |ra|
  {
    hide DispatchBinary, Add;
    if ra == [] {
      assert ra + rb == rb && oa + ob == ob;
    } else {
      RunBinaryConcat(t, Add(s, DispatchBinary(t, s.subscribed, ra[0], oa[0])), ra[1..], oa[1..], rb, ob);
      assert (ra + rb)[1..] == ra[1..] + rb && (oa + ob)[1..] == oa[1..] + ob;
    }
  }

  lemma {:induction false} PortAnswersConcat(ports: nat -> Oracle, from: nat, n: nat, m: nat)
    ensures PortAnswers(ports, from, n + m) == PortAnswers(ports, from, n) + PortAnswers(ports, from + n, m)
    decreases n
  {
    if n > 0 { PortAnswersConcat(ports, from + 1, n - 1, m); }
  }

  /** Continuing a session after `done` requests with `more` requests. */
  lemma RunContinues(t: Transport, s: Totals<Response>, done: seq<Request>, more: seq<Request>, ports: nat -> Oracle)
    ensures RunBinary(t, s, done + more, PortAnswers(ports, 0, |done + more|)) ==
            RunBinary(t, RunBinary(t, s, done, PortAnswers(ports, 0, |done|)), more, PortAnswers(ports, |done|, |more|))
  {
    hide RunBinary, PortAnswers, DispatchBinary;
    RunBinaryConcat(t, s, done, PortAnswers(ports, 0, |done|), more, PortAnswers(ports, |done|, |more|));
    PortAnswersConcat(ports, 0, |done|, |more|);
  }

  lemma RunOneMore(
    t: Transport, s: Totals<Response>, done: seq<Request>, r: Request, ports: nat -> Oracle, from: nat)
    ensures var u := RunBinary(t, s, done, PortAnswers(ports, from, |done|));
            RunBinary(t, s, done + [r], PortAnswers(ports, from, |done + [r]|)) ==
            Add(u, DispatchBinary(t, u.subscribed, r, ports(from + |done|)))
  {
    hide DispatchBinary, Add, RunBinary, PortAnswers;
    RunBinaryConcat(t, s, done, PortAnswers(ports, from, |done|), [r], [ports(from + |done|)]);
    PortAnswersConcat(ports, from, |done|, 1);
    OneAnswer(ports, from + |done|);
    RunOne(t, RunBinary(t, s, done, PortAnswers(ports, from, |done|)), r, ports(from + |done|));
  }

  lemma OneAnswer(ports: nat -> Oracle, from: nat)
    ensures PortAnswers(ports, from, 1) == [ports(from)]
  {
    assert PortAnswers(ports, from + 1, 0) == [];
  }

  lemma RunOne(t: Transport, u: Totals<Response>, r: Request, o: Oracle)
    ensures RunBinary(t, u, [r], [o]) == Add(u, DispatchBinary(t, u.subscribed, r, o))
  {
    hide DispatchBinary, Add;
  }

  lemma RunNone(t: Transport, s: Totals<Response>, os: seq<Oracle>)
    requires os == []
    ensures RunBinary(t, s, [], os) == s
  {
    hide DispatchBinary, Add;
  }

  /** What a session has done that began with nothing behind it and then ran through `rs`. */
  function RunFrom(rs: seq<Request>, os: seq<Oracle>): Totals<Response>
    requires |os| == |rs|
  {
    hide RunBinary, HelloReply;
    RunBinary(TcpBinary, AtStart([], []), rs, os)
  }

  lemma RunFromNothing()
    ensures RunFrom([], []) == AtStart([], [])
  {
    hide HelloReply;
  }

  lemma RunFromOneMore(rs: seq<Request>, os: seq<Oracle>, r: Request, o: Oracle)
    requires |os| == |rs|
    ensures var u := RunFrom(rs, os); RunFrom(rs + [r], os + [o]) == Add(u, DispatchBinary(TcpBinary, u.subscribed, r, o))
  {
    hide DispatchBinary, Add, AtStart, RunBinary;
    RunBinaryConcat(TcpBinary, AtStart([], []), rs, os, [r], [o]);
    RunOne(TcpBinary, RunFrom(rs, os), r, o);
  }

  /** One reply per request after the greeting, each saying what the ports answered. */
  lemma {:induction false} RunFromAnswers(rs: seq<Request>, os: seq<Oracle>)
    requires |os| == |rs|
    ensures var replies := RunFrom(rs, os).replies;
            && |replies| == 1 + |rs| && replies[0] == HelloReply()
            && forall i :: 0 <= i < |rs| ==> Answers(TcpBinary, rs[i], os[i], replies[i + 1])
    decreases |rs|
  {
    hide RunFrom, Answers, DispatchBinary, HelloReply;
    if rs == [] {
      RunFromNothing();
    } else {
      var n := |rs| - 1;
      RunFromAnswers(rs[..n], os[..n]);
      RunFromOneMore(rs[..n], os[..n], rs[n], os[n]);
      assert rs[..n] + [rs[n]] == rs && os[..n] + [os[n]] == os;
      RepliesSay(TcpBinary, RunFrom(rs[..n], os[..n]).subscribed, rs[n], os[n]);
    }
  }

  /** A decode error, or a clean end of the bytes, settles the whole stream. */
  lemma Settled(received: seq<u8>, decoded: seq<Message>, buffer: seq<u8>, more: seq<u8>)
    requires Consumes(FromClient, received, decoded, buffer)
    requires DecodeFrom(FromClient, buffer).Err? || (DecodeFrom(FromClient, buffer) == Ok(Incomplete) && more == [])
    ensures var r := DecodeFrom(FromClient, buffer);
            DecodeAll(FromClient, received + more) ==
            Stream(decoded, if r.Err? then Some(r.error) else None, buffer + more)
  {
    hide DecodeFrom;
    ConsumesMore(FromClient, received, decoded, buffer, more);
    ConsumesIsDecodeAll(FromClient, received + more, decoded, buffer + more);
    if DecodeFrom(FromClient, buffer).Err? {
      DecodeIsPrefixStable(FromClient, buffer, more);
    } else {
      assert buffer + more == buffer;
    }
    assert decoded + [] == decoded;
  }

  class Session {
    const service: BridgeService
    var receiveBuffer: seq<u8>
    var subscribed: set<Str>
    var outgoing: seq<Response>
    var served: nat  // number of requests dispatched; numbers the port answers
    ghost var received: seq<u8>
    ghost var decoded: seq<Message>

    constructor (service: BridgeService)
      ensures this.service == service
      ensures Valid() && received == [] && decoded == []
      ensures View() == AtStart(service.calls, service.published) && served == 0
    {
      hide HelloReply;
      this.service := service;
      receiveBuffer, received, decoded := [], [], [];
      subscribed, outgoing, served := {}, [HelloReply()], 0;
    }

    /** The bytes received are those decoded and drained so far, followed by the buffer. */
    ghost predicate Valid()
      reads this
    {
      Consumes(FromClient, received, decoded, receiveBuffer)
    }

    ghost function View(): Totals<Response>
      reads this, service
    {
      Totals(subscribed, outgoing, service.calls, service.published)
    }

    method UpdateSubscriptionSet(ifaces: seq<Str>)
      modifies this`subscribed
      ensures subscribed == AsSet(ifaces)
    {
      subscribed := {};
      for i := 0 to |ifaces|
        invariant subscribed == AsSet(ifaces[..i])
      {
        subscribed := subscribed + {ifaces[i]};
      }
      assert ifaces[..|ifaces|] == ifaces;
    }

    method ClearSubscriptionSet()
      modifies this`subscribed
      ensures subscribed == {}
    {
      subscribed := {};
    }

    /** The body of the dispatch loop. */
    method DispatchRequest(request: Request, o: Oracle)
      modifies this`subscribed, this`outgoing, service
      ensures View() == Add(old(View()), DispatchBinary(TcpBinary, old(subscribed), request, o))
    {
      hide Utf8.Encode, Hex.HexLower, Handle, ListReply, SendReply, AsSet;
      match request {
        case Ping(id) =>
          outgoing := outgoing + [Pong(id)];
        case ListIfaces =>
          var response := service.HandleRequest(Protocol.ListIfaces, o);
          outgoing := outgoing + [ListReply(response)];
        case Subscribe(wanted) =>
          UpdateSubscriptionSet(wanted);
          outgoing := outgoing + [Subscribed(wanted)];
        case Unsubscribe =>
          ClearSubscriptionSet();
          outgoing := outgoing + [Unsubscribed];
        case SendFrame(iface, id, isFd, brs, esi, data) =>
          var dataHex := Hex.BytesToHexLower(data);
          var response := service.HandleRequest(Protocol.SendFrame(iface, id, isFd, brs, esi, dataHex), o);
          outgoing := outgoing + [SendReply(response)];
        case ClientHello(_, _) =>
          outgoing := outgoing + [RepeatedHello(TcpBinary)];
      }
    }

    /** The inner `while let` loop: decode, drain and dispatch everything the buffer holds. */
    method Drain(ports: nat -> Oracle) returns (error: Option<DecodeError>)
      requires Valid()
      modifies this, service
      ensures Valid() && received == old(received)
      ensures var whole := DecodeAll(FromClient, old(receiveBuffer));
              && receiveBuffer == whole.rest && error == whole.error && decoded == old(decoded) + whole.msgs
      ensures var requests := RequestsIn(old(receiveBuffer));
              && View() == RunBinary(TcpBinary, old(View()), requests, PortAnswers(ports, old(served), |requests|))
              && served == old(served) + |requests|
      ensures DecodeFrom(FromClient, receiveBuffer) == if error.Some? then Err(error.value) else Ok(Incomplete)
    {
      hide DecodeFrom, DispatchBinary, Add, RunBinary, PortAnswers;
      ghost var start := receiveBuffer;
      ghost var done: seq<Request> := [];
      RunNone(TcpBinary, View(), PortAnswers(ports, served, 0));
      while true
        invariant Consumes(FromClient, start, done, receiveBuffer)
        invariant Consumes(FromClient, received, decoded, receiveBuffer)
        invariant received == old(received) && decoded == old(decoded) + done
        invariant View() == RunBinary(TcpBinary, old(View()), done, PortAnswers(ports, old(served), |done|))
        invariant served == old(served) + |done|
        decreases |receiveBuffer|
      {
        var r := DecodeClientFrom(receiveBuffer);
        if r.Err? || r.value.Incomplete? {
          ConsumesIsDecodeAll(FromClient, start, done, receiveBuffer);
          assert done + [] == done;
          return if r.Err? then Some(r.error) else None;
        }
        var request, consumed := r.value.msg, r.value.consumed;
        ConsumesOneMore(FromClient, start, done, receiveBuffer);
        ConsumesOneMore(FromClient, received, decoded, receiveBuffer);
        receiveBuffer := receiveBuffer[consumed..];
        decoded := decoded + [request];
        DispatchRequest(request, ports(served));
        RunOneMore(TcpBinary, old(View()), done, request, ports, old(served));
        served, done := served + 1, done + [request];
      }
    }

    /** The handshake loop: read until one request is complete. `early` says how it ended otherwise. */
    method Handshake(chunks: seq<seq<u8>>) returns (next: nat, first: Option<Request>, early: End)
      requires Valid() && received == [] && decoded == []
      modifies this`received, this`receiveBuffer, this`decoded
      ensures Valid() && next <= |chunks|
      ensures received + Arrived(chunks[next..]) == Arrived(chunks) && HitsEof(chunks) == HitsEof(chunks[next..])
      ensures first.Some? ==> decoded == [first.value]
      ensures first.None? ==> Expected(Arrived(chunks), HitsEof(chunks)) == Outcome(early, [])
      ensures first.None? ==> !early.NotHello? && !early.Waiting?
      ensures first.None? && early.AwaitingHello? ==>
                received == Arrived(chunks) && DecodeFrom(FromClient, receiveBuffer) == Ok(Incomplete)
    {
      hide DecodeFrom, DecodeAll;
      ghost var all := Arrived(chunks);
      next, first, early := 0, None, AwaitingHello;
      assert chunks[0..] == chunks;
      EmptyIncomplete();
      while next < |chunks|
        invariant 0 <= next <= |chunks| && Valid()
        invariant received + Arrived(chunks[next..]) == all && HitsEof(chunks) == HitsEof(chunks[next..])
        invariant decoded == [] && DecodeFrom(FromClient, receiveBuffer) == Ok(Incomplete)
        invariant first.None? && early.AwaitingHello?
      {
        if chunks[next] == [] {
          Settled(received, decoded, receiveBuffer, []);
          early := ClosedInHandshake;
          return;
        }
        ConsumesMore(FromClient, received, decoded, receiveBuffer, chunks[next]);
        received, receiveBuffer := received + chunks[next], receiveBuffer + chunks[next];
        assert chunks[next..][1..] == chunks[next + 1..];
        next := next + 1;
        var r := DecodeClientFrom(receiveBuffer);
        if r.Err? {
          Settled(received, decoded, receiveBuffer, Arrived(chunks[next..]));
          early := Broken(r.error);
          return;
        }
        if r.value.Complete? {
          ConsumesOneMore(FromClient, received, decoded, receiveBuffer);
          receiveBuffer, first := receiveBuffer[r.value.consumed..], Some(r.value.msg);
          decoded := decoded + [r.value.msg];
          return;
        }
      }
      Settled(received, decoded, receiveBuffer, []);
      assert received + [] == received;
    }

    /** The whole task. `chunks[k]` is what the k-th read of the socket returns; when the chunks are used up the task
        is still waiting. `shown` is the debug text of a rejected request. */
    method Run(chunks: seq<seq<u8>>, ports: nat -> Oracle, shown: Str) returns (end: End)
      requires Valid() && received == [] && decoded == [] && served == 0
      modifies this, service
      ensures Valid()
      ensures end == Expected(Arrived(chunks), HitsEof(chunks)).end
      ensures View() == Served(old(View()), Arrived(chunks), HitsEof(chunks), ports, shown)
      ensures end.Waiting? || end.AwaitingHello? ==>
                received == Arrived(chunks) && DecodeFrom(FromClient, receiveBuffer) == Ok(Incomplete)
    {
      hide DecodeFrom, DecodeAll, DispatchBinary, Add, Rejection, RunBinary, PortAnswers;
      var next, first, early := Handshake(chunks);
      if first.None? {
        RunNone(TcpBinary, View(), PortAnswers(ports, 0, 0));
        return early;
      }
      if !first.value.ClientHello? {
        ghost var more := Arrived(chunks[next..]);
        ConsumesMore(FromClient, received, decoded, receiveBuffer, more);
        ConsumesIsDecodeAll(FromClient, Arrived(chunks), decoded, receiveBuffer + more);
        outgoing := outgoing + [Rejection(shown)];
        return NotHello(first.value);
      }
      end := ReadLoop(chunks, next, ports);
    }

    /** The main read/dispatch loop, entered after the handshake with `next` chunks done. */
    method ReadLoop(chunks: seq<seq<u8>>, next: nat, ports: nat -> Oracle) returns (end: End)
      requires next <= |chunks| && Valid() && served == 0
      requires received + Arrived(chunks[next..]) == Arrived(chunks) && HitsEof(chunks) == HitsEof(chunks[next..])
      requires |decoded| == 1 && decoded[0].ClientHello?
      modifies this, service
      ensures Valid()
      ensures end == Expected(Arrived(chunks), HitsEof(chunks)).end && !end.NotHello? && !end.AwaitingHello?
      ensures var dispatched := Expected(Arrived(chunks), HitsEof(chunks)).dispatched;
              View() == RunBinary(TcpBinary, old(View()), dispatched, PortAnswers(ports, 0, |dispatched|))
      ensures end.Waiting? ==> received == Arrived(chunks) && DecodeFrom(FromClient, receiveBuffer) == Ok(Incomplete)
    {
      hide DecodeFrom, DecodeAll, DispatchBinary, Add, Consumes, RunBinary, PortAnswers;
      ghost var all := Arrived(chunks);
      ghost var done: seq<Request> := [];
      RunNone(TcpBinary, View(), PortAnswers(ports, 0, 0));
      var i := next;
      while true
        invariant next <= i <= |chunks| && Valid()
        invariant received + Arrived(chunks[i..]) == all && HitsEof(chunks) == HitsEof(chunks[i..])
        invariant decoded == old(decoded) + done && served == |done|
        invariant View() == RunBinary(TcpBinary, old(View()), done, PortAnswers(ports, 0, |done|))
        decreases |chunks| - i
      {
        ghost var more := RequestsIn(receiveBuffer);
        var error := Drain(ports);
        RunContinues(TcpBinary, old(View()), done, more, ports);
        assert old(decoded) + done + more == old(decoded) + (done + more);
        done := done + more;
        assert decoded[1..] == done;
        if error.Some? {
          Settled(received, decoded, receiveBuffer, Arrived(chunks[i..]));
          return Broken(error.value);
        }
        if i == |chunks| || chunks[i] == [] {
          Settled(received, decoded, receiveBuffer, []);
          assert received + [] == received;
          return if i == |chunks| then Waiting else ClosedByPeer;
        }
        ConsumesMore(FromClient, received, decoded, receiveBuffer, chunks[i]);
        received, receiveBuffer := received + chunks[i], receiveBuffer + chunks[i];
        assert chunks[i..][1..] == chunks[i + 1..];
        i := i + 1;
      }
    }
  }

  lemma EmptyIncomplete()
    ensures DecodeFrom(FromClient, []) == Ok(Incomplete)
  {
  }

  // ---------------------------------------------------------------- end to end

  lemma {:induction false} NoEmptyChunk(chunks: seq<seq<u8>>)
    requires forall i :: 0 <= i < |chunks| ==> chunks[i] != []
    ensures Arrived(chunks) == Joined(chunks) && !HitsEof(chunks)
  {
    if chunks != [] { NoEmptyChunk(chunks[1..]); }
  }

  /** Delivery: a hello and any requests, encoded one after the other and cut into reads in any way, complete the
      handshake and are dispatched in order, once each, in canonical form; in-range requests arrive as they were. */
  lemma EndToEndDelivery(
    hello: Request, requests: seq<Request>, chunks: seq<seq<u8>>,
    start: Totals<Response>, ports: nat -> Oracle, shown: Str)
    requires hello.ClientHello? && SendableBy(FromClient, [hello] + requests)
    requires forall i :: 0 <= i < |chunks| ==> chunks[i] != []
    requires Joined(chunks) == EncodeEach([hello] + requests)
    ensures var r := Expected(Arrived(chunks), HitsEof(chunks));
            && r.end == Waiting && r.dispatched == CanonicalEach(requests)
            && ((forall i :: 0 <= i < |requests| ==> InRange(requests[i])) ==>
                  && r.dispatched == requests
                  && Served(start, Arrived(chunks), HitsEof(chunks), ports, shown) ==
                     RunBinary(TcpBinary, start, requests, PortAnswers(ports, 0, |requests|)))
  {
    hide RunBinary, PortAnswers, Rejection, DecodeFrom, Canonical, InRange, Encodable, Encode, EncodeEach;
    var b := Joined(chunks);
    NoEmptyChunk(chunks);
    EncodedStreamReads(FromClient, [hello] + requests, []);
    assert b + [] == b;
    EmptyIncomplete();
    Settled(b, CanonicalEach([hello] + requests), [], []);
    assert Canonical(hello).ClientHello? by { HelloStaysHello(hello); }
    assert CanonicalEach([hello] + requests)[1..] == CanonicalEach(requests);
    if forall i :: 0 <= i < |requests| ==> InRange(requests[i]) {
      forall i | 0 <= i < |requests| ensures Canonical(requests[i]) == requests[i] {
        IdentityIffInRange(requests[i]);
      }
      assert CanonicalEach(requests) == requests;
    }
  }

  lemma HelloStaysHello(hello: Request)
    requires hello.ClientHello?
    ensures Canonical(hello).ClientHello?
  {
  }

  /** Each decoded request costs at least a header's worth of bytes. */
  lemma RequestsCost(b: seq<u8>)
    ensures HEADER_LEN * |RequestsIn(b)| + |DecodeAll(FromClient, b).rest| <= |b|
  {
    hide DecodeFrom, DecodeAll;
    DecodeAllConsumes(FromClient, b);
    var s := DecodeAll(FromClient, b);
    ConsumesBytes(FromClient, b, s.msgs, s.rest);
  }

  // ---------------------------------------------------------------- how a session ends

  /** What follows a hello and any encodable requests decides how the session ends: bytes that cannot be decoded break it,
      otherwise it goes on reading until the peer closes. The requests before are dispatched in every case. */
  lemma SessionEnds(hello: Request, requests: seq<Request>, tail: seq<u8>, eof: bool)
    requires hello.ClientHello? && SendableBy(FromClient, [hello] + requests)
    requires !(DecodeFrom(FromClient, tail).Ok? && DecodeFrom(FromClient, tail).value.Complete?)
    ensures var r := Expected(EncodeEach([hello] + requests) + tail, eof);
            && r.dispatched == CanonicalEach(requests)
            && r.end == match DecodeFrom(FromClient, tail)
                        case Err(e) => Broken(e)
                        case Ok(_) => if eof then ClosedByPeer else Waiting
  {
    hide DecodeFrom, Canonical, Encodable, Encode, EncodeEach;
    var b := EncodeEach([hello] + requests) + tail;
    EncodedStreamReads(FromClient, [hello] + requests, tail);
    Settled(b, CanonicalEach([hello] + requests), tail, []);
    assert b + [] == b && tail + [] == tail;
    HelloStaysHello(hello);
    assert CanonicalEach([hello] + requests)[1..] == CanonicalEach(requests);
  }

  /** The same when nothing complete has arrived: the handshake goes on, or ends without a reply. */
  lemma HandshakeEnds(b: seq<u8>, eof: bool)
    requires !(DecodeFrom(FromClient, b).Ok? && DecodeFrom(FromClient, b).value.Complete?)
    ensures Expected(b, eof) == Outcome(match DecodeFrom(FromClient, b)
                                        case Err(e) => Broken(e)
                                        case Ok(_) => if eof then ClosedInHandshake else AwaitingHello, [])
  {
    hide DecodeFrom;
    assert b + [] == b;
    Settled(b, [], b, []);
  }

  /** Twelve bytes without the magic, where a packet should begin, end the session with that error: at once, or after
      any encodable requests, which are dispatched. */
  lemma BadMagicBreaks(hello: Request, requests: seq<Request>, tail: seq<u8>, eof: bool)
    requires |tail| >= 12 && !DecoderVerdict.HasMagic(tail)
    ensures Expected(tail, eof) == Outcome(Broken(BadMagic), [])
    ensures hello.ClientHello? && SendableBy(FromClient, [hello] + requests) ==>
              Expected(EncodeEach([hello] + requests) + tail, eof) == Outcome(Broken(BadMagic), CanonicalEach(requests))
  {
    hide DecodeFrom, SendableBy, EncodeEach, CanonicalEach, Expected;
    DecoderVerdict.DecodeVerdict(FromClient, tail);
    HandshakeEnds(tail, eof);
    if hello.ClientHello? && SendableBy(FromClient, [hello] + requests) { SessionEnds(hello, requests, tail, eof); }
  }

  /** A first request that is no hello is answered with one error and dispatched to nobody, whatever follows it. */
  lemma StrangersAreRefused(
    first: Request, more: seq<u8>, eof: bool, start: Totals<Response>, ports: nat -> Oracle, shown: Str)
    requires !first.ClientHello? && Encodable(first)
    ensures Expected(Encode(first) + more, eof) == Outcome(NotHello(Canonical(first)), [])
    ensures Served(start, Encode(first) + more, eof, ports, shown) ==
            start.(replies := start.replies + [Error(Utf8.Encode("expected client_hello, got ") + shown)])
  {
    hide DecodeFrom, Canonical, Encodable, Encode, Utf8.Encode, RunBinary, PortAnswers;
    var b := Encode(first) + more;
    RequestSide(first);
    HeadReads(first, more);
    DecodeAllCons(FromClient, b);
  }

  lemma RequestSide(m: Request)
    ensures SideOf(TypeOf(m)) == FromClient && (Canonical(m).ClientHello? <==> m.ClientHello?)
  {
  }

  /** What arrives before the peer closes is all that counts. */
  lemma {:induction false} NothingAfterEof(chunks: seq<seq<u8>>, later: seq<seq<u8>>)
    requires forall i :: 0 <= i < |chunks| ==> chunks[i] != []
    ensures Arrived(chunks + [[]] + later) == Joined(chunks) && HitsEof(chunks + [[]] + later)
    decreases |chunks|
  {
    var all := chunks + [[]] + later;
    if chunks != [] {
      NothingAfterEof(chunks[1..], later);
      assert all[1..] == chunks[1..] + [[]] + later && all[0] == chunks[0];
    } else {
      assert all[0] == [];
    }
  }

  /** The greeting, in ASCII. */
  lemma GreetingSays()
    ensures var hi := HelloReply();
            && hi.version == [0x31, 0x2E, 0x30] && |hi.features| == 3
            && hi.features[0] == [0x74, 0x63, 0x70]
            && hi.features[1] == [0x62, 0x69, 0x6E, 0x61, 0x72, 0x79]
            && hi.features[2] == [0x6A, 0x73, 0x6F, 0x6E, 0x6C]
  {
    hide Utf8.Encode;
    TextOfVersion();
    TextOfTcp();
    TextOfBinary();
    TextOfJsonl();
  }

  lemma TextOfVersion()
    ensures Utf8.Encode("1.0") == [0x31, 0x2E, 0x30]
  {
    hide Utf8.Encode;
    AsciiBytes("1.0", [0x31, 0x2E, 0x30]);
  }

  lemma TextOfTcp()
    ensures Utf8.Encode("tcp") == [0x74, 0x63, 0x70]
  {
    hide Utf8.Encode;
    AsciiBytes("tcp", [0x74, 0x63, 0x70]);
  }

  lemma TextOfBinary()
    ensures Utf8.Encode("binary") == [0x62, 0x69, 0x6E, 0x61, 0x72, 0x79]
  {
    hide Utf8.Encode;
    AsciiBytes("binary", [0x62, 0x69, 0x6E, 0x61, 0x72, 0x79]);
  }

  lemma TextOfJsonl()
    ensures Utf8.Encode("jsonl") == [0x6A, 0x73, 0x6F, 0x6E, 0x6C]
  {
    hide Utf8.Encode;
    AsciiBytes("jsonl", [0x6A, 0x73, 0x6F, 0x6E, 0x6C]);
  }

  lemma AsciiBytes(text: string, bytes: seq<u8>)
    requires |text| == |bytes| && forall i :: 0 <= i < |text| ==> text[i] as int == bytes[i] < 0x80
    ensures Utf8.Encode(text) == bytes
  {
    hide Utf8.Encode;
    Utf8.AsciiIsItself(text);
  }
}
