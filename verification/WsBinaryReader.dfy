/** The reading task of a WebSocket binary session, which decodes only when a Binary message arrives. */
module WsBinaryReader {
  import opened Bytes
  import opened Results
  import opened BinaryMessage
  import opened CodecTheorems
  import opened PacketStream
  import opened PayloadCodec
  import opened TcpBinaryReader
  import Service
  import Dispatch
  import Protocol
  import Hex
  import Utf8

  /** What the socket yields; `Gone` is the end of the stream or a receive error. */
  datatype WsMessage = Binary(bytes: seq<u8>) | Text | Close | Control | Gone

  datatype Phase =
    | Hello                        // waiting for the first request
    | Main
    | Refused(first: Request)      // the first request was no hello
    | Broken(error: DecodeError)   // undecodable bytes
    | Closed                       // closed, or a Text message during the handshake

  /** What the session did: answer the hello or refuse another first request, and in the main loop hand a request to the
      dispatcher or answer a Text message with an error. Each puts one reply on the queue. */
  datatype Task = Greet | Refuse | Handle(request: Request) | RejectText

  datatype State = State(phase: Phase, buffer: seq<u8>, tasks: seq<Task>)

  const START := State(Hello, [], [])

  function Handled(requests: seq<Request>): seq<Task> {
    if requests == [] then [] else [Handle(requests[0])] + Handled(requests[1..])
  }

  function RequestOf(task: Task): seq<Request> { if task.Handle? then [task.request] else [] }

  function Dispatched(tasks: seq<Task>): seq<Request> {
    if tasks == [] then [] else RequestOf(tasks[0]) + Dispatched(tasks[1..])
  }

  /** The effect of one message. In the handshake one request is decoded; bytes after it stay in the buffer. */
  function Step(s: State, m: WsMessage): State {
    hide DecodeFrom, DecodeAll, RequestsIn;
    match s.phase
    case Hello =>
      (match m
       case Binary(bytes) =>
         var b := s.buffer + bytes;
         (match DecodeFrom(FromClient, b)
          case Err(e) => State(Phase.Broken(e), b, s.tasks)
          case Ok(Incomplete) => State(Hello, b, s.tasks)
          case Ok(Complete(first, n)) =>
            State(if first.ClientHello? then Main else Refused(first), b[n..],
                  s.tasks + [if first.ClientHello? then Greet else Refuse]))
       case Control => s
       case _ => s.(phase := Closed))
    case Main =>
      (match m
       case Binary(bytes) =>
         var whole := DecodeAll(FromClient, s.buffer + bytes);
         State(if whole.error.Some? then Phase.Broken(whole.error.value) else Main,
               whole.rest, s.tasks + Handled(RequestsIn(s.buffer + bytes)))
       case Text => s.(tasks := s.tasks + [RejectText])
       case Control => s
       case _ => s.(phase := Closed))
    case _ => s
  }

  function RunAll(s: State, ms: seq<WsMessage>): State
    decreases |ms|
  {
    hide Step;
    if ms == [] then s else RunAll(Step(s, ms[0]), ms[1..])
  }

  function BytesOf(ms: seq<WsMessage>): seq<u8> {
    if ms == [] then [] else (if ms[0].Binary? then ms[0].bytes else []) + BytesOf(ms[1..])
  }

  // ---------------------------------------------------------------- what the tasks do

  type Totals = Dispatch.Totals<Response>

  function GreetingReply(): Response {
    hide Utf8.Encode;
    HelloAck(Utf8.Encode("1.0"), Utf8.Encode("can-bridge-daemon"),
             [Utf8.Encode("ws"), Utf8.Encode("binary"), Utf8.Encode("json")])
  }

  /** The answer to a first request that is not a hello; `shown` is its debug text. */
  function Refusal(shown: Str): Response {
    hide Utf8.Encode;
    Error(Utf8.Encode("expected ClientHello, got ") + shown)
  }

  function TextRejection(): Response {
    hide Utf8.Encode;
    Error(Utf8.Encode("unexpected Text in binary mode"))
  }

  function Perform(s: Totals, task: Task, o: Service.Oracle, shown: Str): Totals {
    hide GreetingReply, Refusal, TextRejection, Dispatch.DispatchBinary;
    match task
    case Greet => s.(replies := s.replies + [GreetingReply()])
    case Refuse => s.(replies := s.replies + [Refusal(shown)])
    case Handle(request) => Dispatch.Add(s, Dispatch.DispatchBinary(Dispatch.WsBinary, s.subscribed, request, o))
    case RejectText => s.(replies := s.replies + [TextRejection()])
  }

  /** The effect of all tasks; `ports(i)` is what the ports answer during task `i`. */
  function Performed(start: Totals, tasks: seq<Task>, ports: nat -> Service.Oracle, shown: Str): Totals
    decreases |tasks|
  {
    hide Perform;
    if tasks == [] then start
    else
      var n := |tasks| - 1;
      Perform(Performed(start, tasks[..n], ports, shown), tasks[n], ports(n), shown)
  }

  lemma PerformedNothing(start: Totals, ports: nat -> Service.Oracle, shown: Str)
    ensures Performed(start, [], ports, shown) == start
  {
    hide Perform;
  }

  lemma PerformedAppends(start: Totals, tasks: seq<Task>, task: Task, ports: nat -> Service.Oracle, shown: Str)
    ensures Performed(start, tasks + [task], ports, shown) ==
            Perform(Performed(start, tasks, ports, shown), task, ports(|tasks|), shown)
  {
    hide Perform;
    assert (tasks + [task])[..|tasks|] == tasks;
  }

  /** The session object, with the loops of the source. The answers of the ports, and the debug text of a refused
      request, are fixed with the object. */
  class Session {
    const service: Service.BridgeService
    const ports: nat -> Service.Oracle
    const shown: Str
    ghost const start: Totals
    var phase: Phase
    var receiveBuffer: seq<u8>
    var subscribed: set<Str>
    var outgoing: seq<Response>
    var served: nat  // number of tasks done; numbers the port answers
    ghost var tasks: seq<Task>

    constructor (service: Service.BridgeService, ports: nat -> Service.Oracle, shown: Str)
      ensures this.service == service && this.ports == ports && this.shown == shown
      ensures View() == START && Valid() && start == Dispatch.Totals({}, [], service.calls, service.published)
    {
      hide Performed;
      this.service, this.ports, this.shown := service, ports, shown;
      start := Dispatch.Totals({}, [], service.calls, service.published);
      phase, receiveBuffer, tasks := Hello, [], [];
      subscribed, outgoing, served := {}, [], 0;
      PerformedNothing(Dispatch.Totals({}, [], service.calls, service.published), ports, shown);
    }

    ghost function View(): State
      reads this
    {
      State(phase, receiveBuffer, tasks)
    }

    ghost function Effects(): Totals
      reads this, service
    {
      Dispatch.Totals(subscribed, outgoing, service.calls, service.published)
    }

    /** The set, the queue, the port calls and the bus are what the tasks make of them. */
    ghost predicate Valid()
      reads this, service
    {
      served == |tasks| && Effects() == Performed(start, tasks, ports, shown)
    }

    method UpdateSubscriptionSet(ifaces: seq<Str>)
      modifies this`subscribed
      ensures subscribed == Dispatch.AsSet(ifaces)
    {
      subscribed := {};
      for i := 0 to |ifaces|
        invariant subscribed == Dispatch.AsSet(ifaces[..i])
      {
        subscribed := subscribed + {ifaces[i]};
      }
      assert ifaces[..|ifaces|] == ifaces;
    }

    /** The body of the dispatch loop. */
    method DispatchRequest(request: Request)
      modifies this`subscribed, this`outgoing, service
      ensures Effects() == Perform(old(Effects()), Handle(request), ports(served), shown)
    {
      hide Utf8.Encode, Hex.HexLower, Service.Handle, Dispatch.ListReply, Dispatch.SendReply, Dispatch.AsSet, Performed;
      var o := ports(served);
      match request {
        case Ping(id) =>
          outgoing := outgoing + [Pong(id)];
        case ListIfaces =>
          var response := service.HandleRequest(Protocol.ListIfaces, o);
          outgoing := outgoing + [Dispatch.ListReply(response)];
        case Subscribe(wanted) =>
          UpdateSubscriptionSet(wanted);
          outgoing := outgoing + [Subscribed(wanted)];
        case Unsubscribe =>
          subscribed := {};
          outgoing := outgoing + [Unsubscribed];
        case SendFrame(iface, id, isFd, brs, esi, data) =>
          var dataHex := Hex.BytesToHexLower(data);
          var response := service.HandleRequest(Protocol.SendFrame(iface, id, isFd, brs, esi, dataHex), o);
          outgoing := outgoing + [Dispatch.SendReply(response)];
        case ClientHello(_, _) =>
          outgoing := outgoing + [Dispatch.RepeatedHello(Dispatch.WsBinary)];
      }
    }

    /** Queue the reply of a task that touches nothing else. */
    method Answer(reply: Response, ghost task: Task)
      requires Valid()
      requires Perform(Effects(), task, ports(served), shown) == Effects().(replies := outgoing + [reply])
      modifies this`outgoing, this`tasks, this`served
      ensures Valid() && tasks == old(tasks) + [task]
    {
      hide Performed, Perform;
      PerformedAppends(start, tasks, task, ports, shown);
      outgoing, tasks, served := outgoing + [reply], tasks + [task], served + 1;
    }

    method OnHandshakeMessage(m: WsMessage)
      requires phase == Hello && Valid()
      modifies this, service
      ensures View() == Step(old(View()), m) && Valid()
    {
      hide DecodeFrom, Performed, GreetingReply, Refusal, TextRejection;
      match m {
        case Binary(bytes) =>
          receiveBuffer := receiveBuffer + bytes;
          var r := DecodeClientFrom(receiveBuffer);
          if r.Err? {
            phase := Phase.Broken(r.error);
          } else if r.value.Complete? {
            receiveBuffer := receiveBuffer[r.value.consumed..];
            if r.value.msg.ClientHello? {
              Answer(GreetingReply(), Greet);
              phase := Main;
            } else {
              Answer(Refusal(shown), Refuse);
              phase := Refused(r.value.msg);
            }
          }
        case Control =>
        case _ =>
          phase := Closed;
      }
    }

    method OnBinary(bytes: seq<u8>)
      requires phase == Main && Valid()
      modifies this, service
      ensures View() == Step(old(View()), Binary(bytes)) && Valid()
    {
      hide DecodeFrom, DecodeAll, Performed, Perform;
      receiveBuffer := receiveBuffer + bytes;
      ghost var whole := receiveBuffer;
      ghost var done: seq<Request> := [];
      while true
        invariant phase == Main && Consumes(FromClient, whole, done, receiveBuffer) && Valid()
        invariant tasks == old(tasks) + Handled(done)
        decreases |receiveBuffer|
      {
        var r := DecodeClientFrom(receiveBuffer);
        if r.Err? || r.value.Incomplete? {
          Settled(whole, done, receiveBuffer, []);
          assert whole + [] == whole && receiveBuffer + [] == receiveBuffer;
          if r.Err? { phase := Phase.Broken(r.error); }
          return;
        }
        ConsumesOneMore(FromClient, whole, done, receiveBuffer);
        HandledAppends(done, r.value.msg);
        receiveBuffer := receiveBuffer[r.value.consumed..];
        PerformedAppends(start, tasks, Handle(r.value.msg), ports, shown);
        DispatchRequest(r.value.msg);
        tasks, served := tasks + [Handle(r.value.msg)], served + 1;
        done := done + [r.value.msg];
      }
    }

    method OnMainMessage(m: WsMessage)
      requires phase == Main && Valid()
      modifies this, service
      ensures View() == Step(old(View()), m) && Valid()
    {
      hide DecodeFrom, DecodeAll, Performed, TextRejection;
      match m {
        case Binary(bytes) =>
          OnBinary(bytes);
        case Text =>
          Answer(TextRejection(), RejectText);
        case Control =>
        case _ =>
          phase := Closed;
      }
    }

    method OnMessages(ms: seq<WsMessage>)
      requires Valid()
      modifies this, service
      ensures View() == RunAll(old(View()), ms) && Valid()
    {
      hide Step, Performed;
      for i := 0 to |ms|
        invariant RunAll(old(View()), ms) == RunAll(View(), ms[i..]) && Valid()
      {
        ghost var before := View();
        if phase == Hello {
          OnHandshakeMessage(ms[i]);
        } else if phase == Main {
          OnMainMessage(ms[i]);
        } else {
          OverIsFinal(View(), ms[i]);
        }
        assert ms[i..][1..] == ms[i + 1..];
      }
    }
  }

  lemma OverIsFinal(s: State, m: WsMessage)
    requires s.phase != Hello && s.phase != Main
    ensures Step(s, m) == s
  {
  }

  lemma {:induction false} HandledAppends(done: seq<Request>, r: Request)
    ensures Handled(done + [r]) == Handled(done) + [Handle(r)]
  {
    if done == [] {
      assert Handled([r][1..]) == [];
    } else {
      HandledAppends(done[1..], r);
      assert (done + [r])[1..] == done[1..] + [r];
    }
  }

  lemma {:induction false} DispatchedConcat(a: seq<Task>, b: seq<Task>)
    ensures Dispatched(a + b) == Dispatched(a) + Dispatched(b)
  {
    hide RequestOf;
    if a == [] {
      assert a + b == b;
    } else {
      DispatchedConcat(a[1..], b);
      assert (a + b)[1..] == a[1..] + b && (a + b)[0] == a[0];
      assert Dispatched(a + b) == RequestOf(a[0]) + (Dispatched(a[1..]) + Dispatched(b));
    }
  }

  lemma {:induction false} DispatchedHandled(rs: seq<Request>)
    ensures Dispatched(Handled(rs)) == rs
  {
    if rs != [] { DispatchedHandled(rs[1..]); }
  }

  // ---------------------------------------------------------------- refinement with lag

  predicate KeepsOpen(ms: seq<WsMessage>) { forall i :: 0 <= i < |ms| ==> !ms[i].Close? && !ms[i].Gone? }
  predicate HasBinary(ms: seq<WsMessage>) { exists i :: 0 <= i < |ms| && ms[i].Binary? }

  /** The hello is decoded, nothing else is, and the bytes received after it wait in the buffer. */
  ghost predicate Lagging(s: State, received: seq<u8>) {
    && s.phase == Main && Dispatched(s.tasks) == []
    && exists hello: Request :: hello.ClientHello? && Consumes(FromClient, received, [hello], s.buffer)
  }

  /** The session has dispatched exactly what decoding the whole stream gives after the hello, has failed exactly if
      that fails, and otherwise buffers exactly what that leaves over. */
  ghost predicate CaughtUp(s: State, received: seq<u8>) {
    var whole := DecodeAll(FromClient, received);
    && |whole.msgs| > 0 && whole.msgs[0].ClientHello? && whole.msgs[1..] == Dispatched(s.tasks)
    && if s.phase.Broken? then whole.error == Some(s.phase.error)
       else s.phase == Main && whole.error == None && whole.rest == s.buffer
  }

  lemma ErrorIsFinal(received: seq<u8>, more: seq<u8>)
    requires DecodeAll(FromClient, received).error.Some?
    ensures var s := DecodeAll(FromClient, received);
            DecodeAll(FromClient, received + more) == Stream(s.msgs, s.error, s.rest + more)
  {
    hide DecodeFrom, DecodeAll;
    var s := DecodeAll(FromClient, received);
    DecodeAllConsumes(FromClient, received);
    Settled(received, s.msgs, s.rest, more);
  }

  /** From `msgs` decoded and the rest buffered, one Binary message decodes everything received so far. */
  lemma BinaryDecodesAll(s: State, received: seq<u8>, msgs: seq<Message>, bytes: seq<u8>)
    requires s.phase == Main && Consumes(FromClient, received, msgs, s.buffer)
    requires msgs != [] && msgs[0].ClientHello? && msgs[1..] == Dispatched(s.tasks)
    ensures CaughtUp(Step(s, Binary(bytes)), received + bytes)
  {
    hide DecodeFrom, DecodeAll, Consumes, Dispatched, Handled;
    var b := s.buffer + bytes;
    ConsumesMore(FromClient, received, msgs, s.buffer, bytes);
    ConsumesIsDecodeAll(FromClient, received + bytes, msgs, b);
    DispatchedConcat(s.tasks, Handled(RequestsIn(b)));
    DispatchedHandled(RequestsIn(b));
    assert (msgs + DecodeAll(FromClient, b).msgs)[1..] == msgs[1..] + RequestsIn(b);
  }

  lemma StepRefines(s: State, received: seq<u8>, m: WsMessage)
    requires !m.Close? && !m.Gone? && (Lagging(s, received) || CaughtUp(s, received))
    ensures var u, r := Step(s, m), received + BytesOf([m]);
            && (m.Binary? || CaughtUp(s, received) ==> CaughtUp(u, r))
            && (!m.Binary? && Lagging(s, received) ==> Lagging(u, r))
  {
    hide DecodeFrom, DecodeAll, Consumes;
    assert BytesOf([m]) == if m.Binary? then m.bytes else [];
    assert received + [] == received;
    if m.Binary? {
      if s.phase.Broken? {
        ErrorIsFinal(received, m.bytes);
      } else if CaughtUp(s, received) {
        DecodeAllConsumes(FromClient, received);
        BinaryDecodesAll(s, received, DecodeAll(FromClient, received).msgs, m.bytes);
      } else {
        var hello: Request :| hello.ClientHello? && Consumes(FromClient, received, [hello], s.buffer);
        BinaryDecodesAll(s, received, [hello], m.bytes);
      }
    } else if m.Text? {
      DispatchedConcat(s.tasks, [RejectText]);
      assert Dispatched([RejectText]) == [] && Dispatched(s.tasks) + [] == Dispatched(s.tasks);
    }
  }

  lemma {:induction false} MainRefines(s: State, received: seq<u8>, ms: seq<WsMessage>)
    requires KeepsOpen(ms) && (Lagging(s, received) || CaughtUp(s, received))
    ensures var u, r := RunAll(s, ms), received + BytesOf(ms);
            && (HasBinary(ms) || CaughtUp(s, received) ==> CaughtUp(u, r))
            && (!HasBinary(ms) && Lagging(s, received) ==> Lagging(u, r))
    decreases |ms|
  {
    hide CaughtUp, Lagging, Step, HasBinary;
    if ms == [] {
      assert received + [] == received;
      EmptyHasNoBinary();
    } else {
      var m := ms[0];
      StepRefines(s, received, m);
      assert BytesOf([m]) == if m.Binary? then m.bytes else [];
      var now := received + BytesOf([m]);
      MainRefines(Step(s, m), now, ms[1..]);
      assert received + BytesOf(ms) == now + BytesOf(ms[1..]);
      HasBinaryCons(ms);
    }
  }

  lemma EmptyHasNoBinary()
    ensures !HasBinary([])
  {
  }

  lemma HasBinaryCons(ms: seq<WsMessage>)
    requires ms != []
    ensures HasBinary(ms) <==> ms[0].Binary? || HasBinary(ms[1..])
  {
    if HasBinary(ms[1..]) {
      var i :| 0 <= i < |ms[1..]| && ms[1..][i].Binary?;
      assert ms[i + 1].Binary?;
    }
    if HasBinary(ms) && !ms[0].Binary? {
      var i :| 0 <= i < |ms| && ms[i].Binary?;
      assert ms[1..][i - 1].Binary?;
    }
  }

  lemma {:induction false} StaysOut(s: State, ms: seq<WsMessage>)
    requires s.phase != Hello
    ensures RunAll(s, ms).phase != Hello
    decreases |ms|
  {
    hide DecodeFrom, DecodeAll, RequestsIn;
    if ms != [] { StaysOut(Step(s, ms[0]), ms[1..]); }
  }

  /** The handshake is completed by the last of `ms` and not before. */
  predicate CompletesHandshake(s: State, ms: seq<WsMessage>) {
    ms != [] && RunAll(s, ms[..|ms| - 1]).phase == Hello && RunAll(s, ms).phase == Main
  }

  lemma HandshakeStep(s: State, m: WsMessage)
    requires s.phase == Hello && s.tasks == []
    ensures var u, now := Step(s, m), s.buffer + BytesOf([m]);
            (u.phase == Hello ==> u.buffer == now && u.tasks == []) && (u.phase == Main ==> Lagging(u, now))
  {
    hide DecodeFrom, DecodeAll, RequestsIn;
    var now := s.buffer + BytesOf([m]);
    assert BytesOf([m]) == if m.Binary? then m.bytes else [];
    assert s.buffer + [] == s.buffer;
    if Step(s, m).phase == Main {
      var hello := DecodeFrom(FromClient, now).value.msg;
      ConsumesOneMore(FromClient, now, [], now);
      assert [] + [hello] == [hello];
      DispatchedAppends([], Greet);
    }
  }

  lemma {:induction false} BytesCons(ms: seq<WsMessage>)
    requires ms != []
    ensures BytesOf(ms) == BytesOf([ms[0]]) + BytesOf(ms[1..])
    ensures |ms| == 1 ==> BytesOf(ms[1..]) == []
  {
    assert [ms[0]][1..] == [];
    assert BytesOf([ms[0]]) == if ms[0].Binary? then ms[0].bytes else [];
  }

  lemma {:induction false} RunCons(s: State, ms: seq<WsMessage>)
    requires ms != []
    ensures RunAll(s, ms) == RunAll(Step(s, ms[0]), ms[1..])
    ensures |ms| > 1 ==> RunAll(s, ms[..|ms| - 1]) == RunAll(Step(s, ms[0]), ms[1..][..|ms| - 2])
  {
    hide Step;
    if |ms| > 1 { assert ms[..|ms| - 1][1..] == ms[1..][..|ms| - 2]; }
  }

  lemma {:induction false} HandshakeLags(s: State, ms: seq<WsMessage>)
    requires s.phase == Hello && s.tasks == [] && CompletesHandshake(s, ms)
    ensures Lagging(RunAll(s, ms), s.buffer + BytesOf(ms))
    decreases |ms|
  {
    hide Step, Lagging, BytesOf, RunAll;
    var u := Step(s, ms[0]);
    HandshakeStep(s, ms[0]);
    BytesCons(ms);
    RunCons(s, ms);
    if |ms| == 1 {
      RunNothing(u, ms[1..]);
      assert BytesOf([ms[0]]) + [] == BytesOf([ms[0]]);
    } else {
      if u.phase != Hello { StaysOut(u, ms[1..][..|ms| - 2]); }
      HandshakeLags(u, ms[1..]);
      assert (s.buffer + BytesOf([ms[0]])) + BytesOf(ms[1..]) == s.buffer + BytesOf(ms);
    }
  }

  lemma RunNothing(s: State, ms: seq<WsMessage>)
    requires ms == []
    ensures RunAll(s, ms) == s
  {
  }

  lemma {:induction false} RunConcat(s: State, a: seq<WsMessage>, b: seq<WsMessage>)
    ensures RunAll(s, a + b) == RunAll(RunAll(s, a), b)
    ensures BytesOf(a + b) == BytesOf(a) + BytesOf(b)
    decreases |a|
  {
    hide Step;
    if a == [] {
      assert a + b == b;
    } else {
      RunConcat(Step(s, a[0]), a[1..], b);
      assert (a + b)[1..] == a[1..] + b && (a + b)[0] == a[0];
      var head := if a[0].Binary? then a[0].bytes else [];
      assert BytesOf(a + b) == head + (BytesOf(a[1..]) + BytesOf(b));
    }
  }

  /** Once a Binary message follows the one that completed the handshake, the session has done exactly what decoding
      all the bytes at once gives; until then it has dispatched nothing, whatever is buffered. */
  lemma RefinesWithLag(before: seq<WsMessage>, after: seq<WsMessage>)
    requires CompletesHandshake(START, before) && KeepsOpen(after)
    ensures var s, received := RunAll(START, before + after), BytesOf(before + after);
            if HasBinary(after) then CaughtUp(s, received) else Lagging(s, received)
  {
    hide Step, DecodeAll, Consumes;
    HandshakeLags(START, before);
    assert [] + BytesOf(before) == BytesOf(before);
    var u := RunAll(START, before);
    RunConcat(START, before, after);
    MainRefines(u, BytesOf(before), after);
  }

  // ---------------------------------------------------------------- what the dispatched requests did

  /** What the ports answered while requests were handled. */
  function TaskPorts(tasks: seq<Task>, ports: nat -> Service.Oracle): seq<Service.Oracle> {
    if tasks == [] then []
    else
      var n := |tasks| - 1;
      TaskPorts(tasks[..n], ports) + if tasks[n].Handle? then [ports(n)] else []
  }

  /** The replies of the tasks that handled a request. */
  function RequestReplies(tasks: seq<Task>, replies: seq<Response>): seq<Response>
    requires |replies| == |tasks|
  {
    if tasks == [] then []
    else
      var n := |tasks| - 1;
      RequestReplies(tasks[..n], replies[..n]) + if tasks[n].Handle? then [replies[n]] else []
  }

  /** Greeting and text errors aside, the tasks have the effect of running through the dispatched requests. */
  ghost predicate RunsAsDispatched(start: Totals, tasks: seq<Task>, ports: nat -> Service.Oracle, shown: Str) {
    hide Perform;
    var t := Performed(start, tasks, ports, shown);
    var rs, os, n := Dispatched(tasks), TaskPorts(tasks, ports), |start.replies|;
    && |os| == |rs| && |t.replies| == n + |tasks|
    && var u := Dispatch.RunBinary(Dispatch.WsBinary, start, rs, os);
    && t.subscribed == u.subscribed && t.calls == u.calls && t.events == u.events
    && u.replies == start.replies + RequestReplies(tasks, t.replies[n..])
  }

  lemma DispatchedAppends(tasks: seq<Task>, task: Task)
    ensures Dispatched(tasks + [task]) == Dispatched(tasks) + RequestOf(task)
  {
    hide RequestOf;
    DispatchedConcat(tasks, [task]);
    assert Dispatched([task]) == RequestOf(task) + Dispatched([]);
  }

  lemma {:induction false} TasksRunAsDispatched(start: Totals, tasks: seq<Task>, ports: nat -> Service.Oracle, shown: Str)
    ensures RunsAsDispatched(start, tasks, ports, shown)
    decreases |tasks|
  {
    hide Perform, Dispatched, Dispatch.DispatchBinary;
    if tasks == [] {
      NothingDispatched();
      RunNone(Dispatch.WsBinary, start, []);
      assert start.replies[|start.replies|..] == [];
    } else {
      var n := |tasks| - 1;
      TasksRunAsDispatched(start, tasks[..n], ports, shown);
      assert tasks == tasks[..n] + [tasks[n]];
      DispatchedAppends(tasks[..n], tasks[n]);
      OneMoreTask(start, tasks[..n], tasks[n], ports, shown);
    }
  }

  lemma NothingDispatched()
    ensures Dispatched([]) == []
  {
  }

  lemma OneMoreTask(start: Totals, front: seq<Task>, task: Task, ports: nat -> Service.Oracle, shown: Str)
    requires RunsAsDispatched(start, front, ports, shown)
    ensures RunsAsDispatched(start, front + [task], ports, shown)
  {
    hide Dispatch.DispatchBinary, GreetingReply, Refusal, TextRejection, Performed, Dispatched, RequestReplies, TaskPorts,
         Dispatch.RunBinary;
    PerformedAppends(start, front, task, ports, shown);
    DispatchedAppends(front, task);
    var s, t := Performed(start, front, ports, shown), Performed(start, front + [task], ports, shown);
    var reply := t.replies[|s.replies|];
    assert t.replies == s.replies + [reply];
    ViewsAppend(front, task, s.replies[|start.replies|..], reply, ports);
    assert t.replies[|start.replies|..] == s.replies[|start.replies|..] + [reply];
    if task.Handle? {
      RunBinaryConcat(Dispatch.WsBinary, start, Dispatched(front), TaskPorts(front, ports), [task.request], [ports(|front|)]);
      var u := Dispatch.RunBinary(Dispatch.WsBinary, start, Dispatched(front), TaskPorts(front, ports));
      RunOne(Dispatch.WsBinary, u, task.request, ports(|front|));
    } else {
      assert Dispatched(front) + [] == Dispatched(front) && TaskPorts(front, ports) + [] == TaskPorts(front, ports);
    }
  }

  lemma ViewsAppend(front: seq<Task>, task: Task, replies: seq<Response>, reply: Response, ports: nat -> Service.Oracle)
    requires |replies| == |front|
    ensures TaskPorts(front + [task], ports) == TaskPorts(front, ports) + if task.Handle? then [ports(|front|)] else []
    ensures RequestReplies(front + [task], replies + [reply]) ==
            RequestReplies(front, replies) + if task.Handle? then [reply] else []
  {
    assert (front + [task])[..|front|] == front && (replies + [reply])[..|front|] == replies;
  }

  /** A caught-up session has had the effect of running, one by one, through the requests that whole-stream decoding
      gives after the hello. */
  lemma ServesWholeStream(
    before: seq<WsMessage>, after: seq<WsMessage>, start: Totals, ports: nat -> Service.Oracle, shown: Str)
    requires CompletesHandshake(START, before) && KeepsOpen(after) && HasBinary(after)
    ensures var tasks, rs := RunAll(START, before + after).tasks, RequestsIn(BytesOf(before + after));
            && |rs| > 0 && Dispatched(tasks) == rs[1..] && RunsAsDispatched(start, tasks, ports, shown)
  {
    hide Step, DecodeAll, Consumes, RunsAsDispatched, CompletesHandshake, HasBinary;
    RefinesWithLag(before, after);
    TasksRunAsDispatched(start, RunAll(START, before + after).tasks, ports, shown);
  }

  // ---------------------------------------------------------------- the other messages

  lemma {:induction false} OverStays(s: State, ms: seq<WsMessage>)
    requires s.phase != Hello && s.phase != Main
    ensures RunAll(s, ms) == s
    decreases |ms|
  {
    hide Step;
    if ms != [] {
      OverIsFinal(s, ms[0]);
      OverStays(s, ms[1..]);
    }
  }

  /** A Close, or the end of the stream, ends a session that had not ended: nothing that comes later is looked at, and
      what is buffered is not dispatched. In the handshake a Text message does the same. */
  lemma ClosingIsFinal(s: State, m: WsMessage, later: seq<WsMessage>)
    requires m.Close? || m.Gone? || (m.Text? && s.phase == Hello)
    ensures RunAll(s, [m] + later) == if s.phase == Hello || s.phase == Main then s.(phase := Closed) else s
  {
    hide Step;
    assert ([m] + later)[1..] == later && ([m] + later)[0] == m;
    CloseStep(s, m);
    OverStays(Step(s, m), later);
  }

  lemma CloseStep(s: State, m: WsMessage)
    requires m.Close? || m.Gone? || (m.Text? && s.phase == Hello)
    ensures Step(s, m) == if s.phase == Hello || s.phase == Main then s.(phase := Closed) else s
  {
  }

  /** Ping and Pong messages make no difference wherever they stand. */
  lemma ControlIsIgnored(s: State, before: seq<WsMessage>, after: seq<WsMessage>)
    ensures RunAll(s, before + [Control] + after) == RunAll(s, before + after)
  {
    hide Step;
    RunConcat(s, before + [Control], after);
    RunConcat(s, before, [Control]);
    RunConcat(s, before, after);
    var u := RunAll(s, before);
    assert [Control][1..] == [];
    ControlStep(u);
    assert RunAll(u, [Control]) == RunAll(Step(u, Control), []);
  }

  lemma ControlStep(s: State)
    ensures Step(s, Control) == s
  {
  }

  /** What is said when a first request is refused. */
  lemma RefusalSays(shown: Str)
    ensures Refusal(shown) == Error(Utf8.Encode("expected ClientHello, got ") + shown)
  {
    hide Utf8.Encode;
  }

  /** What is said to a Text message. */
  lemma TextRejectionSays()
    ensures TextRejection() == Error(Utf8.Encode("unexpected Text in binary mode"))
  {
    hide Utf8.Encode;
  }

  /** Greeting and refusing put one reply on the queue and touch nothing else. */
  lemma RefusalsOnlyReply(s: Totals, task: Task, o: Service.Oracle, shown: Str)
    requires !task.Handle?
    ensures var t := Perform(s, task, o, shown);
            && t.subscribed == s.subscribed && t.calls == s.calls && t.events == s.events
            && |t.replies| == |s.replies| + 1 && t.replies[..|s.replies|] == s.replies
            && t.replies[|s.replies|] == (if task.Greet? then GreetingReply() else if task.Refuse? then Refusal(shown) else TextRejection())
  {
    hide Utf8.Encode, GreetingReply, Refusal, TextRejection;
  }

  /** A Text message after the handshake is refused and changes nothing else. */
  lemma TextIsRejected(s: State)
    requires s.phase == Main
    ensures Step(s, Text) == s.(tasks := s.tasks + [RejectText])
  {
    hide DecodeAll, DecodeFrom;
  }

  /** A first request that is no hello is refused; nothing is dispatched, then or later. */
  lemma StrangerIsRefused(first: Request, more: seq<u8>, later: seq<WsMessage>)
    requires !first.ClientHello? && Encodable(first)
    ensures var u := RunAll(START, [Binary(Encode(first) + more)] + later);
            u.phase == Refused(Canonical(first)) && u.tasks == [Refuse] && Dispatched(u.tasks) == []
  {
    hide DecodeFrom, Canonical, Encodable, Encode, DecodeAll, Dispatched;
    var b := Encode(first) + more;
    RequestSide(first);
    HeadReads(first, more);
    var ms := [Binary(b)] + later;
    assert ms[1..] == later && ms[0] == Binary(b) && [] + b == b && [] + [Refuse] == [Refuse];
    OverStays(Step(START, Binary(b)), later);
    DispatchedAppends([], Refuse);
    NothingDispatched();
  }

  /** The greeting, in ASCII. */
  lemma WsGreetingSays()
    ensures var hi := GreetingReply();
            && hi.version == [0x31, 0x2E, 0x30] && |hi.features| == 3
            && hi.features[0] == [0x77, 0x73]
            && hi.features[1] == [0x62, 0x69, 0x6E, 0x61, 0x72, 0x79]
            && hi.features[2] == [0x6A, 0x73, 0x6F, 0x6E]
  {
    hide Utf8.Encode;
    TextOfVersion();
    TextOfWs();
    TextOfBinary();
    TextOfJson();
  }

  lemma TextOfWs()
    ensures Utf8.Encode("ws") == [0x77, 0x73]
  {
    hide Utf8.Encode;
    AsciiBytes("ws", [0x77, 0x73]);
  }

  lemma TextOfJson()
    ensures Utf8.Encode("json") == [0x6A, 0x73, 0x6F, 0x6E]
  {
    hide Utf8.Encode;
    AsciiBytes("json", [0x6A, 0x73, 0x6F, 0x6E]);
  }
}
