/** A TCP binary session as two interleaved tasks.

    The reader decodes requests, changes the subscription set under its lock and queues replies; the writer takes
    either a queued reply or a frame from the broadcast bus, tests the frame against the set under the lock, and writes
    one packet at a time. Every lock section, queue operation, bus operation and write is one step, and any
    interleaving of the two tasks is a run. The reply queue is first-in first-out and reports its end only when it is
    empty and the sender is gone; the bus is a log with a read position, and a receiver more than `CAPACITY` frames
    behind is moved forward and told how many frames it lost. */
module SessionProtocol {
  import opened Bytes
  import opened Results
  import opened BinaryMessage
  import opened Service
  import opened Dispatch
  import Protocol
  import TcpBinaryReader

  type BusFrame = Protocol.BusFrame

  const CAPACITY: nat := 1024

  /** Something the writer writes: a queued reply, or the frame at a position of the bus. */
  datatype Item = Reply(reply: Response) | Event(pos: nat)

  /** A frame that failed the test: its bus position, and how many items had been written by then. */
  datatype Drop = Drop(pos: nat, at: nat)

  datatype ReaderPc =
    | Greeting                      // about to queue HelloAck
    | AwaitHello                    // reading, handshake not complete
    | FirstDecode                   // decoding in the handshake loop
    | Rejecting                     // the first request was no hello
    | TopOfLoop                     // decoding in the main loop
    | AwaitMore                     // reading in the main loop
    | Handling(request: Request)    // decoded and drained, not yet handled
    | Replying(reply: Response)     // handled, reply not yet queued
    | Done                          // returned; the sending end of the queue is dropped

  datatype WriterPc =
    | Selecting
    | Testing(pos: nat)             // received a frame, about to test it under the lock
    | Writing(item: Item)
    | Drained                       // the queue was empty and closed
    | BusGone                       // the bus was closed
    | Failed(item: Item, part: nat) // a write failed after `part` bytes

  datatype Session = Session(
    reader: ReaderPc, buffer: seq<u8>, subscribed: set<Str>, queue: seq<Response>,
    writer: WriterPc, cursor: nat, wire: seq<u8>,
    // history: nothing in a step depends on it
    received: seq<u8>, hello: seq<Request>, dispatched: seq<Request>, replies: seq<Response>, log: seq<Item>,
    calls: seq<TxCall>, emitted: seq<BusFrame>, dropped: seq<Drop>, lagged: nat)

  const START := Session(Greeting, [], {}, [], Selecting, 0, [], [], [], [], [], [], [], [], [], 0)

  predicate WriterGone(s: Session) { s.writer.Drained? || s.writer.BusGone? || s.writer.Failed? }

  /** The steps of one session, with the choices the environment makes. */
  datatype Label =
    // reader
    | Greet
    | Read(chunk: seq<u8>)
    | Stop                  // end of input, read error or handshake timeout
    | Decode
    | Reject(shown: Str)    // `shown` is the debug text of the rejected request
    | HandleRequest(ports: Oracle)
    | Send
    // writer
    | Take
    | SeeQueueClosed
    | Receive
    | SeeLag
    | SeeBusClosed
    | Test
    | Write
    | FailWrite(part: nat)

  function ItemMessage(bus: seq<BusFrame>, item: Item): Response
    requires item.Event? ==> item.pos < |bus|
  {
    hide FrameToBinary;
    match item
    case Reply(reply) => reply
    case Event(pos) => FrameToBinary(bus[pos])
  }

  predicate OnBus(bus: seq<BusFrame>, item: Item) { item.Event? ==> item.pos < |bus| }

  predicate Enabled(s: Session, bus: seq<BusFrame>, l: Label) {
    match l
    case Greet => s.reader.Greeting?
    case Read(chunk) => (s.reader.AwaitHello? || s.reader.AwaitMore?) && chunk != []
    case Stop => s.reader.AwaitHello? || s.reader.AwaitMore?
    case Decode => s.reader.FirstDecode? || s.reader.TopOfLoop?
    case Reject(_) => s.reader.Rejecting?
    case HandleRequest(_) => s.reader.Handling?
    case Send => s.reader.Replying?
    case Take => s.writer.Selecting? && s.queue != []
    case SeeQueueClosed => s.writer.Selecting? && s.queue == [] && s.reader.Done?
    case Receive => s.writer.Selecting? && s.cursor < |bus| <= s.cursor + CAPACITY
    case SeeLag => s.writer.Selecting? && |bus| > s.cursor + CAPACITY
    case SeeBusClosed => s.writer.Selecting? && s.cursor == |bus| && s.reader.Done?
    case Test => s.writer.Testing? && s.writer.pos < |bus|
    case Write => s.writer.Writing? && OnBus(bus, s.writer.item)
    case FailWrite(part) =>
      s.writer.Writing? && OnBus(bus, s.writer.item) && part < |Encode(ItemMessage(bus, s.writer.item))|
  }

  /** Sending on the queue; without a receiver the reply is lost. */
  function Queued(s: Session, reply: Response): Session {
    s.(queue := if WriterGone(s) then s.queue else s.queue + [reply], replies := s.replies + [reply])
  }

  /** The queue without its oldest reply. */
  function Dequeued(queue: seq<Response>): seq<Response>
    requires queue != []
  {
    queue[1..]
  }

  /** One step of the decode loops. */
  function AfterDecode(s: Session): Session {
    hide DecodeFrom;
    match DecodeFrom(FromClient, s.buffer)
    case Err(_) => s.(reader := Done)
    case Ok(Incomplete) => s.(reader := if s.reader.FirstDecode? then AwaitHello else AwaitMore)
    case Ok(Complete(request, n)) =>
      if s.reader.FirstDecode? then
        s.(buffer := s.buffer[n..], hello := [request], reader := if request.ClientHello? then TopOfLoop else Rejecting)
      else
        s.(buffer := s.buffer[n..], reader := Handling(request))
  }

  function AfterHandling(s: Session, ports: Oracle): Session
    requires s.reader.Handling?
  {
    hide DispatchBinary;
    var e := DispatchBinary(TcpBinary, s.subscribed, s.reader.request, ports);
    s.(subscribed := e.subscribed, calls := s.calls + e.calls, emitted := s.emitted + e.events,
       dispatched := s.dispatched + [s.reader.request], reader := Replying(e.reply))
  }

  function Next(s: Session, bus: seq<BusFrame>, l: Label): Session
    requires Enabled(s, bus, l)
  {
    hide Encode, AfterDecode, AfterHandling, TcpBinaryReader.HelloReply, TcpBinaryReader.Rejection;
    match l
    case Greet => Queued(s, TcpBinaryReader.HelloReply()).(reader := if WriterGone(s) then Done else AwaitHello)
    case Read(chunk) =>
      s.(buffer := s.buffer + chunk, received := s.received + chunk,
         reader := if s.reader.AwaitHello? then FirstDecode else TopOfLoop)
    case Stop => s.(reader := Done)
    case Decode => AfterDecode(s)
    case Reject(shown) => Queued(s, TcpBinaryReader.Rejection(shown)).(reader := Done)
    case HandleRequest(ports) => AfterHandling(s, ports)
    case Send => Queued(s, s.reader.reply).(reader := TopOfLoop)
    case Take => s.(queue := Dequeued(s.queue), writer := Writing(Reply(s.queue[0])))
    case SeeQueueClosed => s.(writer := Drained)
    case Receive => s.(writer := Testing(s.cursor), cursor := s.cursor + 1)
    case SeeLag => s.(lagged := s.lagged + (|bus| - CAPACITY - s.cursor), cursor := |bus| - CAPACITY)
    case SeeBusClosed => s.(writer := BusGone)
    case Test =>
      if bus[s.writer.pos].iface in s.subscribed then s.(writer := Writing(Event(s.writer.pos)))
      else s.(writer := Selecting, dropped := s.dropped + [Drop(s.writer.pos, |s.log|)])
    case Write =>
      s.(wire := s.wire + Encode(ItemMessage(bus, s.writer.item)), log := s.log + [s.writer.item], writer := Selecting)
    case FailWrite(part) =>
      s.(wire := s.wire + Encode(ItemMessage(bus, s.writer.item))[..part], writer := Failed(s.writer.item, part))
  }

  /** The frames a step publishes on the bus. */
  function Emits(s: Session, l: Label): seq<BusFrame> {
    hide DispatchBinary;
    if l.HandleRequest? && s.reader.Handling? then
      DispatchBinary(TcpBinary, s.subscribed, s.reader.request, l.ports).events
    else []
  }

  // ---------------------------------------------------------------- runs of one session against the bus

  /** A step of the session, or a frame published by somebody else. */
  datatype Move = Own(step: Label) | Other(frame: BusFrame)

  datatype System = System(session: Session, bus: seq<BusFrame>)

  predicate CanMove(y: System, m: Move) { m.Own? ==> Enabled(y.session, y.bus, m.step) }

  function Moved(y: System, m: Move): System
    requires CanMove(y, m)
  {
    hide Next, Emits, Enabled;
    match m
    case Own(l) => System(Next(y.session, y.bus, l), y.bus + Emits(y.session, l))
    case Other(frame) => y.(bus := y.bus + [frame])
  }

  /** `moves` can be made one after the other from the start of a session. */
  predicate Legal(moves: seq<Move>)
    decreases |moves|, 0
  {
    hide CanMove, Moved;
    moves == [] || (Legal(moves[..|moves| - 1]) && CanMove(After(moves[..|moves| - 1]), moves[|moves| - 1]))
  }

  /** Where they lead. */
  function After(moves: seq<Move>): System
    requires Legal(moves)
    decreases |moves|, 1
  {
    hide CanMove, Moved;
    if moves == [] then System(START, []) else Moved(After(moves[..|moves| - 1]), moves[|moves| - 1])
  }
}
