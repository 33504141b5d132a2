/** What every step of a session keeps. */
module SessionInvariants {
  import opened Bytes
  import opened Results
  import opened BinaryMessage
  import opened PacketStream
  import opened Service
  import opened Dispatch
  import opened SessionProtocol
  import opened BusAccount
  import TcpBinaryReader
  import Utf8

  // ---------------------------------------------------------------- views of the history

  /** The replies among written items. */
  function Replies(log: seq<Item>): seq<Response> {
    if log == [] then []
    else
      var last := log[|log| - 1];
      Replies(log[..|log| - 1]) + if last.Reply? then [last.reply] else []
  }

  /** The bus positions among written items. */
  function Positions(log: seq<Item>): seq<nat> {
    if log == [] then []
    else
      var last := log[|log| - 1];
      Positions(log[..|log| - 1]) + if last.Event? then [last.pos] else []
  }

  lemma LogAppends(log: seq<Item>, item: Item)
    ensures Replies(log + [item]) == Replies(log) + if item.Reply? then [item.reply] else []
    ensures Positions(log + [item]) == Positions(log) + if item.Event? then [item.pos] else []
  {
    assert (log + [item])[..|log|] == log;
  }

  /** The subscription sets installed by a sequence of requests, oldest first, starting with the empty set. */
  function Controls(rs: seq<Request>): (sets: seq<set<Str>>)
    ensures |sets| > 0
  {
    if rs == [] then [{}]
    else
      var last := rs[|rs| - 1];
      Controls(rs[..|rs| - 1]) +
      (if last.Subscribe? then [AsSet(last.wanted)] else if last.Unsubscribe? then [{}] else [])
  }

  /** The subscription sets acknowledged by a sequence of replies, oldest first, starting with the empty set. */
  function Acked(rs: seq<Response>): (sets: seq<set<Str>>)
    ensures |sets| > 0
  {
    if rs == [] then [{}]
    else
      var last := rs[|rs| - 1];
      Acked(rs[..|rs| - 1]) +
      (if last.Subscribed? then [AsSet(last.ifaces)] else if last.Unsubscribed? then [{}] else [])
  }

  lemma ControlsAppends(rs: seq<Request>, r: Request)
    ensures Controls(rs + [r]) == Controls(rs) +
            (if r.Subscribe? then [AsSet(r.wanted)] else if r.Unsubscribe? then [{}] else [])
  {
    hide AsSet;
    assert (rs + [r])[..|rs|] == rs;
  }

  lemma {:induction false} AckedPrefix(a: seq<Response>, b: seq<Response>)
    requires a <= b
    ensures Acked(a) <= Acked(b)
    decreases |b|
  {
    hide AsSet;
    if |a| < |b| {
      AckedPrefix(a, b[..|b| - 1]);
    } else {
      assert a == b;
    }
  }

  /** Replies that answer the requests one by one acknowledge exactly the sets the requests install. */
  lemma {:induction false} AnswersAck(ds: seq<Request>, rs: seq<Response>)
    requires |rs| == |ds| + 1 && rs[0].HelloAck?
    requires forall i :: 0 <= i < |ds| ==> RightKind(TcpBinary, ds[i], rs[i + 1])
    ensures Acked(rs) == Controls(ds)
    decreases |ds|
  {
    hide AsSet, Utf8.Encode;
    if ds == [] {
      assert rs[..0] == [];
    } else {
      AnswersAck(ds[..|ds| - 1], rs[..|ds|]);
      assert RightKind(TcpBinary, ds[|ds| - 1], rs[|ds|]);
    }
  }

  function InHand(w: WriterPc): seq<Item> {
    match w
    case Testing(pos) => [Event(pos)]
    case Writing(item) => [item]
    case Failed(item, _) => [item]
    case _ => []
  }

  /** The reply in the writer's hand. */
  function HeldReply(w: WriterPc): seq<Response> {
    if w.Writing? && w.item.Reply? then [w.item.reply] else []
  }

  /** The bus position of the frame in the writer's hand. */
  function HeldPosition(w: WriterPc): seq<nat> {
    match w
    case Testing(pos) => [pos]
    case Writing(Event(pos)) => [pos]
    case Failed(Event(pos), _) => [pos]
    case _ => []
  }

  // ---------------------------------------------------------------- the byte stream

  function Pending(s: Session): seq<Request> {
    if s.reader.Handling? then [s.reader.request] else []
  }

  predicate InMainLoop(s: Session) {
    s.reader.TopOfLoop? || s.reader.AwaitMore? || s.reader.Handling? || s.reader.Replying?
  }

  predicate Greeted(s: Session) { |s.hello| == 1 && s.hello[0].ClientHello? }

  /** The requests dispatched, after the hello, are what was decoded and drained from the bytes received; and the
      reader never waits for input while a whole packet is buffered. */
  ghost predicate StreamInv(s: Session) {
    && (s.reader.Greeting? || s.reader.AwaitHello? || s.reader.FirstDecode? ==> s.hello == [] && s.dispatched == [])
    && (s.reader.Rejecting? ==> |s.hello| == 1 && !Greeted(s))
    && (InMainLoop(s) || s.dispatched != [] ==> Greeted(s))
    && |s.hello| <= 1
    && Consumes(FromClient, s.received, s.hello + s.dispatched + Pending(s), s.buffer)
    && (s.reader.AwaitHello? || s.reader.AwaitMore? ==> DecodeFrom(FromClient, s.buffer) == Ok(Incomplete))
    && (s.reader.Greeting? ==> s.received == [])
  }

  lemma StreamStep(s: Session, bus: seq<BusFrame>, l: Label)
    requires Enabled(s, bus, l) && StreamInv(s)
    ensures StreamInv(Next(s, bus, l))
  {
    hide DecodeFrom, Consumes, DispatchBinary, Encode, TcpBinaryReader.HelloReply, TcpBinaryReader.Rejection,
         ItemMessage;
    var msgs := s.hello + s.dispatched + Pending(s);
    match l
    case Greet => GreetStream(s);
    case Read(chunk) => ConsumesMore(FromClient, s.received, msgs, s.buffer, chunk);
    case Decode => DecodeStream(s);
    case HandleRequest(_) =>
      assert s.hello + (s.dispatched + [s.reader.request]) + [] == msgs;
    case _ =>
  }

  lemma GreetStream(s: Session)
    requires s.reader.Greeting? && StreamInv(s)
    ensures DecodeFrom(FromClient, s.buffer) == Ok(Incomplete)
  {
    hide DecodeFrom;
    assert s.hello + s.dispatched + Pending(s) == [];
    TcpBinaryReader.EmptyIncomplete();
  }

  lemma DecodeStream(s: Session)
    requires (s.reader.FirstDecode? || s.reader.TopOfLoop?) && StreamInv(s)
    ensures StreamInv(AfterDecode(s))
  {
    hide DecodeFrom, Consumes;
    var msgs := s.hello + s.dispatched + Pending(s);
    var r := DecodeFrom(FromClient, s.buffer);
    if r.Ok? && r.value.Complete? {
      ConsumesOneMore(FromClient, s.received, msgs, s.buffer);
      if s.reader.FirstDecode? {
        assert msgs + [r.value.msg] == [r.value.msg] + [] + [];
      } else {
        assert msgs + [r.value.msg] == s.hello + s.dispatched + [r.value.msg];
      }
    }
  }

  // ---------------------------------------------------------------- replies

  /** The first request was refused and answered with an error. */
  predicate TurnedAway(s: Session) {
    |s.hello| == 1 && !Greeted(s) && s.dispatched == [] && |s.replies| == 2 && s.replies[1].Error?
  }

  /** The replies queued so far: HelloAck, then one matching reply per dispatched request, in request order. */
  ghost predicate ReplyInv(s: Session) {
    && (s.reader.Greeting? <==> s.replies == [])
    && (s.replies != [] ==> s.replies[0] == TcpBinaryReader.HelloReply())
    && (s.reader.AwaitHello? || s.reader.FirstDecode? || s.reader.Rejecting? ==> |s.replies| == 1)
    && (s.reader.TopOfLoop? || s.reader.AwaitMore? || s.reader.Handling? ==> |s.replies| == 1 + |s.dispatched|)
    && (s.reader.Replying? ==> |s.replies| == |s.dispatched| && RightKind(TcpBinary, s.dispatched[|s.dispatched| - 1], s.reader.reply))
    && (s.reader.Done? ==> |s.replies| == 1 + |s.dispatched| || TurnedAway(s))
    && forall i :: 0 <= i < |s.dispatched| && i + 1 < |s.replies| ==> RightKind(TcpBinary, s.dispatched[i], s.replies[i + 1])
  }

  lemma ReplyDecode(s: Session)
    requires (s.reader.FirstDecode? || s.reader.TopOfLoop?) && StreamInv(s) && ReplyInv(s)
    ensures ReplyInv(AfterDecode(s))
  {
    hide DecodeFrom, Consumes, TcpBinaryReader.HelloReply, RightKind;
  }

  lemma ReplyHandle(s: Session, ports: Oracle)
    requires s.reader.Handling? && ReplyInv(s)
    ensures ReplyInv(AfterHandling(s, ports))
  {
    hide DispatchBinary, TcpBinaryReader.HelloReply, RightKind;
    RepliesAnswer(TcpBinary, s.subscribed, s.reader.request, ports);
  }

  lemma ReplyReject(s: Session, reply: Response)
    requires s.reader.Rejecting? && reply.Error? && StreamInv(s) && ReplyInv(s)
    ensures ReplyInv(Queued(s, reply).(reader := Done))
  {
    hide DecodeFrom, Consumes, TcpBinaryReader.HelloReply, RightKind;
  }

  lemma ReplySend(s: Session)
    requires s.reader.Replying? && ReplyInv(s)
    ensures ReplyInv(Queued(s, s.reader.reply).(reader := TopOfLoop))
  {
    hide TcpBinaryReader.HelloReply, RightKind;
  }

  lemma ReplyStep(s: Session, bus: seq<BusFrame>, l: Label)
    requires Enabled(s, bus, l) && StreamInv(s) && ReplyInv(s)
    ensures ReplyInv(Next(s, bus, l))
  {
    hide DecodeFrom, Consumes, AfterDecode, AfterHandling, Encode, TcpBinaryReader.HelloReply, TcpBinaryReader.Rejection,
         RightKind, ItemMessage, Dequeued;
    match l
    case Decode => ReplyDecode(s);
    case HandleRequest(ports) => ReplyHandle(s, ports);
    case Reject(shown) =>
      RejectionIsError(shown);
      ReplyReject(s, TcpBinaryReader.Rejection(shown));
    case Send => ReplySend(s);
    case _ =>
  }

  lemma RejectionIsError(shown: Str)
    ensures TcpBinaryReader.Rejection(shown).Error?
  {
  }

  lemma HelloReplyIsHelloAck()
    ensures TcpBinaryReader.HelloReply().HelloAck?
  {
  }

  /** What was written, what is held and what is queued make up `all`, in that order. */
  predicate Conveyed(written: seq<Response>, held: seq<Response>, queue: seq<Response>, all: seq<Response>) {
    written + held + queue == all
  }

  lemma ConveyTake(written: seq<Response>, queue: seq<Response>, all: seq<Response>)
    requires queue != [] && Conveyed(written, [], queue, all)
    ensures Conveyed(written, [queue[0]], Dequeued(queue), all)
  {
    assert queue == [queue[0]] + queue[1..];
  }

  lemma ConveyWrite(written: seq<Response>, held: seq<Response>, queue: seq<Response>, all: seq<Response>)
    requires Conveyed(written, held, queue, all)
    ensures Conveyed(written + held, [], queue, all)
  {
  }

  lemma ConveySend(written: seq<Response>, held: seq<Response>, queue: seq<Response>, all: seq<Response>, r: Response)
    requires Conveyed(written, held, queue, all)
    ensures Conveyed(written, held, queue + [r], all + [r])
  {
  }

  lemma ConveyedPrefix(written: seq<Response>, held: seq<Response>, queue: seq<Response>, all: seq<Response>)
    requires Conveyed(written, held, queue, all)
    ensures written <= all && (held == queue == [] ==> written == all)
  {
  }

  /** Every reply is, in order, on the wire, in the writer's hand or in the queue; none is lost unless the writer has
      stopped early, and when it stops because the queue is closed all of them are on the wire. */
  ghost predicate QueueInv(s: Session) {
    if WriterGone(s) then Replies(s.log) <= s.replies && (s.writer.Drained? ==> Replies(s.log) == s.replies)
                         && (s.reader.Done? || s.writer.Failed?)
    else Conveyed(Replies(s.log), HeldReply(s.writer), s.queue, s.replies)
  }

  predicate IsReaderStep(l: Label) {
    l.Greet? || l.Read? || l.Stop? || l.Decode? || l.Reject? || l.HandleRequest? || l.Send?
  }

  lemma QueueReaderStep(s: Session, bus: seq<BusFrame>, l: Label)
    requires Enabled(s, bus, l) && QueueInv(s) && IsReaderStep(l)
    ensures QueueInv(Next(s, bus, l))
  {
    hide DecodeFrom, DispatchBinary, Encode, TcpBinaryReader.HelloReply, TcpBinaryReader.Rejection, Replies, ItemMessage,
         HeldReply, Conveyed, Dequeued;
    if !WriterGone(s) && (l.Greet? || l.Reject? || l.Send?) {
      var r := if l.Greet? then TcpBinaryReader.HelloReply() else if l.Reject? then TcpBinaryReader.Rejection(l.shown)
               else s.reader.reply;
      ConveySend(Replies(s.log), HeldReply(s.writer), s.queue, s.replies, r);
    }
  }

  lemma QueueWriterStep(s: Session, bus: seq<BusFrame>, l: Label)
    requires Enabled(s, bus, l) && QueueInv(s) && !IsReaderStep(l)
    ensures QueueInv(Next(s, bus, l))
  {
    hide Encode, Replies, ItemMessage, AfterDecode, AfterHandling, Queued, Dequeued, Conveyed,
         TcpBinaryReader.HelloReply, TcpBinaryReader.Rejection;
    match l
    case Take => ConveyTake(Replies(s.log), s.queue, s.replies);
    case Write =>
      ConveyWrite(Replies(s.log), HeldReply(s.writer), s.queue, s.replies);
      LogAppends(s.log, s.writer.item);
    case SeeQueueClosed | SeeBusClosed | FailWrite(_) =>
      ConveyedPrefix(Replies(s.log), HeldReply(s.writer), s.queue, s.replies);
    case _ =>
  }

  lemma WireIsPrefix(s: Session)
    requires QueueInv(s)
    ensures Replies(s.log) <= s.replies
  {
    hide Replies, Conveyed;
    if !WriterGone(s) { ConveyedPrefix(Replies(s.log), HeldReply(s.writer), s.queue, s.replies); }
  }

  lemma RepliesAckControls(s: Session)
    requires StreamInv(s) && ReplyInv(s)
    ensures Acked(s.replies) <= Controls(s.dispatched)
  {
    hide Consumes, DecodeFrom, TcpBinaryReader.HelloReply, RightKind, AsSet;
    HelloReplyIsHelloAck();
    if s.replies == [] {
      ControlsPrefix([], s.dispatched);
    } else if TurnedAway(s) {
      assert s.replies[..1][..0] == [] && s.replies[..1] == [s.replies[0]];
      assert Acked(s.replies[..1]) == [{}] && Acked(s.replies) == [{}];
    } else {
      var n := |s.replies| - 1;
      AnswersAck(s.dispatched[..n], s.replies);
      ControlsPrefix(s.dispatched[..n], s.dispatched);
    }
  }

  /** What has been acknowledged on the wire was installed before. */
  lemma AckedOnWire(s: Session)
    requires StreamInv(s) && ReplyInv(s) && QueueInv(s)
    ensures Replies(s.log) <= s.replies && Acked(Replies(s.log)) <= Controls(s.dispatched)
  {
    hide StreamInv, ReplyInv, QueueInv, Replies, Acked, Controls;
    WireIsPrefix(s);
    AckedPrefix(Replies(s.log), s.replies);
    RepliesAckControls(s);
  }

  lemma {:induction false} ControlsPrefix(a: seq<Request>, b: seq<Request>)
    requires a <= b
    ensures Controls(a) <= Controls(b)
    decreases |b|
  {
    hide AsSet;
    if |a| < |b| {
      ControlsPrefix(a, b[..|b| - 1]);
    } else {
      assert a == b;
    }
  }

  // ---------------------------------------------------------------- frames and subscriptions

  /** The set the writer tests against is the one installed last. */
  predicate SetInv(s: Session) {
    s.subscribed == Controls(s.dispatched)[|Controls(s.dispatched)| - 1]
  }

  lemma SetStep(s: Session, bus: seq<BusFrame>, l: Label)
    requires Enabled(s, bus, l) && SetInv(s)
    ensures SetInv(Next(s, bus, l))
  {
    hide DecodeFrom, Encode, TcpBinaryReader.HelloReply, TcpBinaryReader.Rejection, ItemMessage, Utf8.Encode,
         Service.Handle, Controls, AsSet;
    if l.HandleRequest? { ControlsAppends(s.dispatched, s.reader.request); }
  }

  /** The frame's interface is in the set of some control request number `v`, with `v` at least `k`. */
  ghost predicate Justified(rs: seq<Request>, frame: BusFrame, k: nat) {
    exists v :: k <= v < |Controls(rs)| && frame.iface in Controls(rs)[v]
  }

  lemma JustifiedStays(rs: seq<Request>, more: seq<Request>, frame: BusFrame, k: nat)
    requires rs <= more && Justified(rs, frame, k)
    ensures Justified(more, frame, k)
  {
    hide Controls;
    ControlsPrefix(rs, more);
    var v :| k <= v < |Controls(rs)| && frame.iface in Controls(rs)[v];
    assert frame.iface in Controls(more)[v];
  }

  /** Number of acknowledgements among the first `j` items written. */
  function AcksBefore(log: seq<Item>, j: nat): nat
    requires j <= |log|
  {
    |Acked(Replies(log[..j]))| - 1
  }

  lemma AcksAreHandled(s: Session)
    requires StreamInv(s) && ReplyInv(s) && QueueInv(s)
    ensures AcksBefore(s.log, |s.log|) < |Controls(s.dispatched)|
  {
    hide StreamInv, ReplyInv, QueueInv, Replies, Acked, Controls;
    AckedOnWire(s);
    assert s.log[..|s.log|] == s.log;
  }

  lemma AcksBeforeStays(log: seq<Item>, more: seq<Item>, j: nat)
    requires log <= more && j <= |log|
    ensures AcksBefore(more, j) == AcksBefore(log, j)
  {
    hide Acked, Replies;
    assert more[..j] == log[..j];
  }

  /** Every frame written, and the one about to be, was let through by a set at least as new as the last one
      acknowledged before it. */
  ghost predicate FreshInv(s: Session, bus: seq<BusFrame>) {
    && (forall j :: 0 <= j < |s.log| && s.log[j].Event? ==>
          s.log[j].pos < |bus| && Justified(s.dispatched, bus[s.log[j].pos], AcksBefore(s.log, j)))
    && (s.writer.Writing? && s.writer.item.Event? ==>
          s.writer.item.pos < |bus| && Justified(s.dispatched, bus[s.writer.item.pos], AcksBefore(s.log, |s.log|)))
  }

  lemma FreshGrows(s: Session, bus: seq<BusFrame>, t: Session, more: seq<BusFrame>)
    requires FreshInv(s, bus) && bus <= more && t.log == s.log && s.dispatched <= t.dispatched
    requires t.writer == s.writer || !t.writer.Writing? || t.writer.item.Reply?
    ensures FreshInv(t, more)
  {
    hide Justified, AcksBefore;
    forall j | 0 <= j < |s.log| && s.log[j].Event?
      ensures Justified(t.dispatched, more[s.log[j].pos], AcksBefore(s.log, j))
    {
      JustifiedStays(s.dispatched, t.dispatched, bus[s.log[j].pos], AcksBefore(s.log, j));
    }
    if t.writer == s.writer && s.writer.Writing? && s.writer.item.Event? {
      JustifiedStays(s.dispatched, t.dispatched, bus[s.writer.item.pos], AcksBefore(s.log, |s.log|));
    }
  }

  lemma FreshTest(s: Session, bus: seq<BusFrame>)
    requires Enabled(s, bus, Test) && FreshInv(s, bus) && SetInv(s)
    requires StreamInv(s) && ReplyInv(s) && QueueInv(s)
    ensures FreshInv(Next(s, bus, Test), bus)
  {
    hide StreamInv, ReplyInv, QueueInv, AcksBefore, Controls, Encode, ItemMessage, AfterDecode, AfterHandling, Queued,
         Dequeued, TcpBinaryReader.HelloReply, TcpBinaryReader.Rejection;
    AcksAreHandled(s);
    var v := |Controls(s.dispatched)| - 1;
    if bus[s.writer.pos].iface in s.subscribed {
      assert bus[s.writer.pos].iface in Controls(s.dispatched)[v];
    }
  }

  lemma FreshWrite(s: Session, bus: seq<BusFrame>)
    requires Enabled(s, bus, Write) && FreshInv(s, bus)
    ensures FreshInv(Next(s, bus, Write), bus)
  {
    hide Justified, AcksBefore, Encode, ItemMessage, AfterDecode, AfterHandling, Queued, Dequeued,
         TcpBinaryReader.HelloReply, TcpBinaryReader.Rejection;
    var t := Next(s, bus, Write);
    forall j | 0 <= j < |t.log| && t.log[j].Event?
      ensures t.log[j].pos < |bus| && Justified(t.dispatched, bus[t.log[j].pos], AcksBefore(t.log, j))
    {
      AcksBeforeStays(s.log, t.log, j);
    }
  }

  lemma FreshStep(s: Session, bus: seq<BusFrame>, l: Label)
    requires Enabled(s, bus, l) && FreshInv(s, bus) && SetInv(s)
    requires StreamInv(s) && ReplyInv(s) && QueueInv(s)
    ensures FreshInv(Next(s, bus, l), bus + Emits(s, l))
  {
    hide StreamInv, ReplyInv, QueueInv, FreshInv, SetInv, Encode, ItemMessage, DecodeFrom, DispatchBinary,
         TcpBinaryReader.HelloReply, TcpBinaryReader.Rejection, Dequeued;
    if l.Test? {
      FreshTest(s, bus);
      assert bus + [] == bus;
    } else if l.Write? {
      FreshWrite(s, bus);
      assert bus + [] == bus;
    } else {
      FreshGrows(s, bus, Next(s, bus, l), bus + Emits(s, l));
    }
  }

  /** The frame's interface is missing from the set of some control request number `v`, with `v` at least `k`. */
  ghost predicate Withheld(rs: seq<Request>, frame: BusFrame, k: nat) {
    exists v :: k <= v < |Controls(rs)| && frame.iface !in Controls(rs)[v]
  }

  lemma WithheldStays(rs: seq<Request>, more: seq<Request>, frame: BusFrame, k: nat)
    requires rs <= more && Withheld(rs, frame, k)
    ensures Withheld(more, frame, k)
  {
    hide Controls;
    ControlsPrefix(rs, more);
    var v :| k <= v < |Controls(rs)| && frame.iface !in Controls(rs)[v];
    assert frame.iface !in Controls(more)[v];
  }

  /** Every frame dropped was missing from a set at least as new as the last one acknowledged before. */
  ghost predicate DropInv(s: Session, bus: seq<BusFrame>) {
    forall i :: 0 <= i < |s.dropped| ==>
      var d := s.dropped[i];
      d.pos < |bus| && d.at <= |s.log| && Withheld(s.dispatched, bus[d.pos], AcksBefore(s.log, d.at))
  }

  lemma DropGrows(s: Session, bus: seq<BusFrame>, t: Session, more: seq<BusFrame>)
    requires DropInv(s, bus) && bus <= more && s.log <= t.log && s.dispatched <= t.dispatched && t.dropped == s.dropped
    ensures DropInv(t, more)
  {
    hide Withheld, AcksBefore;
    forall i | 0 <= i < |t.dropped|
      ensures t.dropped[i].pos < |more| && t.dropped[i].at <= |t.log|
      ensures Withheld(t.dispatched, more[t.dropped[i].pos], AcksBefore(t.log, t.dropped[i].at))
    {
      var d := s.dropped[i];
      WithheldStays(s.dispatched, t.dispatched, bus[d.pos], AcksBefore(s.log, d.at));
      AcksBeforeStays(s.log, t.log, d.at);
    }
  }

  lemma DropTest(s: Session, bus: seq<BusFrame>)
    requires Enabled(s, bus, Test) && DropInv(s, bus) && SetInv(s)
    requires StreamInv(s) && ReplyInv(s) && QueueInv(s)
    ensures DropInv(Next(s, bus, Test), bus)
  {
    hide StreamInv, ReplyInv, QueueInv, AcksBefore, Controls, Encode, ItemMessage, AfterDecode, AfterHandling, Queued,
         Dequeued, TcpBinaryReader.HelloReply, TcpBinaryReader.Rejection;
    AcksAreHandled(s);
    var v := |Controls(s.dispatched)| - 1;
    if bus[s.writer.pos].iface !in s.subscribed {
      assert bus[s.writer.pos].iface !in Controls(s.dispatched)[v];
      assert Withheld(s.dispatched, bus[s.writer.pos], AcksBefore(s.log, |s.log|));
    }
  }

  lemma DropStep(s: Session, bus: seq<BusFrame>, l: Label)
    requires Enabled(s, bus, l) && DropInv(s, bus) && SetInv(s)
    requires StreamInv(s) && ReplyInv(s) && QueueInv(s)
    ensures DropInv(Next(s, bus, l), bus + Emits(s, l))
  {
    hide StreamInv, ReplyInv, QueueInv, DropInv, SetInv, Encode, ItemMessage, DecodeFrom, DispatchBinary,
         TcpBinaryReader.HelloReply, TcpBinaryReader.Rejection, Dequeued;
    if l.Test? {
      DropTest(s, bus);
      assert bus + [] == bus;
    } else {
      DropGrows(s, bus, Next(s, bus, l), bus + Emits(s, l));
    }
  }

  // ---------------------------------------------------------------- frames and the bus

  /** Frames leave the bus in order and once each, and every frame passed is accounted for. */
  ghost predicate BusInv(s: Session, bus: seq<BusFrame>) {
    && s.cursor <= |bus|
    && Accounted(Positions(s.log), HeldPosition(s.writer), s.dropped, s.lagged, s.cursor)
    && LostAreOld(Positions(s.log), HeldPosition(s.writer), s.dropped, s.cursor, |bus|)
    && (s.writer.Testing? ==> s.writer.pos + 1 == s.cursor && DropsBelow(s.dropped, s.writer.pos))
  }

  lemma BusWriterStep(s: Session, bus: seq<BusFrame>, l: Label)
    requires Enabled(s, bus, l) && BusInv(s, bus) && !IsReaderStep(l)
    ensures BusInv(Next(s, bus, l), bus)
  {
    hide Encode, Positions, ItemMessage, AfterDecode, AfterHandling, Queued, Dequeued, Accounted, LostAreOld, DropsBelow,
         TcpBinaryReader.HelloReply, TcpBinaryReader.Rejection;
    match l
    case Receive =>
      AccountReceive(Positions(s.log), s.dropped, s.lagged, s.cursor);
      OldReceive(Positions(s.log), s.dropped, s.cursor, |bus|);
    case SeeLag =>
      AccountLag(Positions(s.log), s.dropped, s.lagged, s.cursor, |bus| - CAPACITY - s.cursor);
      OldLag(Positions(s.log), s.dropped, s.cursor, |bus|);
    case Test =>
      if bus[s.writer.pos].iface !in s.subscribed {
        AccountDrop(Positions(s.log), s.dropped, s.lagged, s.cursor, Drop(s.writer.pos, |s.log|));
        OldDrop(Positions(s.log), s.dropped, s.cursor, Drop(s.writer.pos, |s.log|), |bus|);
      }
    case Write =>
      AccountWrite(Positions(s.log), HeldPosition(s.writer), s.dropped, s.lagged, s.cursor);
      OldWrite(Positions(s.log), HeldPosition(s.writer), s.dropped, s.cursor, |bus|);
      LogAppends(s.log, s.writer.item);
    case _ =>
  }

  lemma BusGrows(s: Session, bus: seq<BusFrame>, t: Session, more: seq<BusFrame>)
    requires BusInv(s, bus) && bus <= more && t.log == s.log && t.writer == s.writer && t.cursor == s.cursor
    requires t.dropped == s.dropped && t.lagged == s.lagged
    ensures BusInv(t, more)
  {
    hide Positions, Accounted, LostAreOld, HeldPosition;
    OldGrows(Positions(s.log), HeldPosition(s.writer), s.dropped, s.cursor, |bus|, |more|);
  }

  lemma BusStep(s: Session, bus: seq<BusFrame>, l: Label)
    requires Enabled(s, bus, l) && BusInv(s, bus)
    ensures BusInv(Next(s, bus, l), bus + Emits(s, l))
  {
    hide BusInv, DecodeFrom, DispatchBinary, Encode, TcpBinaryReader.HelloReply, TcpBinaryReader.Rejection, ItemMessage, Dequeued;
    assert bus + [] == bus;
    if IsReaderStep(l) {
      BusGrows(s, bus, Next(s, bus, l), bus + Emits(s, l));
    } else {
      BusWriterStep(s, bus, l);
    }
  }

  // ---------------------------------------------------------------- the wire

  predicate AllOnBus(bus: seq<BusFrame>, items: seq<Item>) {
    forall i :: 0 <= i < |items| ==> OnBus(bus, items[i])
  }

  /** The messages that items stand for. */
  function Messages(bus: seq<BusFrame>, items: seq<Item>): (ms: seq<Response>)
    requires AllOnBus(bus, items)
    ensures |ms| == |items| && forall i :: 0 <= i < |items| ==> ms[i] == ItemMessage(bus, items[i])
  {
    hide ItemMessage;
    if items == [] then []
    else Messages(bus, items[..|items| - 1]) + [ItemMessage(bus, items[|items| - 1])]
  }

  lemma MessagesGrow(bus: seq<BusFrame>, more: seq<BusFrame>, items: seq<Item>)
    requires AllOnBus(bus, items) && bus <= more
    ensures AllOnBus(more, items) && Messages(more, items) == Messages(bus, items)
  {
    hide Messages;
    forall i | 0 <= i < |items| ensures OnBus(more, items[i]) { assert OnBus(bus, items[i]); }
    forall i | 0 <= i < |items| ensures Messages(more, items)[i] == Messages(bus, items)[i] {
      assert OnBus(bus, items[i]);
    }
  }

  lemma MessagesAppend(bus: seq<BusFrame>, items: seq<Item>, item: Item)
    requires AllOnBus(bus, items) && OnBus(bus, item)
    ensures AllOnBus(bus, items + [item]) && Messages(bus, items + [item]) == Messages(bus, items) + [ItemMessage(bus, item)]
  {
    hide ItemMessage, Messages;
  }

  /** What a failed write left on the wire: the start of one packet. */
  function Tail(s: Session, bus: seq<BusFrame>): seq<u8>
    requires s.writer.Failed? ==> OnBus(bus, s.writer.item)
  {
    hide Encode, ItemMessage;
    if !s.writer.Failed? then []
    else
      var packet := Encode(ItemMessage(bus, s.writer.item));
      if s.writer.part < |packet| then packet[..s.writer.part] else packet
  }

  /** The bytes are the messages' packets, and then `tail`. */
  ghost predicate Holds(wire: seq<u8>, ms: seq<Response>, tail: seq<u8>) { wire == EncodeEach(ms) + tail }

  lemma HoldsPacket(wire: seq<u8>, ms: seq<Response>, m: Response)
    requires Holds(wire, ms, [])
    ensures Holds(wire + Encode(m), ms + [m], [])
  {
    hide Encode, EncodeEach;
    EncodeEachAppends(ms, m);
  }

  lemma HoldsPart(wire: seq<u8>, ms: seq<Response>, part: seq<u8>)
    requires Holds(wire, ms, [])
    ensures Holds(wire + part, ms, part)
  {
    hide EncodeEach;
  }

  /** The wire holds whole packets, one per written item, and after a failed write the start of one more. */
  ghost predicate WireInv(s: Session, bus: seq<BusFrame>) {
    && AllOnBus(bus, s.log) && AllOnBus(bus, InHand(s.writer))
    && (s.writer.Failed? ==> OnBus(bus, s.writer.item) && s.writer.part < |Encode(ItemMessage(bus, s.writer.item))|)
    && Holds(s.wire, Messages(bus, s.log), Tail(s, bus))
  }

  lemma WireGrows(s: Session, bus: seq<BusFrame>, t: Session, more: seq<BusFrame>)
    requires WireInv(s, bus) && bus <= more && t.log == s.log && t.wire == s.wire
    requires t.writer == s.writer || (!s.writer.Failed? && !t.writer.Failed? && AllOnBus(more, InHand(t.writer)))
    ensures WireInv(t, more)
  {
    hide Encode, Holds, Messages;
    MessagesGrow(bus, more, s.log);
    if t.writer == s.writer {
      MessagesGrow(bus, more, InHand(s.writer));
      if s.writer.Failed? { assert OnBus(bus, InHand(s.writer)[0]); }
    }
  }

  lemma WireWrite(s: Session, bus: seq<BusFrame>)
    requires Enabled(s, bus, Write) && WireInv(s, bus)
    ensures WireInv(Next(s, bus, Write), bus)
  {
    hide Encode, Holds, ItemMessage, Messages, AfterDecode, AfterHandling, Queued, Dequeued,
         TcpBinaryReader.HelloReply, TcpBinaryReader.Rejection;
    MessagesAppend(bus, s.log, s.writer.item);
    HoldsPacket(s.wire, Messages(bus, s.log), ItemMessage(bus, s.writer.item));
  }

  lemma WireFail(s: Session, bus: seq<BusFrame>, part: nat)
    requires Enabled(s, bus, FailWrite(part)) && WireInv(s, bus)
    ensures WireInv(Next(s, bus, FailWrite(part)), bus)
  {
    hide Encode, Holds, ItemMessage, Messages, AfterDecode, AfterHandling, Queued, Dequeued,
         TcpBinaryReader.HelloReply, TcpBinaryReader.Rejection;
    HoldsPart(s.wire, Messages(bus, s.log), Encode(ItemMessage(bus, s.writer.item))[..part]);
  }

  lemma WireStep(s: Session, bus: seq<BusFrame>, l: Label)
    requires Enabled(s, bus, l) && WireInv(s, bus)
    ensures WireInv(Next(s, bus, l), bus + Emits(s, l))
  {
    hide WireInv, Encode, ItemMessage, DecodeFrom, DispatchBinary, TcpBinaryReader.HelloReply, TcpBinaryReader.Rejection,
         Dequeued;
    assert bus + [] == bus;
    if l.Write? {
      WireWrite(s, bus);
    } else if l.FailWrite? {
      WireFail(s, bus, l.part);
    } else {
      assert s.writer.Testing? ==> OnBus(bus, InHand(s.writer)[0]) by { WireInHand(s, bus); }
      WireGrows(s, bus, Next(s, bus, l), bus + Emits(s, l));
    }
  }

  lemma WireInHand(s: Session, bus: seq<BusFrame>)
    requires WireInv(s, bus)
    ensures AllOnBus(bus, InHand(s.writer))
  {
  }

  // ---------------------------------------------------------------- frames sent on request

  function SendFrames(rs: seq<Request>): seq<Request> {
    if rs == [] then []
    else
      var last := rs[|rs| - 1];
      SendFrames(rs[..|rs| - 1]) + if last.SendFrame? then [last] else []
  }

  function SendAcks(rs: seq<Response>): (acks: seq<Response>)
    ensures forall i :: 0 <= i < |acks| ==> acks[i].SendAck?
  {
    if rs == [] then []
    else
      var last := rs[|rs| - 1];
      SendAcks(rs[..|rs| - 1]) + if last.SendAck? then [last] else []
  }

  predicate Subsequence(a: seq<BusFrame>, b: seq<BusFrame>)
    decreases |b|
  {
    || a == []
    || (b != [] && a[|a| - 1] == b[|b| - 1] && Subsequence(a[..|a| - 1], b[..|b| - 1]))
    || (b != [] && Subsequence(a, b[..|b| - 1]))
  }

  lemma SubsequenceGrows(a: seq<BusFrame>, b: seq<BusFrame>, x: BusFrame)
    requires Subsequence(a, b)
    ensures Subsequence(a, b + [x]) && Subsequence(a + [x], b + [x])
  {
    assert (b + [x])[..|b|] == b && (a + [x])[..|a|] == a;
  }

  predicate Carries(call: TxCall, r: Request) {
    && r.SendFrame? && call.iface == r.iface && call.id == r.id && call.isFd == r.isFd
    && call.brs == r.brs && call.esi == r.esi && call.data == r.data
  }

  function PendingReply(s: Session): seq<Response> {
    if s.reader.Replying? then [s.reader.reply] else []
  }

  /** One TX-port call per SendFrame request, one SendAck per call with the call's outcome, and one Tx event on the
      bus per accepted call. */
  ghost predicate SendInv(s: Session, bus: seq<BusFrame>) {
    var frames, acks, accepted := SendFrames(s.dispatched), SendAcks(s.replies + PendingReply(s)), Accepted(s.calls);
    && |s.calls| == |frames| == |acks|
    && (forall i :: 0 <= i < |s.calls| ==> Carries(s.calls[i], frames[i]))
    && (forall i :: 0 <= i < |s.calls| ==> (acks[i].ok <==> s.calls[i].outcome.Sent?))
    && |s.emitted| == |accepted| && (forall i :: 0 <= i < |accepted| ==> MirrorsCall(s.emitted[i], accepted[i]))
    && Subsequence(s.emitted, bus)
  }

  lemma SendAppends(rs: seq<Request>, r: Request, ps: seq<Response>, p: Response, cs: seq<TxCall>, c: TxCall)
    ensures SendFrames(rs + [r]) == SendFrames(rs) + if r.SendFrame? then [r] else []
    ensures SendAcks(ps + [p]) == SendAcks(ps) + if p.SendAck? then [p] else []
    ensures Accepted(cs + [c]) == Accepted(cs) + if c.outcome.Sent? then [c] else []
  {
    assert (rs + [r])[..|rs|] == rs && (ps + [p])[..|ps|] == ps && (cs + [c])[..|cs|] == cs;
  }

  lemma SendHandlingFrame(s: Session, bus: seq<BusFrame>, ports: Oracle)
    requires s.reader.Handling? && s.reader.request.SendFrame? && SendInv(s, bus)
    ensures SendInv(AfterHandling(s, ports), bus + Emits(s, HandleRequest(ports)))
  {
    hide DispatchBinary, SendFrames, SendAcks, Accepted, Subsequence;
    var r := s.reader.request;
    var e := DispatchBinary(TcpBinary, s.subscribed, r, ports);
    SendFrameIsOneCall(TcpBinary, s.subscribed, r, ports);
    SendAppends(s.dispatched, r, s.replies, e.reply, s.calls, e.calls[0]);
    assert s.replies + [] == s.replies && bus + [] == bus && s.emitted + [] == s.emitted;
    if ports.tx.Sent? { SubsequenceGrows(s.emitted, bus, e.events[0]); assert e.events == [e.events[0]]; }
  }

  lemma SendHandlingOther(s: Session, bus: seq<BusFrame>, ports: Oracle)
    requires s.reader.Handling? && !s.reader.request.SendFrame? && SendInv(s, bus)
    ensures SendInv(AfterHandling(s, ports), bus + Emits(s, HandleRequest(ports)))
  {
    hide DispatchBinary, SendFrames, SendAcks, Accepted, Subsequence, Carries, MirrorsCall;
    var r := s.reader.request;
    var e := DispatchBinary(TcpBinary, s.subscribed, r, ports);
    NoCalls(s.subscribed, r, ports);
    SendAppends(s.dispatched, r, s.replies, e.reply, [], TxCall([], 0, false, false, false, [], Sent));
    assert s.replies + [] == s.replies && bus + [] == bus && s.calls + [] == s.calls && s.emitted + [] == s.emitted;
  }

  lemma NoCalls(subscribed: set<Str>, r: Request, ports: Oracle)
    requires !r.SendFrame?
    ensures var e := DispatchBinary(TcpBinary, subscribed, r, ports);
            e.calls == [] && e.events == [] && !e.reply.SendAck?
  {
    hide DispatchBinary, Utf8.Encode;
    RepliesAnswer(TcpBinary, subscribed, r, ports);
  }

  lemma SendStep(s: Session, bus: seq<BusFrame>, l: Label)
    requires Enabled(s, bus, l) && SendInv(s, bus)
    ensures SendInv(Next(s, bus, l), bus + Emits(s, l))
  {
    hide DecodeFrom, DispatchBinary, Encode, TcpBinaryReader.HelloReply, TcpBinaryReader.Rejection, ItemMessage,
         AfterHandling, SendFrames, SendAcks, Accepted, Subsequence, Carries, MirrorsCall;
    assert bus + [] == bus && s.replies + [] == s.replies;
    match l
    case HandleRequest(ports) =>
      if s.reader.request.SendFrame? { SendHandlingFrame(s, bus, ports); } else { SendHandlingOther(s, bus, ports); }
    case Greet => HelloReplyIsHelloAck(); NoAckAppends(s.replies, TcpBinaryReader.HelloReply());
    case Reject(shown) => RejectionIsError(shown); NoAckAppends(s.replies, TcpBinaryReader.Rejection(shown));
    case Send => assert (s.replies + [s.reader.reply]) + [] == s.replies + PendingReply(s);
    case Decode =>
    case _ =>
  }

  lemma NoAckAppends(ps: seq<Response>, p: Response)
    requires !p.SendAck?
    ensures SendAcks(ps + [p]) == SendAcks(ps) && SendAcks((ps + [p]) + []) == SendAcks(ps)
  {
    assert (ps + [p])[..|ps|] == ps && (ps + [p]) + [] == ps + [p];
  }
}
