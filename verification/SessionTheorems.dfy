/** What holds of every run of a TCP binary session, whatever the interleaving. */
module SessionTheorems {
  import opened Bytes
  import opened Results
  import opened BinaryMessage
  import opened CodecTheorems
  import opened PacketStream
  import opened Service
  import opened Dispatch
  import opened SessionProtocol
  import opened BusAccount
  import opened SessionInvariants
  import SocketCanTx
  import TcpBinaryReader
  import Utf8

  ghost predicate Inv(y: System) {
    var s, bus := y.session, y.bus;
    && StreamInv(s) && ReplyInv(s) && QueueInv(s) && SetInv(s)
    && FreshInv(s, bus) && DropInv(s, bus) && BusInv(s, bus) && WireInv(s, bus) && SendInv(s, bus)
  }

  lemma InitInv()
    ensures Inv(System(START, []))
  {
    hide StreamInv, BusInv, WireInv, SendInv, AsSet, TcpBinaryReader.HelloReply, RightKind, Conveyed;
    InitStream();
    InitBus();
    InitWire();
    InitSend();
    InitQueue();
  }

  lemma InitQueue()
    ensures Replies([]) == [] && Conveyed([], [], [], [])
  {
  }

  lemma InitBus()
    ensures BusInv(START, [])
  {
  }

  lemma InitWire()
    ensures WireInv(START, [])
  {
    hide Encode, ItemMessage;
  }

  lemma InitSend()
    ensures SendInv(START, [])
  {
    hide Carries, MirrorsCall;
  }

  lemma InitStream()
    ensures StreamInv(START)
  {
    hide DecodeFrom;
  }

  lemma StepInv(s: Session, bus: seq<BusFrame>, l: Label)
    requires Inv(System(s, bus)) && Enabled(s, bus, l)
    ensures Inv(System(Next(s, bus, l), bus + Emits(s, l)))
  {
    hide StreamInv, ReplyInv, QueueInv, SetInv, FreshInv, DropInv, BusInv, WireInv, SendInv, Next, Enabled, Emits;
    StreamStep(s, bus, l);
    ReplyStep(s, bus, l);
    if IsReaderStep(l) { QueueReaderStep(s, bus, l); }
    else { QueueWriterStep(s, bus, l); }
    SetStep(s, bus, l);
    FreshStep(s, bus, l);
    DropStep(s, bus, l);
    BusStep(s, bus, l);
    WireStep(s, bus, l);
    SendStep(s, bus, l);
  }

  lemma OtherInv(s: Session, bus: seq<BusFrame>, frame: BusFrame)
    requires Inv(System(s, bus))
    ensures Inv(System(s, bus + [frame]))
  {
    hide StreamInv, ReplyInv, QueueInv, SetInv, FreshInv, DropInv, BusInv, WireInv, Subsequence, SendFrames, SendAcks, Accepted;
    FreshGrows(s, bus, s, bus + [frame]);
    DropGrows(s, bus, s, bus + [frame]);
    BusGrows(s, bus, s, bus + [frame]);
    WireGrows(s, bus, s, bus + [frame]);
    SubsequenceGrows(s.emitted, bus, frame);
  }

  /** The invariants hold after every legal sequence of moves. */
  lemma {:induction false} RunInv(moves: seq<Move>)
    requires Legal(moves)
    ensures Inv(After(moves))
  {
    hide Inv, Next, Enabled, Emits;
    if moves == [] {
      InitInv();
    } else {
      var before := After(moves[..|moves| - 1]);
      RunInv(moves[..|moves| - 1]);
      match moves[|moves| - 1]
      case Own(l) => StepInv(before.session, before.bus, l);
      case Other(frame) => OtherInv(before.session, before.bus, frame);
    }
  }

  // ---------------------------------------------------------------- no stale frames

  predicate IsAck(item: Item) { item.Reply? && (item.reply.Subscribed? || item.reply.Unsubscribed?) }

  function AckedSet(item: Item): set<Str>
    requires IsAck(item)
  {
    if item.reply.Subscribed? then AsSet(item.reply.ifaces) else {}
  }

  lemma {:induction false} AcksGrow(log: seq<Item>, i: nat, j: nat)
    requires i <= j <= |log|
    ensures Replies(log[..i]) <= Replies(log[..j]) && Acked(Replies(log[..i])) <= Acked(Replies(log[..j]))
    decreases j - i
  {
    hide Acked;
    if i < j {
      AcksGrow(log, i, j - 1);
      LogAppends(log[..j - 1], log[j - 1]);
      assert log[..j] == log[..j - 1] + [log[j - 1]];
    }
    AckedPrefix(Replies(log[..i]), Replies(log[..j]));
  }

  /** Item `i` on the wire acknowledges control request number `k`: it is the `k`-th acknowledgement, and `k` is a
      control request the reader has handled, which installed the set the acknowledgement names. */
  lemma AckNamesControl(s: Session, i: nat)
    requires StreamInv(s) && ReplyInv(s) && QueueInv(s) && i < |s.log| && IsAck(s.log[i])
    ensures var k := AcksBefore(s.log, i + 1);
            1 <= k < |Controls(s.dispatched)| && Controls(s.dispatched)[k] == AckedSet(s.log[i])
  {
    hide StreamInv, ReplyInv, QueueInv, Controls, Replies, AsSet;
    AckedOnWire(s);
    AcksGrow(s.log, i + 1, |s.log|);
    assert s.log[..|s.log|] == s.log && s.log[..i + 1] == s.log[..i] + [s.log[i]];
    LogAppends(s.log[..i], s.log[i]);
    var rs := Replies(s.log[..i]);
    assert (rs + [s.log[i].reply])[..|rs|] == rs;
    assert Acked(rs + [s.log[i].reply]) == Acked(rs) + [AckedSet(s.log[i])];
  }

  /** No stale frames: once the acknowledgement of control request number `k` is on the wire, every later frame event
      has its interface in the set of that or a later control request which the reader has handled. */
  lemma NoStaleFrames(moves: seq<Move>, i: nat, j: nat)
    requires Legal(moves)
    requires var s := After(moves).session; i < j < |s.log| && IsAck(s.log[i]) && s.log[j].Event?
    ensures var s := After(moves).session; var bus := After(moves).bus;
            var k := AcksBefore(s.log, i + 1); var sets := Controls(s.dispatched);
            && 1 <= k < |sets| && sets[k] == AckedSet(s.log[i])
            && s.log[j].pos < |bus| && (exists v :: k <= v < |sets| && bus[s.log[j].pos].iface in sets[v])
  {
    hide StreamInv, ReplyInv, QueueInv, SetInv, DropInv, BusInv, WireInv, SendInv, Controls, Replies, Acked, Legal, After;
    RunInv(moves);
    var s, bus := After(moves).session, After(moves).bus;
    AckNamesControl(s, i);
    AcksGrow(s.log, i + 1, j);
    assert Justified(s.dispatched, bus[s.log[j].pos], AcksBefore(s.log, j));
  }

  /** No frame withheld: if from control request number `k` on every set handled names an interface, then no frame of
      that interface is filtered out once the acknowledgement of request `k` is on the wire. */
  lemma NoFrameWithheld(moves: seq<Move>, k: nat, iface: Str, i: nat)
    requires Legal(moves)
    requires var s := After(moves).session;
             && (forall v :: k <= v < |Controls(s.dispatched)| ==> iface in Controls(s.dispatched)[v])
             && i < |s.dropped| && s.dropped[i].at <= |s.log| && AcksBefore(s.log, s.dropped[i].at) >= k
    ensures var s := After(moves).session; var bus := After(moves).bus;
            s.dropped[i].pos < |bus| && bus[s.dropped[i].pos].iface != iface
  {
    hide StreamInv, ReplyInv, QueueInv, SetInv, FreshInv, BusInv, WireInv, SendInv, Controls, AcksBefore, Legal, After;
    RunInv(moves);
    var s, bus := After(moves).session, After(moves).bus;
    var d := s.dropped[i];
    assert Withheld(s.dispatched, bus[d.pos], AcksBefore(s.log, d.at));
  }

  lemma {:induction false} ControlHasRequest(rs: seq<Request>, v: nat)
    requires 0 < v < |Controls(rs)|
    ensures exists n :: 0 <= n < |rs| && |Controls(rs[..n])| == v
                        && ((rs[n].Subscribe? && Controls(rs)[v] == AsSet(rs[n].wanted))
                            || (rs[n].Unsubscribe? && Controls(rs)[v] == {}))
    decreases |rs|
  {
    hide AsSet;
    var front := rs[..|rs| - 1];
    if v < |Controls(front)| {
      ControlHasRequest(front, v);
      var n :| 0 <= n < |front| && |Controls(front[..n])| == v
               && ((front[n].Subscribe? && Controls(front)[v] == AsSet(front[n].wanted))
                   || (front[n].Unsubscribe? && Controls(front)[v] == {}));
      assert rs[..n] == front[..n] && rs[n] == front[n];
    } else {
      assert rs[..|rs| - 1] == front;
    }
  }

  /** After `Unsubscribed` a frame event can follow only if a later Subscribe naming its interface was handled. */
  lemma NothingAfterUnsubscribed(moves: seq<Move>, i: nat, j: nat)
    requires Legal(moves)
    requires var s := After(moves).session;
             i < j < |s.log| && s.log[i] == Reply(Unsubscribed) && s.log[j].Event?
    ensures var s := After(moves).session; var bus := After(moves).bus;
            && s.log[j].pos < |bus|
            && (exists n :: 0 <= n < |s.dispatched| && |Controls(s.dispatched[..n])| > AcksBefore(s.log, i + 1)
                            && s.dispatched[n].Subscribe? && bus[s.log[j].pos].iface in s.dispatched[n].wanted)
  {
    hide Controls, Legal, After, AcksBefore;
    NoStaleFrames(moves, i, j);
    var s, bus := After(moves).session, After(moves).bus;
    var k, sets, iface := AcksBefore(s.log, i + 1), Controls(s.dispatched), bus[s.log[j].pos].iface;
    var v :| k <= v < |sets| && iface in sets[v];
    assert v != k;
    LaterSubscribe(s.dispatched, v, iface);
  }

  lemma LaterSubscribe(rs: seq<Request>, v: nat, iface: Str)
    requires 0 < v < |Controls(rs)| && iface in Controls(rs)[v]
    ensures exists n :: 0 <= n < |rs| && |Controls(rs[..n])| == v && rs[n].Subscribe? && iface in rs[n].wanted
  {
    hide Controls;
    ControlHasRequest(rs, v);
  }

  // ---------------------------------------------------------------- replies exactly once, in order

  /** The requests handled are a prefix of those in the bytes received, all of them when the reader waits for more. */
  lemma DispatchedAreReceived(moves: seq<Move>)
    requires Legal(moves)
    ensures var s := After(moves).session; var all := DecodeAll(FromClient, s.received);
            && s.hello + s.dispatched <= all.msgs
            && (s.reader.AwaitMore? ==> s.hello + s.dispatched == all.msgs && all.error == None && all.rest == s.buffer)
            && HEADER_LEN * |s.hello + s.dispatched| + |s.buffer| <= |s.received|
  {
    hide ReplyInv, QueueInv, SetInv, FreshInv, DropInv, BusInv, WireInv, SendInv, Consumes, DecodeFrom, Legal, After;
    RunInv(moves);
    var s := After(moves).session;
    var msgs := s.hello + s.dispatched + Pending(s);
    ConsumesIsDecodeAll(FromClient, s.received, msgs, s.buffer);
    ConsumesBytes(FromClient, s.received, msgs, s.buffer);
    if s.reader.AwaitMore? { assert msgs == s.hello + s.dispatched; assert msgs + [] == msgs; }
  }

  // ---------------------------------------------------------------- the session as a sequential program

  /** The answers of the ports, one per handled request. */
  function PortsOf(moves: seq<Move>): seq<Oracle> {
    if moves == [] then []
    else
      var last := moves[|moves| - 1];
      PortsOf(moves[..|moves| - 1]) + if last.Own? && last.step.HandleRequest? then [last.step.ports] else []
  }

  function TotalsOf(s: Session): Totals<Response> {
    Totals(s.subscribed, s.replies + PendingReply(s), s.calls, s.emitted)
  }

  /** All that the reader has done is what running through the handled requests one by one does. */
  ghost predicate TotalsInv(s: Session, os: seq<Oracle>) {
    && |os| == |s.dispatched|
    && if s.replies == [] then s.dispatched == [] && TotalsOf(s) == Totals({}, [], [], [])
       else if TurnedAway(s) then
         exists shown :: TotalsOf(s) == Totals({}, [TcpBinaryReader.HelloReply(), TcpBinaryReader.Rejection(shown)], [], [])
       else TotalsOf(s) == TcpBinaryReader.RunFrom(s.dispatched, os)
  }

  lemma TotalsGreet(s: Session, bus: seq<BusFrame>, os: seq<Oracle>)
    requires Enabled(s, bus, Greet) && ReplyInv(s) && TotalsInv(s, os)
    ensures TotalsInv(Next(s, bus, Greet), os)
  {
    hide TcpBinaryReader.HelloReply, TcpBinaryReader.Rejection, TcpBinaryReader.RunFrom, AfterDecode, AfterHandling, Dequeued,
         Encode, ItemMessage, RightKind;
    TcpBinaryReader.RunFromNothing();
    var hi := TcpBinaryReader.HelloReply();
    assert [] + [hi] == [hi] && [hi] + [] == [hi] && s.replies + PendingReply(s) == s.replies;
  }

  lemma TotalsReject(s: Session, bus: seq<BusFrame>, shown: Str, os: seq<Oracle>)
    requires Enabled(s, bus, Reject(shown)) && StreamInv(s) && ReplyInv(s) && TotalsInv(s, os)
    ensures TotalsInv(Next(s, bus, Reject(shown)), os)
  {
    hide TcpBinaryReader.HelloReply, TcpBinaryReader.Rejection, TcpBinaryReader.RunFrom, AfterDecode, AfterHandling, Dequeued,
         Encode, ItemMessage, RightKind, Consumes, DecodeFrom;
    RejectionIsError(shown);
    TcpBinaryReader.RunFromNothing();
    var hi, no := TcpBinaryReader.HelloReply(), TcpBinaryReader.Rejection(shown);
    assert s.replies == [hi] && [hi] + [] == [hi] && [hi] + [no] == [hi, no] && [hi, no] + [] == [hi, no];
    var t := Next(s, bus, Reject(shown));
    assert t.replies == [hi, no] && TurnedAway(t);
    assert TotalsOf(t) == Totals({}, [TcpBinaryReader.HelloReply(), TcpBinaryReader.Rejection(shown)], [], []);
  }

  lemma TotalsHandle(s: Session, bus: seq<BusFrame>, ports: Oracle, os: seq<Oracle>)
    requires Enabled(s, bus, HandleRequest(ports)) && StreamInv(s) && ReplyInv(s) && TotalsInv(s, os)
    ensures TotalsInv(Next(s, bus, HandleRequest(ports)), os + [ports])
  {
    hide TcpBinaryReader.HelloReply, TcpBinaryReader.Rejection, TcpBinaryReader.RunFrom, AfterDecode, Dequeued, Queued,
         Encode, ItemMessage, RightKind, Consumes, DecodeFrom, DispatchBinary;
    TcpBinaryReader.RunFromOneMore(s.dispatched, os, s.reader.request, ports);
    assert s.replies + [] == s.replies;
  }

  lemma TotalsStep(s: Session, bus: seq<BusFrame>, l: Label, os: seq<Oracle>)
    requires Enabled(s, bus, l) && StreamInv(s) && ReplyInv(s) && TotalsInv(s, os)
    ensures TotalsInv(Next(s, bus, l), os + if l.HandleRequest? then [l.ports] else [])
  {
    hide StreamInv, ReplyInv, TotalsInv, Enabled, Next;
    assert os + [] == os;
    match l
    case Greet => TotalsGreet(s, bus, os);
    case Reject(shown) => TotalsReject(s, bus, shown, os);
    case HandleRequest(ports) => TotalsHandle(s, bus, ports, os);
    case _ => TotalsKept(s, bus, l, os);
  }

  lemma TotalsKept(s: Session, bus: seq<BusFrame>, l: Label, os: seq<Oracle>)
    requires Enabled(s, bus, l) && StreamInv(s) && ReplyInv(s) && TotalsInv(s, os)
    requires !l.Greet? && !l.Reject? && !l.HandleRequest?
    ensures TotalsInv(Next(s, bus, l), os)
  {
    hide TcpBinaryReader.HelloReply, TcpBinaryReader.Rejection, TcpBinaryReader.RunFrom, AfterHandling, Dequeued,
         Encode, ItemMessage, RightKind, Consumes, DecodeFrom;
    assert s.replies + [] == s.replies;
    if l.Send? { assert (s.replies + [s.reader.reply]) + [] == s.replies + [s.reader.reply]; }
  }

  /** Whatever the interleaving, the reader's effects are those of the sequential program on the requests it handled
      with the answers the ports gave. */
  lemma {:induction false} ReaderIsSequential(moves: seq<Move>)
    requires Legal(moves)
    ensures TotalsInv(After(moves).session, PortsOf(moves))
    decreases |moves|
  {
    hide Inv, Next, Enabled, Emits, TotalsInv;
    if moves == [] {
      TotalsAtStart();
    } else {
      var front, m := moves[..|moves| - 1], moves[|moves| - 1];
      var before := After(front);
      ReaderIsSequential(front);
      match m
      case Own(l) =>
        RunInv(front);
        InvReader(before);
        TotalsStep(before.session, before.bus, l, PortsOf(front));
      case Other(frame) =>
        assert PortsOf(front) + [] == PortsOf(front);
    }
  }

  lemma InvReader(y: System)
    requires Inv(y)
    ensures StreamInv(y.session) && ReplyInv(y.session) && QueueInv(y.session)
  {
    hide StreamInv, ReplyInv, QueueInv;
  }

  lemma TotalsAtStart()
    ensures TotalsInv(START, [])
  {
    hide TcpBinaryReader.HelloReply, TcpBinaryReader.Rejection;
  }

  /** At every moment the replies on the wire are a prefix of HelloAck followed by one matching reply per handled
      request, in request order; when the writer ends because the queue is closed they are all of it. The replies are
      the very ones the sequential program gives, with the answers of the ports; and as long as the reader lives the
      writer ends only because a write failed. */
  lemma RepliesExactlyOnce(moves: seq<Move>)
    requires Legal(moves)
    ensures var s := After(moves).session; var written := Replies(s.log);
            && (written != [] ==> written[0] == TcpBinaryReader.HelloReply())
            && (TurnedAway(s) || |written| <= 1 + |s.dispatched|)
            && |PortsOf(moves)| == |s.dispatched|
            && (forall i :: 0 <= i < |s.dispatched| && i + 1 < |written| ==>
                  Answers(TcpBinary, s.dispatched[i], PortsOf(moves)[i], written[i + 1]))
            && (s.writer.Drained? ==> (TurnedAway(s) && |written| == 2 && written[1].Error?)
                                      || |written| == 1 + |s.dispatched|)
            && (WriterGone(s) && !s.reader.Done? ==> s.writer.Failed?)
            && (TurnedAway(s) || written <= TcpBinaryReader.RunFrom(s.dispatched, PortsOf(moves)).replies)
            && (s.writer.Drained? && !TurnedAway(s) ==>
                  written == TcpBinaryReader.RunFrom(s.dispatched, PortsOf(moves)).replies)
  {
    hide StreamInv, SetInv, FreshInv, DropInv, BusInv, WireInv, SendInv, Legal, After, RightKind, Answers, Replies, PortsOf,
         TcpBinaryReader.HelloReply, TcpBinaryReader.Rejection, TcpBinaryReader.RunFrom, Conveyed;
    RunInv(moves);
    ReaderIsSequential(moves);
    WireIsPrefix(After(moves).session);
    TcpBinaryReader.RunFromAnswers(After(moves).session.dispatched, PortsOf(moves));
  }

  // ---------------------------------------------------------------- frames

  /** Frame events on the wire are the frames at strictly increasing bus positions, and every frame published since
      the session joined is exactly one of: written, in the writer's hand, filtered out, lost, or still to come; the
      lost ones are as many as the session was told, and a frame is lost only if 1024 newer ones were published. */
  lemma FramesConserved(moves: seq<Move>)
    requires Legal(moves)
    ensures var s := After(moves).session; var bus := After(moves).bus;
            var written := Positions(s.log); var held := HeldPosition(s.writer);
            && Increasing(written + held) && Below(written + held, s.cursor)
            && Increasing(written) && (forall i :: 0 <= i < |written| ==> written[i] < s.cursor)
            && s.cursor <= |bus|
            && (forall i :: 0 <= i < |s.dropped| ==> s.dropped[i].pos < s.cursor)
            && (forall i, j :: 0 <= i < j < |s.dropped| ==> s.dropped[i].pos < s.dropped[j].pos)
            && Apart(written + held, s.dropped)
            && |Unlisted(written + held, DropPositions(s.dropped), s.cursor)| == s.lagged
            && (forall p :: p in Unlisted(written + held, DropPositions(s.dropped), s.cursor) ==> p + 1024 < |bus|)
            && |written| + |held| + |s.dropped| + s.lagged + (|bus| - s.cursor) == |bus|
  {
    hide StreamInv, ReplyInv, QueueInv, SetInv, FreshInv, DropInv, WireInv, SendInv, Legal, After, Positions, HeldPosition, Unlisted, DropPositions;
    RunInv(moves);
    var s := After(moves).session;
    var written, taken := Positions(s.log), Positions(s.log) + HeldPosition(s.writer);
    LostAreLagged(written, HeldPosition(s.writer), s.dropped, s.lagged, s.cursor);
    forall i | 0 <= i < |written| ensures written[i] == taken[i] {}
  }

  // ---------------------------------------------------------------- the wire read back

  /** Everything written, or begun to be written, is encodable. */
  ghost predicate WritesEncodable(y: System) {
    var items := y.session.log + InHand(y.session.writer);
    AllOnBus(y.bus, items) ==> SendableBy(FromDaemon, Messages(y.bus, items))
  }

  /** A client that decodes the daemon's bytes gets exactly the canonical forms of what the writer wrote, in order;
      what remains is at most the start of one packet whose write failed. */
  lemma WireReadsBack(moves: seq<Move>)
    requires Legal(moves)
    requires WritesEncodable(After(moves))
    ensures var s := After(moves).session; var bus := After(moves).bus;
            && AllOnBus(bus, s.log) && (s.writer.Failed? ==> OnBus(bus, s.writer.item))
            && DecodeAll(FromDaemon, s.wire) == Stream(CanonicalEach(Messages(bus, s.log)), None, Tail(s, bus))
  {
    hide StreamInv, ReplyInv, QueueInv, SetInv, FreshInv, DropInv, BusInv, SendInv, Legal, After, DecodeFrom, Encode, EncodeEach,
         CanonicalEach, Encodable, ItemMessage, Consumes, Messages;
    RunInv(moves);
    var s, bus := After(moves).session, After(moves).bus;
    var items := s.log + InHand(s.writer);
    forall i | 0 <= i < |items| ensures OnBus(bus, items[i]) {
      if i >= |s.log| { assert items[i] == InHand(s.writer)[i - |s.log|]; }
    }
    var ms, tail := Messages(bus, s.log), Tail(s, bus);
    forall i | 0 <= i < |ms| ensures Encodable(ms[i]) && SideOf(TypeOf(ms[i])) == FromDaemon {
      assert ms[i] == Messages(bus, items)[i];
    }
    EncodedStreamReads(FromDaemon, ms, tail);
    ConsumesIsDecodeAll(FromDaemon, s.wire, CanonicalEach(ms), tail);
    assert DecodeFrom(FromDaemon, tail) == Ok(Incomplete) by {
      if s.writer.Failed? {
        var m := ItemMessage(bus, s.writer.item);
        assert m == Messages(bus, items)[|s.log|];
        EncodablePayload(m);
        PacketPrefixIsIncomplete(FromDaemon, m, s.writer.part);
      } else {
        NothingIsIncomplete();
      }
    }
    assert CanonicalEach(ms) + [] == CanonicalEach(ms);
  }

  function OnlyEvents(ms: seq<Message>): seq<Message> {
    if ms == [] then []
    else
      var last := ms[|ms| - 1];
      OnlyEvents(ms[..|ms| - 1]) + if last.FrameEvent? then [last] else []
  }

  /** The message is the frame event of the bus frame: same time, id and kind, its direction as "rx" or "tx" in ASCII, and
      as much of the interface name and of the data as the format can hold. */
  predicate ShowsFrame(m: Message, frame: BusFrame) {
    && m.FrameEvent? && m.tsMs == frame.tsMs && m.id == frame.id && m.isFd == frame.isFd
    && m.dir == (if frame.dir.Rx? then [0x72, 0x78] else [0x74, 0x78])
    && m.iface == Cut(frame.iface) && m.data == CutData(frame.data)
  }

  lemma FrameIsShown(frame: BusFrame)
    ensures ShowsFrame(Canonical(FrameToBinary(frame)), frame)
  {
    hide FrameToBinary;
    FrameSays(frame);
    var dir: Str := if frame.dir.Rx? then [0x72, 0x78] else [0x74, 0x78];
    assert |dir| == 2 && Cut(dir) == dir;
  }

  lemma {:induction false} EventsAreFrames(bus: seq<BusFrame>, log: seq<Item>)
    requires AllOnBus(bus, log)
    requires forall i :: 0 <= i < |Replies(log)| ==> !Replies(log)[i].FrameEvent?
    ensures var events, ps := OnlyEvents(CanonicalEach(Messages(bus, log))), Positions(log);
            |events| == |ps| && forall i :: 0 <= i < |ps| ==> ps[i] < |bus| && ShowsFrame(events[i], bus[ps[i]])
    decreases |log|
  {
    hide Canonical, CanonicalEach, ItemMessage, Messages, ShowsFrame;
    if log == [] {
      assert Messages(bus, log) == [] && CanonicalEach([]) == [];
    } else {
      var front, last := log[..|log| - 1], log[|log| - 1];
      assert log == front + [last];
      LogAppends(front, last);
      forall i | 0 <= i < |Replies(front)| ensures !Replies(front)[i].FrameEvent? {
        assert Replies(front)[i] == Replies(log)[i];
      }
      EventsAreFrames(bus, front);
      var m := ItemMessage(bus, last);
      var cs := CanonicalEach(Messages(bus, log));
      assert cs[..|cs| - 1] == CanonicalEach(Messages(bus, front)) && cs[|cs| - 1] == Canonical(m);
      CanonicalKind(m);
      ItemKind(bus, last);
      if last.Reply? {
        assert Replies(log)[|Replies(front)|] == last.reply;
      } else {
        FrameIsShown(bus[last.pos]);
        assert OnBus(bus, last);
        EventMessage(bus, last.pos);
      }
    }
  }

  lemma EventMessage(bus: seq<BusFrame>, pos: nat)
    requires pos < |bus|
    ensures ItemMessage(bus, Event(pos)) == FrameToBinary(bus[pos])
  {
  }

  /** The frame events a client decodes are, one by one and in order, the bus frames that were let through. */
  lemma WireShowsFrames(moves: seq<Move>)
    requires Legal(moves)
    requires WritesEncodable(After(moves))
    ensures var s, bus := After(moves).session, After(moves).bus;
            var events, ps := OnlyEvents(DecodeAll(FromDaemon, s.wire).msgs), Positions(s.log);
            && |events| == |ps| && Increasing(ps)
            && forall i :: 0 <= i < |ps| ==> ps[i] < |bus| && ShowsFrame(events[i], bus[ps[i]])
  {
    hide StreamInv, ReplyInv, QueueInv, SetInv, FreshInv, DropInv, BusInv, WireInv, SendInv, Legal, After, Replies, Positions,
         OnlyEvents, DecodeAll, Messages, CanonicalEach, WritesEncodable, ShowsFrame;
    RunInv(moves);
    WireReadsBack(moves);
    FramesConserved(moves);
    var s := After(moves).session;
    ReplyKinds(s);
    WireIsPrefix(s);
    EventsAreFrames(After(moves).bus, s.log);
  }

  lemma EncodablePayload(m: Message)
    requires Encodable(m)
    ensures |Payload(m)| < U32_SPAN
  {
  }

  lemma NothingIsIncomplete()
    ensures DecodeFrom(FromDaemon, []) == Ok(Incomplete)
  {
  }

  // ---------------------------------------------------------------- send_frame

  lemma {:induction false} SendAcksPrefix(a: seq<Response>, b: seq<Response>)
    requires a <= b
    ensures SendAcks(a) <= SendAcks(b)
    decreases |b|
  {
    if |a| < |b| {
      SendAcksPrefix(a, b[..|b| - 1]);
    } else {
      assert a == b;
    }
  }

  /** The `i`-th SendAck on the wire answers the `i`-th SendFrame request: one TX-port call was made for it, with the
      request's fields, and the ack says what the port said. The Tx events published are those of the accepted calls,
      one each, and they are on the bus. With the SocketCAN port an ok ack means the frame was a sendable one. */
  lemma SendFrameIntegrity(moves: seq<Move>, i: nat)
    requires Legal(moves) && i < |SendAcks(Replies(After(moves).session.log))|
    ensures var s := After(moves).session; var bus := After(moves).bus;
            var ack := SendAcks(Replies(s.log))[i]; var requests := SendFrames(s.dispatched);
            && |s.calls| == |requests| > i && Carries(s.calls[i], requests[i])
            && (ack.ok <==> s.calls[i].outcome.Sent?)
            && |s.emitted| == |Accepted(s.calls)|
            && (forall n :: 0 <= n < |s.emitted| ==> MirrorsCall(s.emitted[n], Accepted(s.calls)[n]))
            && Subsequence(s.emitted, bus)
            && (ack.ok && SocketCanTx.AnsweredByPort(s.calls[i]) ==>
                  var r := requests[i]; SocketCanTx.Sendable(r.id, r.isFd, r.brs, r.esi, r.data))
  {
    hide StreamInv, ReplyInv, QueueInv, SetInv, FreshInv, DropInv, BusInv, WireInv, Legal, After, Replies, SendAcks, SendFrames,
         Accepted, Subsequence, SocketCanTx.AnsweredByPort;
    RunInv(moves);
    var s := After(moves).session;
    WireIsPrefix(s);
    SendAcksPrefix(Replies(s.log), s.replies + PendingReply(s));
    if s.calls[i].outcome.Sent? && SocketCanTx.AnsweredByPort(s.calls[i]) {
      SocketCanTx.PortAcceptsSendable(s.calls[i]);
    }
  }

  // ---------------------------------------------------------------- client to client

  function WithoutEvents(ms: seq<Message>): seq<Message> {
    if ms == [] then []
    else
      var last := ms[|ms| - 1];
      WithoutEvents(ms[..|ms| - 1]) + if last.FrameEvent? then [] else [last]
  }

  lemma {:induction false} EventsDropOut(bus: seq<BusFrame>, log: seq<Item>)
    requires AllOnBus(bus, log)
    requires forall i :: 0 <= i < |Replies(log)| ==> !Replies(log)[i].FrameEvent?
    ensures WithoutEvents(CanonicalEach(Messages(bus, log))) == CanonicalEach(Replies(log))
    decreases |log|
  {
    hide Canonical, CanonicalEach, ItemMessage, Messages;
    if log == [] {
      assert Messages(bus, log) == [] && CanonicalEach([]) == [];
    } else {
      var front, last := log[..|log| - 1], log[|log| - 1];
      assert log == front + [last];
      LogAppends(front, last);
      forall i | 0 <= i < |Replies(front)| ensures !Replies(front)[i].FrameEvent? {
        assert Replies(front)[i] == Replies(log)[i];
      }
      EventsDropOut(bus, front);
      var m := ItemMessage(bus, last);
      var cs := CanonicalEach(Messages(bus, log));
      assert cs[..|cs| - 1] == CanonicalEach(Messages(bus, front)) && cs[|cs| - 1] == Canonical(m);
      CanonicalKind(m);
      ItemKind(bus, last);
      if last.Reply? {
        assert Replies(log)[|Replies(front)|] == last.reply;
        assert CanonicalEach(Replies(log)) == CanonicalEach(Replies(front)) + [Canonical(last.reply)];
      }
    }
  }

  lemma CanonicalKind(m: Message)
    ensures Canonical(m).FrameEvent? <==> m.FrameEvent?
  {
  }

  lemma ItemKind(bus: seq<BusFrame>, item: Item)
    requires OnBus(bus, item)
    ensures if item.Reply? then ItemMessage(bus, item) == item.reply else ItemMessage(bus, item).FrameEvent?
  {
    hide Utf8.Encode;
  }

  lemma ReplyKinds(s: Session)
    requires StreamInv(s) && ReplyInv(s)
    ensures forall i :: 0 <= i < |s.replies| ==> !s.replies[i].FrameEvent?
  {
    hide StreamInv, TcpBinaryReader.HelloReply, Utf8.Encode;
    HelloReplyIsHelloAck();
    forall i | 0 < i < |s.replies| ensures !s.replies[i].FrameEvent? {
      if !TurnedAway(s) { assert RightKind(TcpBinary, s.dispatched[i - 1], s.replies[i]); }
    }
  }

  ghost predicate AtRest(s: Session) { s.reader.AwaitMore? && s.writer.Selecting? && s.queue == [] }

  lemma RestingReplies(s: Session)
    requires StreamInv(s) && ReplyInv(s) && QueueInv(s) && AtRest(s)
    ensures Replies(s.log) == s.replies && |s.replies| == 1 + |s.dispatched| && s.replies[0] == TcpBinaryReader.HelloReply()
    ensures |s.hello| == 1 && s.hello[0].ClientHello? && !TurnedAway(s)
    ensures forall i :: 0 <= i < |s.dispatched| ==> RightKind(TcpBinary, s.dispatched[i], s.replies[i + 1])
  {
    hide Consumes, DecodeFrom, RightKind, Replies, TcpBinaryReader.HelloReply, Conveyed;
    ConveyedPrefix(Replies(s.log), HeldReply(s.writer), s.queue, s.replies);
  }

  lemma RestingTotals(s: Session, os: seq<Oracle>)
    requires TotalsInv(s, os) && AtRest(s) && s.replies != [] && !TurnedAway(s)
    ensures |os| == |s.dispatched| && s.replies == TcpBinaryReader.RunFrom(s.dispatched, os).replies
  {
    hide TcpBinaryReader.RunFrom, TcpBinaryReader.HelloReply, TcpBinaryReader.Rejection;
    assert s.replies + [] == s.replies;
  }

  /** What a client decodes, frame events aside, is HelloAck and then one reply for each request in the bytes it sent, in
      order, each in canonical form and each saying what the ports answered. */
  ghost predicate AnsweredInFull(s: Session, os: seq<Oracle>) {
    hide DecodeAll, DecodeFrom, Answers, CanonicalEach, WithoutEvents, TcpBinaryReader.HelloReply, TcpBinaryReader.RunFrom;
    var asked := DecodeAll(FromClient, s.received).msgs;
    var told := WithoutEvents(DecodeAll(FromDaemon, s.wire).msgs);
    && asked == s.hello + s.dispatched && |s.hello| == 1 && s.hello[0].ClientHello? && |os| == |s.dispatched|
    && |told| == |asked| == |s.replies| && told == CanonicalEach(s.replies)
    && s.replies[0] == TcpBinaryReader.HelloReply()
    && s.replies == TcpBinaryReader.RunFrom(s.dispatched, os).replies
    && (forall i :: 0 <= i < |s.dispatched| ==> Answers(TcpBinary, s.dispatched[i], os[i], s.replies[i + 1]))
  }

  /** From bytes to bytes, whenever the session is at rest. */
  lemma BytesInBytesOut(moves: seq<Move>)
    requires Legal(moves)
    requires AtRest(After(moves).session)
    requires WritesEncodable(After(moves))
    ensures AnsweredInFull(After(moves).session, PortsOf(moves))
  {
    hide StreamInv, ReplyInv, QueueInv, SetInv, FreshInv, DropInv, BusInv, WireInv, SendInv, TotalsInv, TurnedAway, Legal, After,
         Answers, RightKind, Replies, PortsOf, TcpBinaryReader.HelloReply, TcpBinaryReader.RunFrom, Consumes, DecodeFrom, DecodeAll,
         Messages, CanonicalEach, Encodable, WritesEncodable, WithoutEvents;
    RunInv(moves);
    WireReadsBack(moves);
    DispatchedAreReceived(moves);
    ReaderIsSequential(moves);
    var s, bus := After(moves).session, After(moves).bus;
    RestingReplies(s);
    RestingTotals(s, PortsOf(moves));
    ReplyKinds(s);
    EventsDropOut(bus, s.log);
    TcpBinaryReader.RunFromAnswers(s.dispatched, PortsOf(moves));
  }
}
