/** When a frame event can be on the wire: the exact bound. */
module FrameTiming {
  import opened Bytes
  import opened Results
  import opened BinaryMessage
  import opened CodecTheorems
  import opened PacketStream
  import opened Service
  import opened Dispatch
  import opened SessionProtocol
  import opened SessionInvariants
  import opened SessionTheorems
  import Protocol
  import TcpBinaryReader
  import WireLayout
  import Utf8

  /** `m` is something the decoder can yield. */
  predicate Decodable(m: Message) {
    hide Payload, WellFormed, InRange;
    WellFormed(m) && InRange(m) && |Payload(m)| < U32_SPAN
  }

  predicate AllDecodable(rs: seq<Request>) { forall i :: 0 <= i < |rs| ==> Decodable(rs[i]) }

  /** Item `j` on the wire is the frame `ev`, after exactly `r` replies, in a run that handles exactly `rs`. */
  ghost predicate WritesAt(moves: seq<Move>, j: nat, rs: seq<Request>, r: nat, ev: BusFrame) {
    hide CanMove, Moved, Replies;
    && Legal(moves)
    && var s, bus := After(moves).session, After(moves).bus;
    && s.dispatched == rs && j < |s.log| && s.log[j].Event? && s.log[j].pos < |bus| && bus[s.log[j].pos] == ev
    && |Replies(s.log[..j])| == r
  }

  ghost predicate CanWrite(rs: seq<Request>, r: nat, ev: BusFrame) {
    hide WritesAt;
    exists moves, j :: WritesAt(moves, j, rs, r, ev)
  }

  /** Number of subscribe and unsubscribe requests that the first `r` replies acknowledge; the first is HelloAck. */
  function AcksAmong(rs: seq<Request>, r: nat): nat
    requires r <= |rs| + 1
  {
    if r == 0 then 0 else |Controls(rs[..r - 1])| - 1
  }

  /** The frame passes the set of a control request that is not older than the last one acknowledged. */
  ghost predicate WithinBound(rs: seq<Request>, r: nat, ev: BusFrame) {
    r <= |rs| + 1 && exists v :: AcksAmong(rs, r) <= v < |Controls(rs)| && ev.iface in Controls(rs)[v]
  }

  // ---------------------------------------------------------------- no run goes beyond the bound

  lemma {:induction false} ConsumedAreDecodable(received: seq<u8>, msgs: seq<Message>, buffer: seq<u8>)
    requires Consumes(FromClient, received, msgs, buffer)
    ensures forall i :: 0 <= i < |msgs| ==> Decodable(msgs[i])
    decreases |msgs|
  {
    hide DecodeFrom, Decodable;
    if msgs != [] {
      DecodedIsDecodable(received);
      ConsumedAreDecodable(received[DecodeFrom(FromClient, received).value.consumed..], msgs[1..], buffer);
      forall i | 0 < i < |msgs| ensures Decodable(msgs[i]) { assert msgs[i] == msgs[1..][i - 1]; }
    }
  }

  lemma DecodedIsDecodable(b: seq<u8>)
    requires DecodeFrom(FromClient, b).Ok? && DecodeFrom(FromClient, b).value.Complete?
    ensures Decodable(DecodeFrom(FromClient, b).value.msg)
  {
    hide DecodeFrom, Payload, WellFormed, InRange, KeptCutsClean, Encode;
    ReencodingIsRetraction(FromClient, b, []);
  }

  lemma DispatchedAreDecodable(s: Session)
    requires StreamInv(s)
    ensures AllDecodable(s.dispatched)
  {
    hide DecodeFrom, Decodable, Consumes;
    var msgs := s.hello + s.dispatched + Pending(s);
    ConsumedAreDecodable(s.received, msgs, s.buffer);
    forall i | 0 <= i < |s.dispatched| ensures Decodable(s.dispatched[i]) {
      assert s.dispatched[i] == msgs[|s.hello| + i];
    }
  }

  /** The acknowledgements among the replies written are those of the requests these replies answer. */
  lemma AcksAmongReplies(s: Session, j: nat)
    requires StreamInv(s) && ReplyInv(s) && QueueInv(s) && !TurnedAway(s) && j <= |s.log|
    ensures var r := |Replies(s.log[..j])|; r <= |s.dispatched| + 1 && AcksAmong(s.dispatched, r) == AcksBefore(s.log, j)
  {
    hide StreamInv, QueueInv, Replies, RightKind, TcpBinaryReader.HelloReply, Controls, AsSet;
    HelloReplyIsHelloAck();
    WireIsPrefix(s);
    AcksGrow(s.log, j, |s.log|);
    assert s.log[..|s.log|] == s.log;
    var written := Replies(s.log[..j]);
    var r := |written|;
    assert written == s.replies[..r];
    if r > 0 {
      var answered := s.dispatched[..r - 1];
      forall i | 0 <= i < |answered| ensures RightKind(TcpBinary, answered[i], written[i + 1]) {
        assert answered[i] == s.dispatched[i];
      }
      AnswersAck(answered, written);
    }
  }

  lemma NoControlsYet()
    ensures Controls([]) == [{}]
  {
  }

  lemma WrittenWithinBound(moves: seq<Move>, j: nat, rs: seq<Request>, r: nat, ev: BusFrame)
    requires WritesAt(moves, j, rs, r, ev)
    ensures AllDecodable(rs) && WithinBound(rs, r, ev)
  {
    hide StreamInv, ReplyInv, QueueInv, SetInv, DropInv, BusInv, WireInv, SendInv, Legal, After, Controls, Replies, AcksBefore,
         AcksAmong;
    RunInv(moves);
    var s := After(moves).session;
    DispatchedAreDecodable(s);
    assert Justified(rs, ev, AcksBefore(s.log, j));
    var v :| AcksBefore(s.log, j) <= v < |Controls(rs)| && ev.iface in Controls(rs)[v];
    if TurnedAway(s) {
      NoControlsYet();
      assert false;
    }
    AcksAmongReplies(s, j);
  }

  // ---------------------------------------------------------------- every point within it is reached

  ghost predicate Reachable(y: System) {
    exists moves :: Legal(moves) && After(moves) == y
  }

  lemma StartReachable()
    ensures Reachable(System(START, []))
  {
    hide CanMove, Moved;
    assert Legal([]) && After([]) == System(START, []);
  }

  lemma ReachMove(y: System, m: Move)
    requires Reachable(y) && CanMove(y, m)
    ensures Reachable(Moved(y, m))
  {
    hide CanMove, Moved;
    var moves :| Legal(moves) && After(moves) == y;
    assert (moves + [m])[..|moves|] == moves;
    assert After(moves + [m]) == Moved(y, m);
  }

  lemma ReachStep(s: Session, bus: seq<BusFrame>, l: Label)
    requires Reachable(System(s, bus)) && Enabled(s, bus, l) && Emits(s, l) == []
    ensures Reachable(System(Next(s, bus, l), bus))
  {
    hide Reachable, Next, Enabled, Emits;
    ReachMove(System(s, bus), Own(l));
    assert bus + [] == bus;
  }

  lemma DecodesBack(m: Message, rest: seq<u8>)
    requires Decodable(m) && IsRequest(m)
    ensures DecodeFrom(FromClient, Encode(m) + rest) == Ok(Complete(m, |Encode(m)|))
    ensures (Encode(m) + rest)[|Encode(m)|..] == rest && Encode(m) + rest != []
  {
    hide DecodeFrom, Encode, Payload, WellFormed, InRange, Canonical, KeptCutsClean;
    EncodingCharacterised(m, rest);
    IdentityIffInRange(m);
    WireLayout.HeaderLayout(m);
  }

  /** What the ports answer in these runs: every frame is refused, so that nothing is published. */
  const REFUSING := Oracle(Ok([]), Refused([]), 0)

  lemma NothingPublished(subscribed: set<Str>, r: Request)
    ensures DispatchBinary(TcpBinary, subscribed, r, REFUSING).events == []
  {
    hide DispatchBinary, RightKind;
    if r.SendFrame? { SendFrameIsOneCall(TcpBinary, subscribed, r, REFUSING); }
    else { RepliesAnswer(TcpBinary, subscribed, r, REFUSING); }
  }

  /** The reader has handled the first `m` requests and has the rest in its buffer; the writer is free. */
  ghost predicate Stage(s: Session, bus: seq<BusFrame>, rs: seq<Request>, m: nat)
    requires m <= |rs|
  {
    hide EncodeEach;
    && Reachable(System(s, bus)) && s.writer.Selecting? && s.cursor == |bus| && s.reader.TopOfLoop?
    && s.dispatched == rs[..m] && s.buffer == EncodeEach(rs[m..])
  }

  lemma ReachableInv(y: System)
    requires Reachable(y)
    ensures Inv(y)
  {
    hide Inv, Legal, After;
    var moves :| Legal(moves) && After(moves) == y;
    RunInv(moves);
  }

  lemma EmptyHello()
    ensures Decodable(ClientHello([], []))
  {
    hide Le;
  }

  lemma FirstStage(rs: seq<Request>) returns (s: Session)
    requires AllDecodable(rs)
    ensures Stage(s, [], rs, 0) && s.log == []
  {
    hide Reachable, DecodeFrom, Encode, EncodeEach, TcpBinaryReader.HelloReply, TcpBinaryReader.Rejection, Decodable, Dequeued,
         AfterHandling, ItemMessage;
    var hello: Request := ClientHello([], []);
    var bytes, ack := Encode(hello) + EncodeEach(rs), TcpBinaryReader.HelloReply();
    assert [] + [ack] == [ack] && [] + bytes == bytes;
    StartReachable();
    ReachStep(START, [], Greet);
    var s1 := START.(reader := AwaitHello, queue := [ack], replies := [ack]);
    EmptyHello();
    DecodesBack(hello, EncodeEach(rs));
    ReachStep(s1, [], Read(bytes));
    var s2 := s1.(reader := FirstDecode, buffer := bytes, received := bytes);
    ReachStep(s2, [], Decode);
    s := Next(s2, [], Decode);
    assert rs[0..] == rs && rs[..0] == [];
  }

  lemma HeadEncoded(rs: seq<Request>, m: nat)
    requires m < |rs|
    ensures EncodeEach(rs[m..]) == Encode(rs[m]) + EncodeEach(rs[m + 1..])
  {
    hide Encode;
    assert rs[m..][1..] == rs[m + 1..];
  }

  lemma HandleOne(s: Session, bus: seq<BusFrame>, rs: seq<Request>, m: nat) returns (t: Session)
    requires m < |rs| && AllDecodable(rs) && Stage(s, bus, rs, m)
    ensures Stage(t, bus, rs, m + 1) && t.log == s.log
  {
    hide Reachable, DecodeFrom, Encode, EncodeEach, TcpBinaryReader.HelloReply, TcpBinaryReader.Rejection, Decodable, Dequeued,
         ItemMessage, DispatchBinary;
    HeadEncoded(rs, m);
    DecodesBack(rs[m], EncodeEach(rs[m + 1..]));
    ReachStep(s, bus, Decode);
    var s1 := s.(reader := Handling(rs[m]), buffer := EncodeEach(rs[m + 1..]));
    NothingPublished(s.subscribed, rs[m]);
    ReachStep(s1, bus, HandleRequest(REFUSING));
    var s2 := Next(s1, bus, HandleRequest(REFUSING));
    ReachStep(s2, bus, Send);
    t := Next(s2, bus, Send);
    assert rs[..m + 1] == rs[..m] + [rs[m]];
  }

  lemma {:induction false} HandleMany(s: Session, bus: seq<BusFrame>, rs: seq<Request>, m: nat, n: nat) returns (t: Session)
    requires m <= n <= |rs| && AllDecodable(rs) && Stage(s, bus, rs, m)
    ensures Stage(t, bus, rs, n) && t.log == s.log
    decreases n - m
  {
    hide Stage, AllDecodable;
    t := s;
    if m < n {
      t := HandleOne(s, bus, rs, m);
      t := HandleMany(t, bus, rs, m + 1, n);
    }
  }

  lemma WriteReply(s: Session, bus: seq<BusFrame>, rs: seq<Request>, m: nat) returns (t: Session)
    requires m <= |rs| && Stage(s, bus, rs, m) && |Replies(s.log)| < m + 1
    ensures Stage(t, bus, rs, m) && |Replies(t.log)| == |Replies(s.log)| + 1
  {
    hide Reachable, Encode, EncodeEach, AfterDecode, AfterHandling, Queued, TcpBinaryReader.HelloReply, TcpBinaryReader.Rejection,
         Replies, Dequeued;
    QueueHolds(s, bus);
    ReachStep(s, bus, Take);
    var s1 := s.(writer := Writing(Reply(s.queue[0])), queue := Dequeued(s.queue));
    ReachStep(s1, bus, Write);
    t := Next(s1, bus, Write);
    LogAppends(s.log, Reply(s.queue[0]));
  }

  /** Replies that are not written yet are in the queue while the writer is free. */
  lemma QueueHolds(s: Session, bus: seq<BusFrame>)
    requires Reachable(System(s, bus)) && s.writer.Selecting? && s.reader.TopOfLoop?
    requires |Replies(s.log)| < |s.dispatched| + 1
    ensures s.queue != []
  {
    hide Reachable, StreamInv, SetInv, FreshInv, DropInv, BusInv, WireInv, SendInv, Replies, RightKind, TcpBinaryReader.HelloReply;
    ReachableInv(System(s, bus));
  }

  lemma {:induction false} WriteReplies(s: Session, bus: seq<BusFrame>, rs: seq<Request>, m: nat, r: nat) returns (t: Session)
    requires m <= |rs| && Stage(s, bus, rs, m) && |Replies(s.log)| <= r <= m + 1
    ensures Stage(t, bus, rs, m) && |Replies(t.log)| == r
    decreases r - |Replies(s.log)|
  {
    hide Stage, Replies;
    t := s;
    if |Replies(s.log)| < r {
      t := WriteReply(s, bus, rs, m);
      t := WriteReplies(t, bus, rs, m, r);
    }
  }

  lemma WriteFrame(s: Session, bus: seq<BusFrame>, rs: seq<Request>, m: nat, ev: BusFrame) returns (t: Session)
    requires m <= |rs| && Stage(s, bus, rs, m) && ev.iface in s.subscribed
    ensures Stage(t, bus + [ev], rs, m) && t.log == s.log + [Event(|bus|)]
  {
    hide Reachable, Encode, EncodeEach, ItemMessage, Dequeued, AfterDecode, AfterHandling, Queued, TcpBinaryReader.HelloReply,
         TcpBinaryReader.Rejection;
    FrameIsHeld(s, bus, ev);
    var s1 := s.(writer := Writing(Event(|bus|)), cursor := |bus| + 1);
    ReachStep(s1, bus + [ev], Write);
    t := Next(s1, bus + [ev], Write);
  }

  lemma FrameIsHeld(s: Session, bus: seq<BusFrame>, frame: BusFrame)
    requires Reachable(System(s, bus)) && s.writer.Selecting? && s.cursor == |bus| && frame.iface in s.subscribed
    ensures Reachable(System(s.(writer := Writing(Event(|bus|)), cursor := |bus| + 1), bus + [frame]))
  {
    hide Reachable, Encode, ItemMessage, Dequeued, AfterDecode, AfterHandling, Queued, TcpBinaryReader.HelloReply,
         TcpBinaryReader.Rejection;
    ReachMove(System(s, bus), Other(frame));
    ReachStep(s, bus + [frame], Receive);
    ReachStep(s.(writer := Testing(|bus|), cursor := |bus| + 1), bus + [frame], Test);
  }

  /** Some number of requests, at least `lo`, has just installed set number `v`. */
  lemma {:induction false} InstalledAt(rs: seq<Request>, lo: nat, v: nat) returns (n: nat)
    requires lo <= |rs| && |Controls(rs[..lo])| - 1 <= v < |Controls(rs)|
    ensures lo <= n <= |rs| && |Controls(rs[..n])| == v + 1
    decreases |rs| - lo
  {
    hide Controls;
    if |Controls(rs[..lo])| == v + 1 {
      n := lo;
    } else {
      assert rs[..|rs|] == rs;
      assert rs[..lo + 1] == rs[..lo] + [rs[lo]];
      ControlsAppends(rs[..lo], rs[lo]);
      n := InstalledAt(rs, lo + 1, v);
    }
  }

  lemma SetInForce(s: Session, bus: seq<BusFrame>, rs: seq<Request>, n: nat)
    requires n <= |rs| && Stage(s, bus, rs, n)
    ensures Controls(rs[..n]) <= Controls(rs) && s.subscribed == Controls(rs[..n])[|Controls(rs[..n])| - 1]
  {
    hide Reachable, StreamInv, ReplyInv, QueueInv, FreshInv, DropInv, BusInv, WireInv, SendInv, Controls, EncodeEach;
    ReachableInv(System(s, bus));
    ControlsPrefix(rs[..n], rs);
  }

  lemma BoundIsReached(rs: seq<Request>, r: nat, ev: BusFrame)
    requires AllDecodable(rs) && WithinBound(rs, r, ev)
    ensures CanWrite(rs, r, ev)
  {
    hide AllDecodable, Stage, Controls, Replies, CanWrite, AsSet;
    var v :| AcksAmong(rs, r) <= v < |Controls(rs)| && ev.iface in Controls(rs)[v];
    NoControlsYet();
    assert rs[..0] == [];
    var n := InstalledAt(rs, if r == 0 then 0 else r - 1, v);
    var s := FirstStage(rs);
    NoReplies();
    s := HandleMany(s, [], rs, 0, n);
    s := WriteReplies(s, [], rs, n, r);
    SetInForce(s, [], rs, n);
    var log := s.log;
    s := WriteFrame(s, [], rs, n, ev);
    assert [] + [ev] == [ev];
    s := HandleMany(s, [ev], rs, n, |rs|);
    StageCanWrite(s, rs, log, ev);
  }

  lemma NoReplies()
    ensures Replies([]) == []
  {
  }

  lemma StageCanWrite(s: Session, rs: seq<Request>, log: seq<Item>, ev: BusFrame)
    requires Stage(s, [ev], rs, |rs|) && s.log == log + [Event(0)]
    ensures CanWrite(rs, |Replies(log)|, ev)
  {
    hide Legal, After, Replies, EncodeEach;
    var moves :| Legal(moves) && After(moves) == System(s, [ev]);
    assert rs[..|rs|] == rs && s.log[..|log|] == log;
    assert WritesAt(moves, |log|, rs, |Replies(log)|, ev);
  }

  /** Exactly when: some run that handles exactly `rs` writes the frame `ev` after exactly `r` replies if and only if the
      decoder can yield these requests and the frame passes the set of a control request which is not older than the
      last one that those replies acknowledge. */
  lemma FrameTimingIsExact(rs: seq<Request>, r: nat, ev: BusFrame)
    ensures CanWrite(rs, r, ev) <==> AllDecodable(rs) && WithinBound(rs, r, ev)
  {
    hide AllDecodable, WithinBound, WritesAt;
    if CanWrite(rs, r, ev) {
      var moves, j :| WritesAt(moves, j, rs, r, ev);
      WrittenWithinBound(moves, j, rs, r, ev);
    }
    if AllDecodable(rs) && WithinBound(rs, r, ev) { BoundIsReached(rs, r, ev); }
  }

  // ---------------------------------------------------------------- what comes first

  /** Some Subscribe names the interface. */
  predicate Asked(rs: seq<Request>, iface: Str) {
    exists n :: 0 <= n < |rs| && rs[n].Subscribe? && iface in rs[n].wanted
  }

  lemma AskedIsInstalled(rs: seq<Request>, n: nat, iface: Str)
    requires n < |rs| && rs[n].Subscribe? && iface in rs[n].wanted
    ensures exists v :: 0 <= v < |Controls(rs)| && iface in Controls(rs)[v]
  {
    hide Controls;
    var v := |Controls(rs[..n])|;
    assert rs[..n + 1] == rs[..n] + [rs[n]];
    ControlsAppends(rs[..n], rs[n]);
    ControlsPrefix(rs[..n + 1], rs);
    assert iface in Controls(rs)[v];
  }

  /** A frame can be the first thing on the wire, before HelloAck and before the acknowledgement of the subscription that
      lets it through, if and only if some Subscribe request names its interface. */
  lemma FrameMayComeFirst(rs: seq<Request>, ev: BusFrame)
    ensures CanWrite(rs, 0, ev) <==> AllDecodable(rs) && Asked(rs, ev.iface)
  {
    hide AllDecodable, CanWrite, Controls;
    FrameTimingIsExact(rs, 0, ev);
    if WithinBound(rs, 0, ev) {
      var v :| 0 <= v < |Controls(rs)| && ev.iface in Controls(rs)[v];
      FirstSetIsEmpty(rs);
      LaterSubscribe(rs, v, ev.iface);
    }
    if Asked(rs, ev.iface) {
      var n :| 0 <= n < |rs| && rs[n].Subscribe? && ev.iface in rs[n].wanted;
      AskedIsInstalled(rs, n, ev.iface);
    }
  }

  lemma FirstSetIsEmpty(rs: seq<Request>)
    ensures Controls(rs)[0] == {}
  {
    hide Controls;
    NoControlsYet();
    ControlsPrefix([], rs);
  }

  /** In every run that handles exactly `rs`, whatever is written first is a reply (and so HelloAck). */
  ghost predicate ReplyAlwaysFirst(rs: seq<Request>) {
    hide CanMove, Moved;
    forall moves :: Legal(moves) && After(moves).session.dispatched == rs && After(moves).session.log != [] ==>
                      After(moves).session.log[0].Reply?
  }

  /** HelloAck is sure to come first if and only if no Subscribe request names any interface. */
  lemma HelloAckFirstIff(rs: seq<Request>)
    requires AllDecodable(rs)
    ensures ReplyAlwaysFirst(rs) <==> forall n :: 0 <= n < |rs| && rs[n].Subscribe? ==> rs[n].wanted == []
  {
    hide AllDecodable, CanWrite, Asked, Legal, After, WritesAt;
    if forall n :: 0 <= n < |rs| && rs[n].Subscribe? ==> rs[n].wanted == [] {
      forall moves | Legal(moves) && After(moves).session.dispatched == rs && After(moves).session.log != []
        ensures After(moves).session.log[0].Reply?
      {
        if After(moves).session.log[0].Event? {
          var ev := FirstFrame(moves);
          FrameMayComeFirst(rs, ev);
          NobodyAsked(rs, ev.iface);
        }
      }
    }
    if n :| 0 <= n < |rs| && rs[n].Subscribe? && rs[n].wanted != [] {
      var ev := Protocol.BusFrame(0, rs[n].wanted[0], Protocol.Rx, 0, false, []);
      SomebodyAsked(rs, n, ev.iface);
      FrameMayComeFirst(rs, ev);
      NotReplyFirst(rs, ev);
    }
  }

  lemma FirstFrame(moves: seq<Move>) returns (ev: BusFrame)
    requires Legal(moves) && After(moves).session.log != [] && After(moves).session.log[0].Event?
    ensures CanWrite(After(moves).session.dispatched, 0, ev)
  {
    hide StreamInv, ReplyInv, QueueInv, SetInv, DropInv, BusInv, WireInv, SendInv, Legal, After, Replies, Justified, AcksBefore;
    RunInv(moves);
    var s, bus := After(moves).session, After(moves).bus;
    ev := bus[s.log[0].pos];
    NoReplies();
    assert s.log[..0] == [];
    assert WritesAt(moves, 0, s.dispatched, 0, ev);
  }

  lemma NobodyAsked(rs: seq<Request>, iface: Str)
    requires forall n :: 0 <= n < |rs| && rs[n].Subscribe? ==> rs[n].wanted == []
    ensures !Asked(rs, iface)
  {
  }

  lemma SomebodyAsked(rs: seq<Request>, n: nat, iface: Str)
    requires n < |rs| && rs[n].Subscribe? && iface in rs[n].wanted
    ensures Asked(rs, iface)
  {
  }

  lemma NotReplyFirst(rs: seq<Request>, ev: BusFrame)
    requires CanWrite(rs, 0, ev)
    ensures !ReplyAlwaysFirst(rs)
  {
    hide Legal, After, Replies;
    var moves, j :| WritesAt(moves, j, rs, 0, ev);
    if j > 0 { NoReplyBefore(After(moves).session.log, j, 0); }
    assert After(moves).session.log[0].Event?;
  }

  lemma NoReplyBefore(log: seq<Item>, j: nat, i: nat)
    requires i < j <= |log| && Replies(log[..j]) == []
    ensures log[i].Event?
  {
    hide Replies, Acked;
    AcksGrow(log, i + 1, j);
    LogAppends(log[..i], log[i]);
    assert log[..i + 1] == log[..i] + [log[i]];
  }

  /** In every run that handles exactly `rs`, an acknowledgement naming the interface is on the wire before any frame of
      that interface. */
  ghost predicate AckAlwaysFirst(rs: seq<Request>, iface: Str) {
    hide WritesAt, AsSet;
    forall moves, j, r, ev :: WritesAt(moves, j, rs, r, ev) && ev.iface == iface ==> AckedBefore(moves, j, iface)
  }

  ghost predicate AckedBefore(moves: seq<Move>, j: nat, iface: Str) {
    hide CanMove, Moved, AsSet;
    && Legal(moves)
    && var log := After(moves).session.log;
    && j <= |log| && exists i :: 0 <= i < j && IsAck(log[i]) && iface in AckedSet(log[i])
  }

  /** That is never guaranteed for an interface a client can receive at all. */
  lemma AckFirstIff(rs: seq<Request>, iface: Str)
    requires AllDecodable(rs)
    ensures AckAlwaysFirst(rs, iface) <==> !Asked(rs, iface)
  {
    hide AllDecodable, Asked, WritesAt, AckedBefore;
    if Asked(rs, iface) {
      var early := Protocol.BusFrame(0, iface, Protocol.Rx, 0, false, []);
      FrameMayComeFirst(rs, early);
      var moves, j :| WritesAt(moves, j, rs, 0, early);
      NotAckedBefore(moves, j, rs, early);
      assert WritesAt(moves, j, rs, 0, early) && early.iface == iface;
    }
    if !AckAlwaysFirst(rs, iface) {
      var moves, j, r, ev :| WritesAt(moves, j, rs, r, ev) && ev.iface == iface && !AckedBefore(moves, j, iface);
      WrittenIsAsked(moves, j, rs, r, ev);
    }
  }

  lemma NotAckedBefore(moves: seq<Move>, j: nat, rs: seq<Request>, ev: BusFrame)
    requires WritesAt(moves, j, rs, 0, ev)
    ensures !AckedBefore(moves, j, ev.iface)
  {
    hide Legal, After, Replies, AsSet;
    var log := After(moves).session.log;
    forall i | 0 <= i < j ensures !IsAck(log[i]) { NoReplyBefore(log, j, i); }
  }

  lemma WrittenIsAsked(moves: seq<Move>, j: nat, rs: seq<Request>, r: nat, ev: BusFrame)
    requires WritesAt(moves, j, rs, r, ev)
    ensures Asked(rs, ev.iface)
  {
    hide WritesAt, Controls, AllDecodable, AcksAmong;
    WrittenWithinBound(moves, j, rs, r, ev);
    var v :| AcksAmong(rs, r) <= v < |Controls(rs)| && ev.iface in Controls(rs)[v];
    FirstSetIsEmpty(rs);
    LaterSubscribe(rs, v, ev.iface);
  }
}
