/** Decoding a byte stream that arrives in pieces. */
module PacketStream {
  import opened Bytes
  import opened Results
  import opened BinaryMessage
  import opened CodecTheorems

  /** The outcome of decoding a whole stream: the messages, the error that ended it (if any) and the bytes left over. */
  datatype Stream = Stream(msgs: seq<Message>, error: Option<DecodeError>, rest: seq<u8>)

  /** Decode everything at once: the reference that the incremental readers must meet. */
  function DecodeAll(side: Side, b: seq<u8>): Stream
    decreases |b|
  {
    hide DecodeFrom;
    match DecodeFrom(side, b)
    case Err(e) => Stream([], Some(e), b)
    case Ok(Incomplete) => Stream([], None, b)
    case Ok(Complete(m, n)) =>
      var tail := DecodeAll(side, b[n..]);
      Stream([m] + tail.msgs, tail.error, tail.rest)
  }

  /** Decoding and draining `msgs` one after the other takes `received` to `buffer`. */
  predicate Consumes(side: Side, received: seq<u8>, msgs: seq<Message>, buffer: seq<u8>)
    decreases |msgs|
  {
    hide DecodeFrom;
    if msgs == [] then received == buffer
    else
      var r := DecodeFrom(side, received);
      && r.Ok? && r.value.Complete? && r.value.msg == msgs[0]
      && Consumes(side, received[r.value.consumed..], msgs[1..], buffer)
  }

  /** Bytes are conserved and every message costs at least a header. */
  lemma {:induction false} ConsumesBytes(side: Side, received: seq<u8>, msgs: seq<Message>, buffer: seq<u8>)
    requires Consumes(side, received, msgs, buffer)
    ensures |received| >= HEADER_LEN * |msgs| + |buffer|
    ensures received[|received| - |buffer|..] == buffer
    ensures forall i :: 0 <= i < |msgs| ==> (IsRequest(msgs[i]) <==> side == FromClient)
    decreases |msgs|
  {
    hide DecodeFrom;
    if msgs != [] {
      var n := DecodeFrom(side, received).value.consumed;
      ConsumesBytes(side, received[n..], msgs[1..], buffer);
      forall i | 0 < i < |msgs| ensures msgs[i] == msgs[1..][i - 1] {}
    }
  }

  /** Later bytes change nothing that was already decoded. */
  lemma {:induction false} ConsumesMore(
    side: Side, received: seq<u8>, msgs: seq<Message>, buffer: seq<u8>, more: seq<u8>)
    requires Consumes(side, received, msgs, buffer)
    ensures Consumes(side, received + more, msgs, buffer + more)
    decreases |msgs|
  {
    hide DecodeFrom;
    if msgs != [] {
      var n := DecodeFrom(side, received).value.consumed;
      DecodeIsPrefixStable(side, received, more);
      ConsumesMore(side, received[n..], msgs[1..], buffer, more);
      assert (received + more)[n..] == received[n..] + more;
    }
  }

  /** One more decoded and drained message. */
  lemma {:induction false} ConsumesOneMore(side: Side, received: seq<u8>, msgs: seq<Message>, buffer: seq<u8>)
    requires Consumes(side, received, msgs, buffer)
    requires DecodeFrom(side, buffer).Ok? && DecodeFrom(side, buffer).value.Complete?
    ensures var d := DecodeFrom(side, buffer).value;
            Consumes(side, received, msgs + [d.msg], buffer[d.consumed..])
    decreases |msgs|
  {
    hide DecodeFrom;
    var d := DecodeFrom(side, buffer).value;
    if msgs == [] {
      assert (msgs + [d.msg])[1..] == [];
    } else {
      var n := DecodeFrom(side, received).value.consumed;
      ConsumesOneMore(side, received[n..], msgs[1..], buffer);
      assert (msgs + [d.msg])[1..] == msgs[1..] + [d.msg];
    }
  }

  lemma DecodeAllCons(side: Side, b: seq<u8>)
    requires DecodeFrom(side, b).Ok? && DecodeFrom(side, b).value.Complete?
    ensures var d := DecodeFrom(side, b).value; var tail := DecodeAll(side, b[d.consumed..]);
            DecodeAll(side, b) == Stream([d.msg] + tail.msgs, tail.error, tail.rest)
  {
    hide DecodeFrom;
  }

  /** What was consumed is the start of the whole-stream decoding; the buffer holds the rest of it. */
  lemma {:induction false} ConsumesIsDecodeAll(side: Side, received: seq<u8>, msgs: seq<Message>, buffer: seq<u8>)
    requires Consumes(side, received, msgs, buffer)
    ensures var tail := DecodeAll(side, buffer);
            DecodeAll(side, received) == Stream(msgs + tail.msgs, tail.error, tail.rest)
    decreases |msgs|
  {
    hide DecodeFrom, DecodeAll;
    var tail := DecodeAll(side, buffer);
    if msgs == [] {
      assert msgs + tail.msgs == tail.msgs;
    } else {
      var n := DecodeFrom(side, received).value.consumed;
      DecodeAllCons(side, received);
      ConsumesIsDecodeAll(side, received[n..], msgs[1..], buffer);
      assert [msgs[0]] + (msgs[1..] + tail.msgs) == msgs + tail.msgs;
    }
  }

  /** Whole-stream decoding stops only where nothing more can be decoded. */
  lemma {:induction false} DecodeAllConsumes(side: Side, b: seq<u8>)
    ensures var s := DecodeAll(side, b);
            Consumes(side, b, s.msgs, s.rest)
            && DecodeFrom(side, s.rest) == if s.error.Some? then Err(s.error.value) else Ok(Incomplete)
    decreases |b|
  {
    hide DecodeFrom;
    match DecodeFrom(side, b)
    case Ok(Complete(m, n)) =>
      DecodeAllConsumes(side, b[n..]);
      var tail := DecodeAll(side, b[n..]);
      assert ([m] + tail.msgs)[1..] == tail.msgs;
    case _ =>
  }

  // ---------------------------------------------------------------- streams that were encoded

  function EncodeEach(ms: seq<Message>): seq<u8> {
    hide Encode;
    if ms == [] then [] else Encode(ms[0]) + EncodeEach(ms[1..])
  }

  function CanonicalEach(ms: seq<Message>): (r: seq<Message>)
    ensures |r| == |ms|
    ensures forall i :: 0 <= i < |ms| ==> r[i] == Canonical(ms[i])
  {
    hide Canonical;
    if ms == [] then [] else [Canonical(ms[0])] + CanonicalEach(ms[1..])
  }

  ghost predicate SendableBy(side: Side, ms: seq<Message>) {
    forall i :: 0 <= i < |ms| ==> Encodable(ms[i]) && SideOf(TypeOf(ms[i])) == side
  }

  /** A stream of encodings, whatever follows it, is consumed as the canonical forms of what was encoded. */
  lemma {:induction false} EncodedStreamReads(side: Side, ms: seq<Message>, rest: seq<u8>)
    requires SendableBy(side, ms)
    ensures Consumes(side, EncodeEach(ms) + rest, CanonicalEach(ms), rest)
    decreases |ms|
  {
    hide DecodeFrom, Canonical, Encode, Encodable;
    if ms == [] {
      assert EncodeEach(ms) + rest == rest;
    } else {
      var tail := EncodeEach(ms[1..]) + rest;
      EncodedStreamReads(side, ms[1..], rest);
      HeadReads(ms[0], tail);
      assert EncodeEach(ms) + rest == Encode(ms[0]) + tail;
      assert (Encode(ms[0]) + tail)[|Encode(ms[0])|..] == tail;
      assert CanonicalEach(ms)[1..] == CanonicalEach(ms[1..]);
    }
  }

  lemma HeadReads(m: Message, rest: seq<u8>)
    requires Encodable(m)
    ensures DecodeFrom(SideOf(TypeOf(m)), Encode(m) + rest) == Ok(Complete(Canonical(m), |Encode(m)|))
  {
    hide DecodeFrom, Encode, Canonical;
    EncodingCharacterised(m, rest);
  }

  lemma {:induction false} EncodeEachAppends(ms: seq<Message>, m: Message)
    ensures EncodeEach(ms + [m]) == EncodeEach(ms) + Encode(m)
  {
    hide Encode;
    if ms == [] {
      assert EncodeEach([m][1..]) == [];
    } else {
      EncodeEachAppends(ms[1..], m);
      assert (ms + [m])[1..] == ms[1..] + [m];
    }
  }

  // ---------------------------------------------------------------- cuts

  function Joined(chunks: seq<seq<u8>>): seq<u8> {
    if chunks == [] then [] else chunks[0] + Joined(chunks[1..])
  }
}
