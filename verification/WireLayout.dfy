/** Where every byte stands: what an encoder writes, and what a decoder makes of any bytes at all. */
module WireLayout {
  import opened Bytes
  import opened Results
  import opened BinaryMessage
  import Utf8

  // ---------------------------------------------------------------- the header

  /** The number the protocol gives to each message. */
  function WireCode(m: Message): u8 {
    match m
    case HelloAck(_, _, _) => 1
    case Pong(_) => 2
    case Ifaces(_) => 3
    case Subscribed(_) => 4
    case Unsubscribed => 5
    case SendAck(_, _) => 6
    case FrameEvent(_, _, _, _, _, _) => 7
    case Error(_) => 8
    case ClientHello(_, _) => 101
    case Ping(_) => 102
    case ListIfaces => 103
    case Subscribe(_) => 104
    case Unsubscribe => 105
    case SendFrame(_, _, _, _, _, _) => 106
  }

  /** The 12 header bytes of every packet, one by one, and the payload after them. */
  lemma HeaderLayout(m: Message)
    ensures var p, n := Encode(m), |Payload(m)|;
            && |p| == 12 + n && p[12..] == Payload(m)
            && p[0] == 0x43 && p[1] == 0x42 && p[2] == 0x44 && p[3] == 0x31
            && p[4] == WireCode(m) && p[5] == 0 && p[6] == 0 && p[7] == 0
            && p[8] == n % 256 && p[9] == n / 0x100 % 256 && p[10] == n / 0x1_0000 % 256 && p[11] == n / 0x100_0000 % 256
  {
    hide Payload, Le, TypeCode;
    var c, n, p := TypeCode(TypeOf(m)), |Payload(m)|, Encode(m);
    CodeIs(m);
    TwoBytes(c);
    TwoBytes(0);
    WrappedFour(n);
    assert p[4..6] == Le(c, 2) && p[6..8] == Le(0, 2) && p[8..12] == Le(n % U32_SPAN, 4) && p[12..] == Payload(m);
    forall i | 0 <= i < 2 ensures p[4 + i] == p[4..6][i] && p[6 + i] == p[6..8][i] {}
    forall i | 0 <= i < 4 ensures p[8 + i] == p[8..12][i] {}
  }

  lemma CodeIs(m: Message)
    ensures TypeCode(TypeOf(m)) == WireCode(m)
  {
  }

  lemma WrappedTwo(v: nat)
    ensures Le(v % U16_SPAN, 2)[0] == v % 256 && Le(v % U16_SPAN, 2)[1] == v / 256 % 256
  {
    hide Le, Pow256;
    Spans();
    LeWraps(v, 2);
    TwoBytes(v);
  }

  lemma WrappedFour(v: nat)
    ensures var b := Le(v % U32_SPAN, 4);
            b[0] == v % 256 && b[1] == v / 0x100 % 256 && b[2] == v / 0x1_0000 % 256 && b[3] == v / 0x100_0000 % 256
  {
    hide Le, Pow256;
    Spans();
    LeWraps(v, 4);
    FourBytes(v);
  }

  lemma TwoBytes(v: nat)
    ensures Le(v, 2)[0] == v % 256 && Le(v, 2)[1] == v / 0x100 % 256
  {
    hide Le, Pow256;
    LeByte(v, 2, 0);
    LeByte(v, 2, 1);
    Weights();
  }

  lemma FourBytes(v: nat)
    ensures Le(v, 4)[0] == v % 256 && Le(v, 4)[1] == v / 0x100 % 256
    ensures Le(v, 4)[2] == v / 0x1_0000 % 256 && Le(v, 4)[3] == v / 0x100_0000 % 256
  {
    hide Le, Pow256;
    LeByte(v, 4, 0);
    LeByte(v, 4, 1);
    LeByte(v, 4, 2);
    LeByte(v, 4, 3);
    Weights();
  }

  lemma Weights()
    ensures Pow256(0) == 1 && Pow256(1) == 0x100 && Pow256(2) == 0x1_0000 && Pow256(3) == 0x100_0000
  {
    assert Pow256(1) == 256 * Pow256(0);
    assert Pow256(2) == 256 * Pow256(1);
    assert Pow256(3) == 256 * Pow256(2);
  }

  // ---------------------------------------------------------------- what the encoder writes

  /** The stored length of a string. */
  function Kept(s: Str): (n: nat)
    ensures n <= |s|
  {
    if |s| <= 65535 then |s| else 65535
  }

  predicate StringStands(p: seq<u8>, k: nat, s: Str) {
    && k + 2 + Kept(s) <= |p|
    && p[k] == Kept(s) % 256 && p[k + 1] == Kept(s) / 256 && p[k + 2..k + 2 + Kept(s)] == s[..Kept(s)]
  }

  predicate UintStands(p: seq<u8>, k: nat, w: nat, v: nat) {
    k + w <= |p| && forall i :: 0 <= i < w ==> p[k + i] == v / Pow256(i) % 256
  }

  predicate FlagStands(p: seq<u8>, k: nat, b: bool) { k < |p| && p[k] == if b then 1 else 0 }

  /** Two bytes of length, wrapping, and then all the data up to the end. */
  predicate DataStands(p: seq<u8>, k: nat, d: seq<u8>) {
    |p| == k + 2 + |d| && p[k] == |d| % 256 && p[k + 1] == |d| / 256 % 256 && p[k + 2..] == d
  }

  /** Bytes taken by the first `i` strings. */
  function OffsetOf(ss: seq<Str>, i: nat): nat
    requires i <= |ss|
  {
    if i == 0 then 0 else OffsetOf(ss, i - 1) + 2 + Kept(ss[i - 1])
  }

  /** Two bytes of count, wrapping, and then all the strings up to the end. */
  predicate ListStands(p: seq<u8>, k: nat, ss: seq<Str>) {
    && |p| == k + 2 + OffsetOf(ss, |ss|) && p[k] == |ss| % 256 && p[k + 1] == |ss| / 256 % 256
    && forall i :: 0 <= i < |ss| ==> StringStands(p, k + 2 + OffsetOf(ss, i), ss[i])
  }

  lemma PutString(a: seq<u8>, s: Str, b: seq<u8>)
    ensures |StringBytes(s)| == 2 + Kept(s) && StringStands(a + (StringBytes(s) + b), |a|, s)
  {
    hide Le;
    TwoBytes(Stored(s));
    var p := a + (StringBytes(s) + b);
    assert p[|a| + 2..|a| + 2 + Kept(s)] == s[..Kept(s)];
  }

  lemma PutUint(a: seq<u8>, v: nat, w: nat, b: seq<u8>)
    ensures UintStands(a + (Le(v, w) + b), |a|, w, v)
  {
    hide Le, Pow256;
    forall i | 0 <= i < w ensures (a + (Le(v, w) + b))[|a| + i] == v / Pow256(i) % 256 { LeByte(v, w, i); }
  }

  lemma PutData(a: seq<u8>, d: seq<u8>)
    ensures DataStands(a + DataBytes(d), |a|, d)
  {
    hide Le;
    WrappedTwo(|d|);
    assert (a + DataBytes(d))[|a| + 2..] == d;
  }

  lemma {:induction false} StringsStand(ss: seq<Str>, i: nat)
    requires i <= |ss|
    ensures OffsetOf(ss, i) + |StringsBytes(ss[i..])| == |StringsBytes(ss)|
    ensures StringsBytes(ss)[OffsetOf(ss, i)..] == StringsBytes(ss[i..])
    decreases i
  {
    hide StringBytes;
    if i == 0 {
      assert ss[0..] == ss;
    } else {
      StringsStand(ss, i - 1);
      var all, k := StringsBytes(ss), OffsetOf(ss, i - 1);
      PutString([], ss[i - 1], []);
      assert ss[i - 1..][1..] == ss[i..];
      assert StringsBytes(ss[i - 1..]) == StringBytes(ss[i - 1]) + StringsBytes(ss[i..]);
      assert all[OffsetOf(ss, i)..] == all[k..][|StringBytes(ss[i - 1])|..];
    }
  }

  lemma PutList(a: seq<u8>, ss: seq<Str>)
    ensures ListStands(a + ListBytes(ss), |a|, ss)
  {
    hide Le, StringBytes, StringsBytes, OffsetOf, StringStands;
    var p, all := a + ListBytes(ss), StringsBytes(ss);
    WrappedTwo(|ss|);
    StringsStand(ss, |ss|);
    assert ss[|ss|..] == [];
    NoStrings();
    forall i | 0 <= i < |ss| ensures StringStands(p, |a| + 2 + OffsetOf(ss, i), ss[i]) {
      var k := OffsetOf(ss, i);
      StringsStand(ss, i);
      ConsStrings(ss, i);
      var before := p[..|a| + 2 + k];
      assert p[|a| + 2..] == all;
      assert p[|a| + 2 + k..] == all[k..];
      assert p == before + (StringBytes(ss[i]) + StringsBytes(ss[i + 1..]));
      PutString(before, ss[i], StringsBytes(ss[i + 1..]));
    }
  }

  lemma NoStrings()
    ensures StringsBytes([]) == []
  {
  }

  lemma ConsStrings(ss: seq<Str>, i: nat)
    requires i < |ss|
    ensures StringsBytes(ss[i..]) == StringBytes(ss[i]) + StringsBytes(ss[i + 1..])
  {
    hide StringBytes;
    assert ss[i..][1..] == ss[i + 1..];
  }

  /** Every payload, byte by byte: the order, place and form of the fields, and nothing after the last. */
  predicate LaidOut(m: Message, p: seq<u8>) {
    match m
    case ClientHello(client, protocol) =>
      && StringStands(p, 0, client) && StringStands(p, 2 + Kept(client), protocol)
      && |p| == 4 + Kept(client) + Kept(protocol)
    case Ping(id) => |p| == 8 && UintStands(p, 0, 8, id)
    case ListIfaces => p == []
    case Subscribe(wanted) => ListStands(p, 0, wanted)
    case Unsubscribe => p == []
    case SendFrame(iface, id, isFd, brs, esi, data) =>
      var k := 2 + Kept(iface);
      && StringStands(p, 0, iface) && UintStands(p, k, 4, id)
      && FlagStands(p, k + 4, isFd) && FlagStands(p, k + 5, brs) && FlagStands(p, k + 6, esi) && DataStands(p, k + 7, data)
    case HelloAck(version, serverName, features) =>
      && StringStands(p, 0, version) && StringStands(p, 2 + Kept(version), serverName)
      && ListStands(p, 4 + Kept(version) + Kept(serverName), features)
    case Pong(id) => |p| == 8 && UintStands(p, 0, 8, id)
    case Ifaces(items) => ListStands(p, 0, items)
    case Subscribed(ifaces) => ListStands(p, 0, ifaces)
    case Unsubscribed => p == []
    case SendAck(ok, errorMessage) =>
      var text := if errorMessage.Some? then errorMessage.value else [];
      FlagStands(p, 0, ok) && StringStands(p, 1, text) && |p| == 3 + Kept(text)
    case FrameEvent(tsMs, iface, dir, id, isFd, data) =>
      var j := 10 + Kept(iface);
      var k := j + 2 + Kept(dir);
      && UintStands(p, 0, 8, tsMs) && StringStands(p, 8, iface) && StringStands(p, j, dir)
      && UintStands(p, k, 4, id) && FlagStands(p, k + 4, isFd) && DataStands(p, k + 5, data)
    case Error(message) => StringStands(p, 0, message) && |p| == 2 + Kept(message)
  }

  lemma SendFrameLayout(m: Message)
    requires m.SendFrame?
    ensures LaidOut(m, Payload(m))
  {
    hide StringBytes, DataBytes, Le, StringStands, UintStands, DataStands;
    var flags := [BoolByte(m.isFd), BoolByte(m.brs), BoolByte(m.esi)];
    var p, s, i := Payload(m), StringBytes(m.iface), Le(m.id, 4);
    var rest := flags + DataBytes(m.data);
    PutString([], m.iface, i + rest);
    assert p == [] + (s + (i + rest));
    PutUint(s, m.id, 4, rest);
    PutData(s + i + flags, m.data);
    assert p == (s + i + flags) + DataBytes(m.data);
  }

  lemma FrameEventLayout(m: Message)
    requires m.FrameEvent?
    ensures LaidOut(m, Payload(m))
  {
    hide StringBytes, DataBytes, Le, StringStands, UintStands, DataStands;
    var p, t, s, d, i := Payload(m), Le(m.tsMs, 8), StringBytes(m.iface), StringBytes(m.dir), Le(m.id, 4);
    var flag := [BoolByte(m.isFd)];
    var r1 := flag + DataBytes(m.data);
    var r2 := d + (i + r1);
    PutUint([], m.tsMs, 8, s + r2);
    assert p == [] + (t + (s + r2));
    PutString(t, m.iface, r2);
    PutString(t + s, m.dir, i + r1);
    assert p == (t + s) + (d + (i + r1));
    PutUint(t + s + d, m.id, 4, r1);
    assert p == (t + s + d) + (i + r1);
    PutData(t + s + d + i + flag, m.data);
    assert p == (t + s + d + i + flag) + DataBytes(m.data);
  }

  lemma HelloLayout(m: Message)
    requires m.ClientHello? || m.HelloAck? || m.SendAck? || m.Error?
    ensures LaidOut(m, Payload(m))
  {
    hide StringBytes, ListBytes, StringStands, ListStands;
    var p := Payload(m);
    match m
    case ClientHello(client, protocol) =>
      PutString([], client, StringBytes(protocol));
      assert p == [] + (StringBytes(client) + StringBytes(protocol));
      PutString(StringBytes(client), protocol, []);
      assert p == StringBytes(client) + (StringBytes(protocol) + []);
    case HelloAck(version, serverName, features) =>
      var s, n := StringBytes(version), StringBytes(serverName);
      PutString([], version, n + ListBytes(features));
      assert p == [] + (s + (n + ListBytes(features)));
      PutString(s, serverName, ListBytes(features));
      PutList(s + n, features);
      assert p == (s + n) + ListBytes(features);
    case SendAck(ok, errorMessage) =>
      var text := if errorMessage.Some? then errorMessage.value else [];
      PutString([BoolByte(ok)], text, []);
      assert p == [BoolByte(ok)] + (StringBytes(text) + []);
    case Error(message) =>
      PutString([], message, []);
      assert p == [] + (StringBytes(message) + []);
  }

  lemma PayloadLayout(m: Message)
    ensures LaidOut(m, Payload(m))
  {
    hide StringBytes, ListBytes, Le, StringStands, ListStands, DataStands, FlagStands;
    var p := Payload(m);
    match m
    case SendFrame(_, _, _, _, _, _) => SendFrameLayout(m);
    case FrameEvent(_, _, _, _, _, _) => FrameEventLayout(m);
    case Ping(id) =>
      PutUint([], id, 8, []);
      assert p == [] + (Le(id, 8) + []);
    case Pong(id) =>
      PutUint([], id, 8, []);
      assert p == [] + (Le(id, 8) + []);
    case Subscribe(ss) =>
      PutList([], ss);
      assert p == [] + ListBytes(ss);
    case Ifaces(ss) =>
      PutList([], ss);
      assert p == [] + ListBytes(ss);
    case Subscribed(ss) =>
      PutList([], ss);
      assert p == [] + ListBytes(ss);
    case ListIfaces =>
    case Unsubscribe =>
    case Unsubscribed =>
    case _ => HelloLayout(m);
  }
}
