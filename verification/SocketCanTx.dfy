/** The SocketCAN transmit port: which frames it lets through to the driver. */
module SocketCanTx {
  import opened Bytes
  import opened Results
  import opened Protocol
  import opened Service
  import Utf8

  datatype CanId = Standard(raw: u16) | Extended(raw29: u32)
  datatype FdFlag = Brs | Esi

  /** A frame as handed to the socket. */
  datatype RawFrame =
    | Classic(id: CanId, data: seq<u8>)
    | Fd(id: CanId, data: seq<u8>, flags: set<FdFlag>)

  /** The parts below this port: does the frame constructor succeed, and what do opening and writing give. */
  datatype Driver = Driver(builds: bool, io: TxOutcome)

  function MakeId(raw: u32): (id: Option<CanId>)
    ensures id.None? <==> raw > 0x1FFF_FFFF
    ensures id.Some? ==> (id.value.Standard? <==> raw <= 0x7FF)
    ensures id.Some? ==> RawId(id.value) == raw
  {
    if raw <= 0x7FF then Some(Standard(raw))
    else if raw <= 0x1FFF_FFFF then Some(Extended(raw))
    else None
  }

  function RawId(id: CanId): u32 {
    match id
    case Standard(raw) => raw
    case Extended(raw) => raw
  }

  function Decimal(n: nat): string {
    (if n < 10 then [] else Decimal(n / 10)) + [('0' as int + n % 10) as char]
  }

  /** The frames SocketCAN may be asked to send. */
  predicate Sendable(id: u32, isFd: bool, brs: bool, esi: bool, data: seq<u8>) {
    id <= 0x1FFF_FFFF && if isFd then |data| <= 64 else |data| <= 8 && !brs && !esi
  }

  function Flags(brs: bool, esi: bool): set<FdFlag> {
    (if brs then {Brs} else {}) + (if esi then {Esi} else {})
  }

  /** What `send_blocking` answers. */
  function Answer(id: u32, isFd: bool, brs: bool, esi: bool, data: seq<u8>, driver: Driver): TxOutcome {
    hide Utf8.Encode, Decimal;
    if isFd && |data| > 64 then
      Refused(Utf8.Encode("CAN-FD payload too large: " + Decimal(|data|) + " (max 64)"))
    else if !isFd && |data| > 8 then
      Refused(Utf8.Encode("Classic CAN payload too large: " + Decimal(|data|) + " (max 8)"))
    else if !isFd && (brs || esi) then
      Refused(Utf8.Encode("brs/esi flags supplied when is_fd is false"))
    else if MakeId(id).None? then
      Refused(Utf8.Encode("CAN id out of range: " + Decimal(id)))
    else if !driver.builds then
      Refused(Utf8.Encode((if isFd then "failed to construct CanFdFrame (len=" else "failed to construct CanFrame (len=")
                          + Decimal(|data|) + ")"))
    else driver.io
  }

  /** `send_blocking`: a frame reaches the driver exactly when it is sendable and can be built, with the id, data and
      flags of the request; the port answers `Sent` exactly when the driver took it. */
  method SendBlocking(id: u32, isFd: bool, brs: bool, esi: bool, data: seq<u8>, driver: Driver)
    returns (outcome: TxOutcome, handed: Option<RawFrame>)
    ensures outcome == Answer(id, isFd, brs, esi, data, driver)
    ensures handed.Some? <==> Sendable(id, isFd, brs, esi, data) && driver.builds
    ensures handed.Some? ==> RawId(handed.value.id) == id && handed.value.data == data
    ensures handed.Some? ==> (handed.value.Fd? <==> isFd)
    ensures handed.Some? && isFd ==> handed.value.flags == Flags(brs, esi)
    ensures handed.Some? && isFd ==> (Brs in handed.value.flags <==> brs) && (Esi in handed.value.flags <==> esi)
    ensures outcome.Sent? <==> handed.Some? && driver.io.Sent?
  {
    hide Utf8.Encode, Decimal;
    handed := None;
    if isFd {
      if |data| > 64 {
        return Refused(Utf8.Encode("CAN-FD payload too large: " + Decimal(|data|) + " (max 64)")), None;
      }
    } else {
      if |data| > 8 {
        return Refused(Utf8.Encode("Classic CAN payload too large: " + Decimal(|data|) + " (max 8)")), None;
      }
      if brs || esi {
        return Refused(Utf8.Encode("brs/esi flags supplied when is_fd is false")), None;
      }
    }
    var sid := MakeId(id);
    if sid.None? {
      return Refused(Utf8.Encode("CAN id out of range: " + Decimal(id))), None;
    }
    if isFd {
      var flags := {};
      if brs { flags := flags + {Brs}; }
      if esi { flags := flags + {Esi}; }
      if !driver.builds {
        return Refused(Utf8.Encode("failed to construct CanFdFrame (len=" + Decimal(|data|) + ")")), None;
      }
      return driver.io, Some(Fd(sid.value, data, flags));
    } else {
      if !driver.builds {
        return Refused(Utf8.Encode("failed to construct CanFrame (len=" + Decimal(|data|) + ")")), None;
      }
      return driver.io, Some(Classic(sid.value, data));
    }
  }

  /** The call was made to this port: its outcome is the port's answer under some behaviour of the driver. */
  ghost predicate AnsweredByPort(call: TxCall) {
    exists driver :: call.outcome == Answer(call.id, call.isFd, call.brs, call.esi, call.data, driver)
  }

  /** This port accepts only frames that fit: at most 64 bytes for CAN-FD, at most 8 and no flags for classic CAN, and
      a 29-bit id. */
  lemma PortAcceptsSendable(call: TxCall)
    requires AnsweredByPort(call) && call.outcome.Sent?
    ensures Sendable(call.id, call.isFd, call.brs, call.esi, call.data)
  {
    hide Utf8.Encode, Decimal;
    var driver :| call.outcome == Answer(call.id, call.isFd, call.brs, call.esi, call.data, driver);
  }

  function ReadDecimal(s: string): int {
    if s == [] then 0 else 10 * ReadDecimal(s[..|s| - 1]) + (s[|s| - 1] as int - '0' as int)
  }

  /** Numbers in refusals are in plain decimal notation: digits only, no leading zero, the right value. */
  lemma {:induction false} DecimalReads(n: nat)
    ensures var s := Decimal(n);
            && s != [] && ReadDecimal(s) == n && (forall i :: 0 <= i < |s| ==> '0' <= s[i] <= '9')
            && (s[0] == '0' ==> n == 0)
  {
    if n >= 10 {
      DecimalReads(n / 10);
      assert Decimal(n)[..|Decimal(n)| - 1] == Decimal(n / 10);
    } else {
      assert Decimal(n)[..0] == [];
    }
  }

  /** A refusal names the first thing that is wrong, in this order: the length, the flags, the id, the frame. */
  lemma RefusalSaysWhy(id: u32, isFd: bool, brs: bool, esi: bool, data: seq<u8>, driver: Driver)
    ensures var r := Answer(id, isFd, brs, esi, data, driver); var n := Decimal(|data|);
            var long := |data| > (if isFd then 64 else 8); var flagged := !isFd && (brs || esi);
            && (long && isFd ==> r == Refused(Utf8.Encode("CAN-FD payload too large: " + n + " (max 64)")))
            && (long && !isFd ==> r == Refused(Utf8.Encode("Classic CAN payload too large: " + n + " (max 8)")))
            && (!long && flagged ==> r == Refused(Utf8.Encode("brs/esi flags supplied when is_fd is false")))
            && (!long && !flagged && id > 0x1FFF_FFFF ==>
                  r == Refused(Utf8.Encode("CAN id out of range: " + Decimal(id))))
            && (!long && !flagged && id <= 0x1FFF_FFFF && driver.builds ==> r == driver.io)
  {
    hide Utf8.Encode, Decimal;
  }
}
