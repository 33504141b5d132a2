/** The frame events on the bus and the JSON-side requests and responses. */
module Protocol {
  import opened Bytes
  import opened Results

  datatype Direction = Rx | Tx

  /** `domain::frame::FrameEvent`: one frame travelling on the broadcast bus. */
  datatype BusFrame = BusFrame(tsMs: u64, iface: Str, dir: Direction, id: u32, isFd: bool, data: seq<u8>)

  datatype FrameFilter = FrameFilter(
    iface: Option<Str>, id: Option<u32>, idMask: Option<u32>, isFd: Option<bool>,
    minLen: Option<nat>, maxLen: Option<nat>)

  datatype ClientRequest =
    | ClientHello(client: Str, protocol: Str)
    | Ping(pingId: u64)
    | ListIfaces
    | Subscribe(ifaces: seq<Str>, filters: seq<FrameFilter>)
    | Unsubscribe
    | SendFrame(iface: Str, id: u32, isFd: bool, brs: bool, esi: bool, dataHex: string)

  datatype DaemonResponse =
    | HelloAck(version: Str, features: seq<Str>, serverName: Str)
    | Pong(pongId: u64)
    | Ifaces(items: seq<Str>)
    | Subscribed(ifaces: seq<Str>)
    | Unsubscribed
    | Frame(tsMs: u64, iface: Str, dir: Str, id: u32, isFd: bool, dataHex: string)
    | SendAck(ok: bool, errorMessage: Option<Str>)
    | Error(message: Str)
}
