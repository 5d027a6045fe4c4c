/** The records shared by the collector and the client (reactNative/types/index.ts),
    and the optional and failure-carrying values the rest of the model uses. */
module Types {

  datatype Option<+T> = None | Some(value: T)

  datatype Result<+R, +E> = Success(value: R) | Failure(error: E)

  /** A field whose declared type is `string` on the client but that the collector
      fills with whatever the metric source returned (a string or a number). */
  datatype Field = Text(text: string) | Number(number: real)

  /** A JavaScript number as produced by a division: finite, or NaN (0/0), or +Infinity (x/0, x > 0). */
  datatype JsNumber = Finite(value: real) | NaN | Infinity

  datatype MemData = MemData(free: nat, total: nat, usedPercent: string)

  datatype DiskData = DiskData(
    filesystem: string,
    size: Field,
    used: Field,
    available: Field,
    capacity: Field,
    mount: string)

  datatype NetData = NetData(iface: string, ip4: string, mac: string, internal: bool)

  /** One snapshot of host metrics, as sent on the wire and held by the client. */
  datatype SystemData = SystemData(
    cpuLoad: seq<real>,
    mem: MemData,
    uptime: nat,
    disk: seq<DiskData>,
    net: seq<NetData>)

  /** The `Error` object the client exposes; only its message is modelled. */
  datatype Error = Error(message: string)
}
