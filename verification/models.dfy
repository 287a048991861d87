/** The record shapes of pkg/models/types.go, plus the IPv4 octets every address is built from. */
module Models {

  /** One byte of an IPv4 address. */
  type Octet = x: int | 0 <= x < 256

  /** An IPv4 address as its four octets, most significant first. */
  datatype IPv4 = IPv4(o0: Octet, o1: Octet, o2: Octet, o3: Octet)

  /** One event of the probing engine: a positive match (empty `error`)
      or a malformed-address report (empty `blacklist`). */
  datatype BlacklistResult = BlacklistResult(
    ip: string,
    blacklist: string,
    error: string,
    timestamp: string)

  /** The run configuration. `concurrency` and `timeout` only size the
      admission limiter and the DNS deadline, which are not modelled. */
  datatype Config = Config(
    concurrency: int,
    timeout: int,
    blacklists: seq<string>,
    outputFormat: string,
    customBlacklists: seq<string>)
}
