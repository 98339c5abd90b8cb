/**
  Parsed host addresses. The string and hex parsers of the library the tool
  links against are not part of this model: they are handed to the model as
  the two functions of a `Parsers` value.
 */
module Hosts {
  import opened Wrappers
  import opened Bytes

  datatype Family = Inet | Inet6

  /** An address family together with the raw address bytes in network order. */
  datatype Host = Host(family: Family, address: seq<byte>) {
    predicate WellFormed()
    {
      |address| == if family == Inet then 4 else 16
    }
  }

  /** What a successful host_create_from_string() yields: 4 bytes for IPv4, 16 for IPv6. */
  type ParsedHost = h: Host | h.WellFormed() witness Host(Inet, [0, 0, 0, 0])

  /**
    hostFromString stands for host_create_from_string(s, 0) (None for NULL);
    fromHex stands for chunk_from_hex(), whose result the tool never checks.
   */
  datatype Parsers = Parsers(
    hostFromString: seq<byte> -> Option<ParsedHost>,
    fromHex: seq<byte> -> seq<byte>)
}
