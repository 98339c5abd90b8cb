/**
  Value kinds of the `ipsec pool` attribute options and the configuration
  attribute type codes the catalog refers to. The codes are those of the IKEv2
  configuration payload (section 3.15.1 of RFC 4306), the two strongSwan
  private-use server codes and the Cisco Unity codes.
 */
module AttributeTypes {

  /** value_type_t: how the raw value on the command line is to be read. */
  datatype ValueKind = HexValue | StringValue | AddrValue | SubnetValue | NoValue

  const INTERNAL_IP4_DNS: int := 3
  const INTERNAL_IP4_NBNS: int := 4
  const INTERNAL_IP4_DHCP: int := 6
  const APPLICATION_VERSION: int := 7
  const INTERNAL_IP6_DNS: int := 10
  const INTERNAL_IP6_NBNS: int := 11
  const INTERNAL_IP6_DHCP: int := 12
  const INTERNAL_IP4_SERVER: int := 23456
  const INTERNAL_IP6_SERVER: int := 23457
  const UNITY_BANNER: int := 28672
  const UNITY_SPLITDNS_NAME: int := 28675
  const UNITY_SPLIT_INCLUDE: int := 28676
  const UNITY_LOCAL_LAN: int := 28678
}
