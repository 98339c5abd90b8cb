/**
  The static keyword catalog of the attribute tool (attr_info[]): each entry
  maps a keyword to the value kind it expects, its primary attribute type and,
  for the keywords that name both an IPv4 and an IPv6 attribute, the IPv6 type.
 */
module Catalog {
  import opened Wrappers
  import opened Bytes
  import opened AttributeTypes

  /** One row of attr_info[]; typ6 == 0 means the keyword has no IPv6 variant. */
  datatype AttrInfo = AttrInfo(keyword: string, kind: ValueKind, typ: int, typ6: int)

  const Entries: seq<AttrInfo> := [
    AttrInfo("internal_ip4_dns",    AddrValue,   INTERNAL_IP4_DNS,    0),
    AttrInfo("internal_ip6_dns",    AddrValue,   INTERNAL_IP6_DNS,    0),
    AttrInfo("dns",                 AddrValue,   INTERNAL_IP4_DNS,    INTERNAL_IP6_DNS),
    AttrInfo("internal_ip4_nbns",   AddrValue,   INTERNAL_IP4_NBNS,   0),
    AttrInfo("internal_ip6_nbns",   AddrValue,   INTERNAL_IP6_NBNS,   0),
    AttrInfo("nbns",                AddrValue,   INTERNAL_IP4_NBNS,   INTERNAL_IP6_NBNS),
    AttrInfo("wins",                AddrValue,   INTERNAL_IP4_NBNS,   INTERNAL_IP6_NBNS),
    AttrInfo("internal_ip4_dhcp",   AddrValue,   INTERNAL_IP4_DHCP,   0),
    AttrInfo("internal_ip6_dhcp",   AddrValue,   INTERNAL_IP6_DHCP,   0),
    AttrInfo("dhcp",                AddrValue,   INTERNAL_IP4_DHCP,   INTERNAL_IP6_DHCP),
    AttrInfo("internal_ip4_server", AddrValue,   INTERNAL_IP4_SERVER, 0),
    AttrInfo("internal_ip6_server", AddrValue,   INTERNAL_IP6_SERVER, 0),
    AttrInfo("server",              AddrValue,   INTERNAL_IP4_SERVER, INTERNAL_IP6_SERVER),
    AttrInfo("application_version", StringValue, APPLICATION_VERSION, 0),
    AttrInfo("version",             StringValue, APPLICATION_VERSION, 0),
    AttrInfo("unity_banner",        StringValue, UNITY_BANNER,        0),
    AttrInfo("banner",              StringValue, UNITY_BANNER,        0),
    AttrInfo("unity_splitdns_name", StringValue, UNITY_SPLITDNS_NAME, 0),
    AttrInfo("unity_split_include", SubnetValue, UNITY_SPLIT_INCLUDE, 0),
    AttrInfo("unity_local_lan",     SubnetValue, UNITY_LOCAL_LAN,     0)
  ]

  /** The keywords that name an IPv4 and an IPv6 attribute at once. */
  const DualFamilyKeywords: set<string> := {"dns", "nbns", "wins", "dhcp", "server"}

  /** strcaseeq(name, keyword) for one catalog entry. */
  predicate Matches(name: seq<byte>, e: AttrInfo)
  {
    CaseEq(name, FromAscii(e.keyword))
  }

  /** The linear scan of attr_info[] from index i on: the first entry whose keyword matches. */
  function LookupFrom(name: seq<byte>, i: nat): (r: Option<nat>)
    requires i <= |Entries|
    ensures r.Some? ==> i <= r.value < |Entries| && Matches(name, Entries[r.value])
    ensures r.Some? ==> forall j | i <= j < r.value :: !Matches(name, Entries[j])
    ensures r.None? ==> forall j | i <= j < |Entries| :: !Matches(name, Entries[j])
    decreases |Entries| - i
  {
    if i == |Entries| then None
    else if Matches(name, Entries[i]) then Some(i)
    else LookupFrom(name, i + 1)
  }

  /** The catalog lookup of parse_attributes: first case-insensitive keyword match. */
  function Lookup(name: seq<byte>): (r: Option<nat>)
    ensures r.Some? ==> r.value < |Entries| && Matches(name, Entries[r.value])
    ensures r.Some? ==> forall j | 0 <= j < r.value :: !Matches(name, Entries[j])
    ensures r.None? ==> forall j | 0 <= j < |Entries| :: !Matches(name, Entries[j])
  {
    LookupFrom(name, 0)
  }

  /**
    Only the dual-family keywords carry an IPv6 type, every one of them expects
    an address, and every entry has a non-zero primary type.
   */
  lemma CatalogShape()
    ensures forall i | 0 <= i < |Entries| :: Entries[i].typ != 0
    ensures forall i | 0 <= i < |Entries| ::
      Entries[i].typ6 != 0 <==> Entries[i].keyword in DualFamilyKeywords
    ensures forall i | 0 <= i < |Entries| :: Entries[i].typ6 != 0 ==> Entries[i].kind == AddrValue
    ensures forall i | 0 <= i < |Entries| :: Entries[i].kind != HexValue && Entries[i].kind != NoValue
  {
  }

  /** Every keyword starts with a lower-case letter, so no decimal number is a keyword. */
  lemma KeywordsStartWithLetter()
    ensures forall j | 0 <= j < |Entries| ::
      |Entries[j].keyword| > 0 && 'a' <= Entries[j].keyword[0] <= 'z'
  {
  }

  /** Which entries share a keyword length; used to rule out matches by length. */
  lemma KeywordLengths()
    ensures forall j | 0 <= j < |Entries| :: |Entries[j].keyword| == 3 ==> j == 2
    ensures forall j | 0 <= j < |Entries| :: |Entries[j].keyword| == 6 ==> j == 12 || j == 16
    ensures forall j | 0 <= j < |Entries| ::
      |Entries[j].keyword| == 19 ==> j == 10 || j == 11 || j == 13 || j == 17 || j == 18
  {
  }

  /** A name starting with a decimal digit matches no keyword. */
  lemma DigitNameNotInCatalog(name: seq<byte>)
    requires |name| > 0 && IsDigit(name[0])
    ensures Lookup(name).None?
  {
    KeywordsStartWithLetter();
    forall j | 0 <= j < |Entries|
      ensures !Matches(name, Entries[j])
    {
      LetterNotDigit(name, Entries[j].keyword);
    }
  }

  lemma LetterNotDigit(name: seq<byte>, keyword: string)
    requires |name| > 0 && IsDigit(name[0])
    requires |keyword| > 0 && 'a' <= keyword[0] <= 'z'
    ensures !CaseEq(name, FromAscii(keyword))
  {
    var b := FromAscii(keyword)[0];
    assert b as int == keyword[0] as int;
    assert ToLower(b) != ToLower(name[0]);
  }
}
