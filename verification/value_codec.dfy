/**
  parse_attributes(): encode the raw value by the kind the caller declared,
  then look the keyword up in the catalog and reconcile the declared kind with
  the catalog's, choosing the attribute type; keywords missing from the
  catalog are read as decimal type numbers.
 */
module ValueCodec {
  import opened Wrappers
  import opened Bytes
  import opened Hosts
  import opened AttributeTypes
  import opened Catalog
  import opened Numeric

  /** UNITY_NETWORK_LEN: 4 address bytes, 4 mask bytes, 6 zero bytes. */
  const UNITY_NETWORK_LEN: nat := 14
  const TWO_64: int := 0x1_0000_0000_0000_0000

  /** Why parse_attributes() returned FALSE. */
  datatype ParseError =
    | InvalidAddress              // the address value did not parse
    | InvalidSubnet               // no '/', or the network half is not IPv4, or a half did not parse
    | KindMismatch(expected: ValueKind) // the keyword requires another kind of value
    | InvalidAddressLength        // a hex value for an address keyword is neither 4 nor 16 bytes
    | NotRecognized               // unknown keyword that is not a decimal number

  /** The outputs of parse_attributes(): final value kind, type, IPv6 type and value blob. */
  datatype Resolved = Resolved(kind: ValueKind, typ: int, typ6: int, blob: seq<byte>)

  /**
    The second half of the line-110 test, `(value - pos) == strlen(value)`:
    the pointer difference is minus the slash offset, converted to the
    unsigned size type before the comparison.
   */
  predicate SeparatorGuard(len: nat, pos: nat)
  {
    (0 - pos) % TWO_64 == len
  }

  /** For any string shorter than 2^63 bytes the guard cannot fire: only a missing '/' is rejected. */
  lemma SeparatorGuardNeverFires(len: nat, pos: nat)
    requires pos < len < TWO_64 / 2
    ensures !SeparatorGuard(len, pos)
  {
    if pos > 0 {
      assert (0 - pos) % TWO_64 == TWO_64 - pos;
    }
  }

  /**
    The subnet blob: split at the first '/', the network half must parse as
    IPv4. Line 119 asks for the mask's family through the network address
    object, so what is tested there is the network's family a second time and
    the mask only has to parse; its first four bytes are copied.
   */
  function EncodeSubnet(parse: seq<byte> -> Option<ParsedHost>, value: seq<byte>): (r: Result<seq<byte>, ParseError>)
    ensures r.Failure? ==> r.error == InvalidSubnet
    ensures r.Success? ==> |r.value| == UNITY_NETWORK_LEN && r.value[8..] == Zeros(6)
    ensures FirstIndexOf(value, SLASH).None? ==> r.Failure?
  {
    match FirstIndexOf(value, SLASH)
    case None => Failure(InvalidSubnet)
    case Some(pos) =>
      if SeparatorGuard(|value|, pos) then Failure(InvalidSubnet)
      else
        var addr := parse(value[..pos]);
        var mask := parse(value[pos + 1..]);
        if addr.None? || mask.None? then Failure(InvalidSubnet)
        else
          var maskFamilyAsTested := addr.value.family;
          if addr.value.family != Inet || maskFamilyAsTested != Inet then Failure(InvalidSubnet)
          else Success(addr.value.address + mask.value.address[..4] + Zeros(6))
  }

  /** The network address stored in a subnet blob. */
  function SubnetNetwork(blob: seq<byte>): seq<byte>
    requires |blob| == UNITY_NETWORK_LEN
  {
    blob[..4]
  }

  /** The mask stored in a subnet blob. */
  function SubnetMask(blob: seq<byte>): seq<byte>
    requires |blob| == UNITY_NETWORK_LEN
  {
    blob[4..8]
  }

  /**
    The subnet encoding, both ways: a value is accepted exactly when it has a
    '/', the part before the first one parses as an IPv4 address and the part
    after it parses at all; the blob then gives back the network address and
    the first four bytes of the mask, followed by six zero bytes.
   */
  lemma {:induction false} SubnetEncoding(parse: seq<byte> -> Option<ParsedHost>, value: seq<byte>)
    requires |value| < TWO_64 / 2
    ensures EncodeSubnet(parse, value).Success? <==>
      && FirstIndexOf(value, SLASH).Some?
      && parse(value[..FirstIndexOf(value, SLASH).value]).Some?
      && parse(value[..FirstIndexOf(value, SLASH).value]).value.family == Inet
      && parse(value[FirstIndexOf(value, SLASH).value + 1..]).Some?
    ensures EncodeSubnet(parse, value).Success? ==>
      var pos := FirstIndexOf(value, SLASH).value;
      var blob := EncodeSubnet(parse, value).value;
      && SubnetNetwork(blob) == parse(value[..pos]).value.address
      && SubnetMask(blob) == parse(value[pos + 1..]).value.address[..4]
      && blob[8..] == Zeros(6)
  {
    match FirstIndexOf(value, SLASH)
    case None =>
    case Some(pos) =>
      SeparatorGuardNeverFires(|value|, pos);
      var addr := parse(value[..pos]);
      var mask := parse(value[pos + 1..]);
      if addr.Some? && mask.Some? && addr.value.family == Inet {
        var blob := addr.value.address + mask.value.address[..4] + Zeros(6);
        assert blob[..4] == addr.value.address;
        assert blob[4..8] == mask.value.address[..4];
      }
  }

  /** An IPv6 mask behind an IPv4 network is accepted; its first four bytes become the mask. */
  lemma SubnetMaskFamilyUnchecked(parse: seq<byte> -> Option<ParsedHost>, net: seq<byte>, mask: seq<byte>)
    requires SLASH !in net && |net| + 1 + |mask| < TWO_64 / 2
    requires parse(net).Some? && parse(net).value.family == Inet
    requires parse(mask).Some? && parse(mask).value.family == Inet6
    ensures EncodeSubnet(parse, net + [SLASH] + mask)
      == Success(parse(net).value.address + parse(mask).value.address[..4] + Zeros(6))
  {
    var value := net + [SLASH] + mask;
    FirstSlashAfter(net, mask);
    assert value[..|net|] == net;
    assert value[|net| + 1..] == mask;
    SeparatorGuardNeverFires(|value|, |net|);
  }

  /** The first '/' of `net + "/" + rest` is the one after net when net has none. */
  lemma FirstSlashAfter(net: seq<byte>, rest: seq<byte>)
    requires SLASH !in net
    ensures FirstIndexOf(net + [SLASH] + rest, SLASH) == Some(|net|)
  {
    var value := net + [SLASH] + rest;
    var r := FirstIndexOf(value, SLASH);
    assert value[|net|] == SLASH;
  }

  /**
    The first switch of parse_attributes(): the blob for the declared kind.
    A string is copied verbatim, hex is decoded, an address yields its raw
    bytes, a subnet its 14-byte blob, and no value an empty blob.
   */
  function EncodeValue(p: Parsers, value: seq<byte>, declared: ValueKind): (r: Result<seq<byte>, ParseError>)
    ensures declared == StringValue ==> r == Success(value)
    ensures declared == NoValue ==> r == Success([])
    ensures declared == HexValue ==> r == Success(p.fromHex(value))
    ensures declared == AddrValue ==>
      (r.Success? <==> p.hostFromString(value).Some?) &&
      (r.Success? ==> r.value == p.hostFromString(value).value.address) &&
      (r.Success? ==> |r.value| == 4 || |r.value| == 16) &&
      (r.Failure? ==> r.error == InvalidAddress)
    ensures declared == SubnetValue ==> r == EncodeSubnet(p.hostFromString, value)
  {
    match declared
    case StringValue => Success(value)
    case HexValue => Success(p.fromHex(value))
    case AddrValue =>
      (match p.hostFromString(value)
       case None => Failure(InvalidAddress)
       case Some(addr) => Success(addr.address))
    case SubnetValue => EncodeSubnet(p.hostFromString, value)
    case NoValue => Success([])
  }

  /**
    Reconciling the declared kind with a matched catalog entry (lines 148-219).
    The family-dependent type chosen at lines 184-185 for a declared address is
    overwritten at line 217, so every non-hex value gets the primary type.
   */
  function Reconcile(e: AttrInfo, declared: ValueKind, blob: seq<byte>): (r: Result<Resolved, ParseError>)
    ensures r.Success? ==> r.value.kind == e.kind && r.value.blob == blob
    ensures r.Success? ==> r.value.typ == e.typ || r.value.typ == e.typ6
    ensures r.Success? && r.value.typ6 != 0 ==> declared == NoValue
    ensures r.Failure? <==>
      || (declared != NoValue && declared != HexValue && declared != e.kind)
      || (declared == HexValue && e.kind == AddrValue && |blob| != 4 && |blob| != 16)
  {
    if declared == NoValue then
      Success(Resolved(e.kind, e.typ, e.typ6, blob))
    else if declared != e.kind && declared != HexValue then
      Failure(KindMismatch(e.kind))
    else if declared == HexValue then
      if e.kind == AddrValue then
        if |blob| == 4 then Success(Resolved(e.kind, e.typ, 0, blob))
        else if |blob| == 16 then Success(Resolved(e.kind, e.typ6, 0, blob))
        else Failure(InvalidAddressLength)
      else
        Success(Resolved(e.kind, e.typ, 0, blob))
    else
      Success(Resolved(declared, e.typ, 0, blob))
  }

  /** The tail of parse_attributes() for a keyword missing from the catalog (lines 226-239). */
  function NumericFallback(name: seq<byte>, declared: ValueKind, blob: seq<byte>): (r: Result<Resolved, ParseError>)
    ensures r.Success? <==> StrToL(name).end == |name|
    ensures r.Failure? ==> r.error == NotRecognized
    ensures r.Success? ==> r.value.typ6 == 0 && r.value.blob == blob
    ensures r.Success? ==> r.value.kind == if declared == NoValue then HexValue else declared
    ensures r.Success? ==> -TWO_32 / 2 <= r.value.typ < TWO_32 / 2
    ensures r.Success? ==> (StrToL(name).value - r.value.typ) % TWO_32 == 0
  {
    var conv := StrToL(name);
    if conv.end != |name| then Failure(NotRecognized)
    else Success(Resolved(if declared == NoValue then HexValue else declared, ToInt32(conv.value), 0, blob))
  }

  /** parse_attributes(name, value, &kind, &type, &type_ip6, &blob). */
  function ParseAttributes(p: Parsers, name: seq<byte>, value: seq<byte>, declared: ValueKind): (r: Result<Resolved, ParseError>)
    ensures EncodeValue(p, value, declared).Failure? ==> r == Failure(EncodeValue(p, value, declared).error)
    ensures r.Success? ==> r.value.blob == EncodeValue(p, value, declared).value
    ensures r.Success? && r.value.typ6 != 0 ==> declared == NoValue && r.value.blob == []
    ensures r.Success? ==> r.value.kind != NoValue
    ensures r.Success? && declared != NoValue && declared != HexValue ==> r.value.kind == declared
  {
    match EncodeValue(p, value, declared)
    case Failure(err) => Failure(err)
    case Success(blob) =>
      match Lookup(name)
      case Some(i) =>
        CatalogShape();
        Reconcile(Entries[i], declared, blob)
      case None => NumericFallback(name, declared, blob)
  }

  /**
    Whether parse_attributes() holds a network address object `addr`: an
    address value that parses (line 99), or a subnet value whose part before
    the first '/' parses (line 116).
   */
  predicate AddrCreated(p: Parsers, value: seq<byte>, declared: ValueKind)
  {
    match declared
    case AddrValue => p.hostFromString(value).Some?
    case SubnetValue =>
      (match FirstIndexOf(value, SLASH)
       case None => false
       case Some(pos) => !SeparatorGuard(|value|, pos) && p.hostFromString(value[..pos]).Some?)
    case _ => false
  }

  /**
    How many times parse_attributes() releases `addr`. An address is released
    once, at line 178, 186 or 224. A subnet is released at line 122 when the
    encoding fails and otherwise at line 132, which leaves the pointer set, so
    the kind-mismatch exit (line 178) and the catalog miss (line 224) release
    it a second time. With `clearAfterSubnet` the pointer is reset at line 132.
   */
  function AddrReleases(p: Parsers, name: seq<byte>, value: seq<byte>, declared: ValueKind,
                        clearAfterSubnet: bool): nat
  {
    if !AddrCreated(p, value, declared) then 0
    else if declared == AddrValue then 1
    else if EncodeSubnet(p.hostFromString, value).Failure? then 1
    else if clearAfterSubnet then 1
    else
      match Lookup(name)
      case Some(i) => if Entries[i].kind == SubnetValue then 1 else 2
      case None => 2
  }

  /**
    The releases of `addr` as written: twice exactly for an encoded subnet
    whose keyword is missing from the catalog or requires another kind.
   */
  function AddrReleasesAsWritten(p: Parsers, name: seq<byte>, value: seq<byte>, declared: ValueKind): (n: nat)
    ensures n <= 2
    ensures n == 2 <==>
      && declared == SubnetValue
      && EncodeSubnet(p.hostFromString, value).Success?
      && (Lookup(name).None? || Entries[Lookup(name).value].kind != SubnetValue)
  {
    AddrReleases(p, name, value, declared, false)
  }

  /** With the pointer reset after line 132, every `addr` obtained is released exactly once. */
  function AddrReleasesCorrected(p: Parsers, name: seq<byte>, value: seq<byte>, declared: ValueKind): (n: nat)
    ensures n == (if AddrCreated(p, value, declared) then 1 else 0)
  {
    AddrReleases(p, name, value, declared, true)
  }

  /** A value-less lookup of a catalog keyword returns the entry's kind and both of its types. */
  lemma ValueLessLookup(p: Parsers, name: seq<byte>, value: seq<byte>, i: nat)
    requires Lookup(name) == Some(i)
    ensures ParseAttributes(p, name, value, NoValue)
      == Success(Resolved(Entries[i].kind, Entries[i].typ, Entries[i].typ6, []))
  {
  }

  /** A catalog keyword given a value of another kind, other than hex, is rejected naming the expected kind. */
  lemma KindMismatchRejected(p: Parsers, name: seq<byte>, value: seq<byte>, declared: ValueKind, i: nat)
    requires Lookup(name) == Some(i)
    requires declared != NoValue && declared != HexValue && declared != Entries[i].kind
    requires EncodeValue(p, value, declared).Success?
    ensures ParseAttributes(p, name, value, declared) == Failure(KindMismatch(Entries[i].kind))
  {
  }

  /**
    A hex value for an address keyword becomes an address: 4 bytes take the
    primary type, 16 bytes the IPv6 type, any other length is rejected.
   */
  lemma HexAgainstAddress(p: Parsers, name: seq<byte>, value: seq<byte>, i: nat)
    requires Lookup(name) == Some(i) && Entries[i].kind == AddrValue
    ensures var blob := p.fromHex(value);
      ParseAttributes(p, name, value, HexValue) ==
        if |blob| == 4 then Success(Resolved(AddrValue, Entries[i].typ, 0, blob))
        else if |blob| == 16 then Success(Resolved(AddrValue, Entries[i].typ6, 0, blob))
        else Failure(InvalidAddressLength)
  {
  }

  /** A hex value for any other catalog keyword takes the entry's kind and primary type, whatever its length. */
  lemma HexAgainstOther(p: Parsers, name: seq<byte>, value: seq<byte>, i: nat)
    requires Lookup(name) == Some(i) && Entries[i].kind != AddrValue
    ensures ParseAttributes(p, name, value, HexValue)
      == Success(Resolved(Entries[i].kind, Entries[i].typ, 0, p.fromHex(value)))
  {
  }

  /**
    With a declared kind other than hex or none, a matched keyword always
    yields its primary type: an IPv6 address for a dual-family keyword still
    gets the IPv4 type.
   */
  lemma NonHexMatchKeepsPrimary(p: Parsers, name: seq<byte>, value: seq<byte>, declared: ValueKind, i: nat)
    requires Lookup(name) == Some(i)
    requires declared != NoValue && declared != HexValue
    ensures ParseAttributes(p, name, value, declared).Success? ==>
      ParseAttributes(p, name, value, declared)
        == Success(Resolved(declared, Entries[i].typ, 0, EncodeValue(p, value, declared).value))
  {
  }

  /** An IPv6 address for `dns`: stored as 16 bytes under the IPv4 DNS type. */
  lemma DeclaredIPv6AddressGetsPrimary(p: Parsers, name: seq<byte>, value: seq<byte>, i: nat)
    requires Lookup(name) == Some(i) && Entries[i].kind == AddrValue
    requires p.hostFromString(value).Some? && p.hostFromString(value).value.family == Inet6
    ensures var r := ParseAttributes(p, name, value, AddrValue);
      && r.Success?
      && r.value.typ == Entries[i].typ
      && |r.value.blob| == 16
  {
  }

  /**
    An address keyword without an IPv6 type (internal_ip6_dns among them)
    given 16 hex bytes is stored under type 0.
   */
  lemma SingleFamilyHexIPv6GetsTypeZero(p: Parsers, name: seq<byte>, value: seq<byte>, i: nat)
    requires Lookup(name) == Some(i) && Entries[i].kind == AddrValue && Entries[i].typ6 == 0
    requires |p.fromHex(value)| == 16
    ensures ParseAttributes(p, name, value, HexValue) == Success(Resolved(AddrValue, 0, 0, p.fromHex(value)))
  {
  }

  /**
    An unknown keyword is accepted exactly when it is empty or a decimal
    numeral; it then becomes the type, the IPv6 type stays 0 and a value-less
    request is treated as hex.
   */
  lemma {:induction false} UnknownKeywordFallback(p: Parsers, name: seq<byte>, value: seq<byte>, declared: ValueKind)
    requires Lookup(name).None? && EncodeValue(p, value, declared).Success?
    ensures var r := ParseAttributes(p, name, value, declared);
      && (r.Success? <==> |name| == 0 || IsNumeral(name))
      && (r.Failure? ==> r.error == NotRecognized)
      && (r.Success? ==> r.value == Resolved(if declared == NoValue then HexValue else declared,
                                             ToInt32(StrToL(name).value), 0,
                                             EncodeValue(p, value, declared).value))
  {
    ConsumesWholeName(name);
  }

  /** An empty keyword matches no entry and is type 0. */
  lemma EmptyNameIsTypeZero(p: Parsers, value: seq<byte>, declared: ValueKind)
    requires EncodeValue(p, value, declared).Success?
    ensures ParseAttributes(p, [], value, declared)
      == Success(Resolved(if declared == NoValue then HexValue else declared, 0, 0, EncodeValue(p, value, declared).value))
  {
    assert forall j | 0 <= j < |Entries| :: |Entries[j].keyword| > 0;
  }

  /** A plain decimal keyword such as "25" names that type, read as hex when no kind is declared. */
  lemma NumericKeyword(p: Parsers, name: seq<byte>, value: seq<byte>)
    requires |name| > 0 && AllDigits(name) && DecimalValue(name) < TWO_32 / 2
    ensures ParseAttributes(p, name, value, NoValue) == Success(Resolved(HexValue, DecimalValue(name), 0, []))
  {
    PlainNumberIsTypeCode(name);
    DigitNameNotInCatalog(name);
  }
}
