/**
  Worked examples of the attribute tool on concrete keywords and values. The
  host parser is outside the model, so each example states what it returns
  for the literals involved.
 */
module Scenarios {
  import opened Wrappers
  import opened Bytes
  import opened Hosts
  import opened AttributeTypes
  import opened Catalog
  import opened ValueCodec
  import opened AttributeStore

  /** Keywords are matched regardless of case: `DNS` finds the dual-family `dns` entry. */
  lemma UpperCaseDnsIsDns()
    ensures Lookup(FromAscii("DNS")) == Some(2)
    ensures Entries[2].typ == INTERNAL_IP4_DNS && Entries[2].typ6 == INTERNAL_IP6_DNS
  {
    var n := FromAscii("DNS");
    assert n == [68, 78, 83];
    KeywordLengths();
    assert Entries[2].keyword == "dns";
    assert FromAscii("dns") == [100, 110, 115];
    assert Matches(n, Entries[2]);
  }

  /** `--addattr dns --server 8.8.8.8` stores the four address bytes under INTERNAL_IP4_DNS. */
  lemma AddDnsIPv4(p: Parsers, t: Table)
    requires p.hostFromString(FromAscii("8.8.8.8")) == Some(Host(Inet, [8, 8, 8, 8]))
    ensures AddAttr(p, t, FromAscii("dns"), FromAscii("8.8.8.8"), AddrValue, false)
      == (Table(t.rows + [Row(t.nextId, INTERNAL_IP4_DNS, [8, 8, 8, 8])], t.nextId + 1),
          Success(Row(t.nextId, INTERNAL_IP4_DNS, [8, 8, 8, 8])))
  {
    assert Lookup(FromAscii("dns")) == Some(2) by {
      assert FromAscii("dns") == [100, 110, 115];
    }
  }

  /** An IPv6 server address for `dns` keeps the 16 bytes but, as written, the IPv4 DNS type. */
  lemma AddDnsIPv6(p: Parsers, t: Table, v: seq<byte>, a: seq<byte>)
    requires |a| == 16 && p.hostFromString(v) == Some(Host(Inet6, a))
    ensures AddAttr(p, t, FromAscii("dns"), v, AddrValue, false).1
      == Success(Row(t.nextId, INTERNAL_IP4_DNS, a))
  {
    assert Lookup(FromAscii("dns")) == Some(2) by {
      assert FromAscii("dns") == [100, 110, 115];
    }
  }

  /** `--addattr unity_split_include --subnet 10.0.0.0/255.255.255.0` stores the 14-byte network blob. */
  lemma AddSplitInclude(p: Parsers, t: Table)
    requires p.hostFromString(FromAscii("10.0.0.0")) == Some(Host(Inet, [10, 0, 0, 0]))
    requires p.hostFromString(FromAscii("255.255.255.0")) == Some(Host(Inet, [255, 255, 255, 0]))
    ensures AddAttr(p, t, FromAscii("unity_split_include"), FromAscii("10.0.0.0/255.255.255.0"), SubnetValue, false).1
      == Success(Row(t.nextId, UNITY_SPLIT_INCLUDE, [10, 0, 0, 0, 255, 255, 255, 0, 0, 0, 0, 0, 0, 0]))
  {
    SplitIncludeBlob(p);
    SplitIncludeKeyword();
  }

  lemma SplitIncludeKeyword()
    ensures Lookup(FromAscii("unity_split_include")) == Some(18)
  {
    var n := FromAscii("unity_split_include");
    forall j | 0 <= j < 18
      ensures !Matches(n, Entries[j])
    {
      if j == 10 || j == 11 || j == 13 {
        assert n[0] == 117 && Entries[j].keyword[0] != 'u';
        assert FromAscii(Entries[j].keyword)[0] != 117;
      } else if j == 17 {
        assert n[11] == 95 && FromAscii(Entries[17].keyword)[11] == 100;
      } else {
        KeywordLengths();
      }
    }
    assert Entries[18].keyword == "unity_split_include";
    assert Matches(n, Entries[18]);
  }

  /** `--subnet 10.0.0.0/255.255.255.0` encodes as the 14-byte network blob. */
  lemma SplitIncludeBlob(p: Parsers)
    requires p.hostFromString(FromAscii("10.0.0.0")) == Some(Host(Inet, [10, 0, 0, 0]))
    requires p.hostFromString(FromAscii("255.255.255.0")) == Some(Host(Inet, [255, 255, 255, 0]))
    ensures EncodeValue(p, FromAscii("10.0.0.0/255.255.255.0"), SubnetValue)
      == Success([10, 0, 0, 0, 255, 255, 255, 0, 0, 0, 0, 0, 0, 0])
  {
    var net := FromAscii("10.0.0.0");
    var mask := FromAscii("255.255.255.0");
    SplitIncludeText();
    assert SLASH !in net by {
      assert net == [49, 48, 46, 48, 46, 48, 46, 48];
    }
    SubnetMaskFamilyAccepted(p, net, mask);
    assert Zeros(6) == [0, 0, 0, 0, 0, 0];
    assert [10, 0, 0, 0] + [255, 255, 255, 0] + Zeros(6) == [10, 0, 0, 0, 255, 255, 255, 0, 0, 0, 0, 0, 0, 0];
  }

  lemma SplitIncludeText()
    ensures FromAscii("10.0.0.0/255.255.255.0") == FromAscii("10.0.0.0") + [SLASH] + FromAscii("255.255.255.0")
  {
    var value := FromAscii("10.0.0.0/255.255.255.0");
    var net := FromAscii("10.0.0.0");
    var mask := FromAscii("255.255.255.0");
    forall i | 0 <= i < |value|
      ensures value[i] == (net + [SLASH] + mask)[i]
    {
      if i < 8 {
      } else if i == 8 {
      } else {
        assert value[i] == mask[i - 9];
      }
    }
  }

  /** The subnet blob for a network and mask that both parse as IPv4. */
  lemma SubnetMaskFamilyAccepted(p: Parsers, net: seq<byte>, mask: seq<byte>)
    requires SLASH !in net && |net| + 1 + |mask| < TWO_64 / 2
    requires p.hostFromString(net).Some? && p.hostFromString(net).value.family == Inet
    requires p.hostFromString(mask).Some? && p.hostFromString(mask).value.family == Inet
    ensures EncodeSubnet(p.hostFromString, net + [SLASH] + mask)
      == Success(p.hostFromString(net).value.address + p.hostFromString(mask).value.address + Zeros(6))
  {
    var value := net + [SLASH] + mask;
    FirstSlashAfter(net, mask);
    assert value[..|net|] == net;
    assert value[|net| + 1..] == mask;
    SeparatorGuardNeverFires(|value|, |net|);
    assert p.hostFromString(mask).value.address[..4] == p.hostFromString(mask).value.address;
  }

  /**
    `--addattr 28676 --subnet 10.0.0.0/255.255.255.0`: the subnet object is
    released at line 132 and again at line 224 before the numeric type is
    accepted; with the pointer reset it is released once and the row is added.
   */
  lemma NumericSubnetReleasedTwice(p: Parsers, t: Table)
    requires p.hostFromString(FromAscii("10.0.0.0")) == Some(Host(Inet, [10, 0, 0, 0]))
    requires p.hostFromString(FromAscii("255.255.255.0")) == Some(Host(Inet, [255, 255, 255, 0]))
    ensures var name := FromAscii("28676");
      var value := FromAscii("10.0.0.0/255.255.255.0");
      && AddrReleasesAsWritten(p, name, value, SubnetValue) == 2
      && AddrReleasesCorrected(p, name, value, SubnetValue) == 1
      && AddAttr(p, t, name, value, SubnetValue, false).1.Success?
  {
    var name := FromAscii("28676");
    var value := FromAscii("10.0.0.0/255.255.255.0");
    NumericName28676();
    SplitIncludeBlob(p);
    assert EncodeSubnet(p.hostFromString, value).Success?;
    assert ParseAttributes(p, name, value, SubnetValue).Success?;
  }

  /** `28676` is no keyword and strtol() reads all of it. */
  lemma NumericName28676()
    ensures Lookup(FromAscii("28676")).None?
    ensures Numeric.StrToL(FromAscii("28676")).end == 5
  {
    var name := FromAscii("28676");
    assert name == [50, 56, 54, 55, 54];
    DigitNameNotInCatalog(name);
    assert Numeric.DecimalValue(name) == 28676 by {
      var d1: seq<byte> := [50];
      var d2: seq<byte> := [50, 56];
      var d3: seq<byte> := [50, 56, 54];
      var d4: seq<byte> := [50, 56, 54, 55];
      assert d1[..0] == [];
      assert Numeric.DecimalValue(d1) == 2;
      assert d2[..1] == d1;
      assert Numeric.DecimalValue(d2) == 28;
      assert d3[..2] == d2;
      assert Numeric.DecimalValue(d3) == 286;
      assert d4[..3] == d3;
      assert Numeric.DecimalValue(d4) == 2867;
      assert name[..4] == d4;
    }
    Numeric.PlainNumberIsTypeCode(name);
  }

  /** `foobar` is neither a keyword nor a number: adding it fails and stores nothing. */
  lemma AddFoobarRejected(p: Parsers, t: Table)
    ensures AddAttr(p, t, FromAscii("foobar"), FromAscii("2a"), HexValue, false)
      == (t, Failure(ParseFailed(NotRecognized)))
  {
    FoobarNotInCatalog();
    FoobarNotNumeric();
  }

  lemma FoobarNotInCatalog()
    ensures Lookup(FromAscii("foobar")).None?
  {
    var n := FromAscii("foobar");
    assert n[0] == 102;
    assert !Matches(n, Entries[12]) by {
      assert FromAscii("server")[0] == 115;
    }
    assert !Matches(n, Entries[16]) by {
      assert FromAscii("banner")[0] == 98;
    }
    KeywordLengths();
    forall j | 0 <= j < |Entries|
      ensures !Matches(n, Entries[j])
    {
      if |Entries[j].keyword| == 6 {
        assert j == 12 || j == 16;
      }
    }
  }

  lemma FoobarNotNumeric()
    ensures Numeric.StrToL(FromAscii("foobar")).end == 0
  {
    var n := FromAscii("foobar");
    assert n[0] == 102;
  }

  /** `--delattr banner` selects every UNITY_BANNER row, whatever its value. */
  lemma DeleteAllBanners(p: Parsers, value: seq<byte>, x: Row)
    ensures ParseAttributes(p, FromAscii("banner"), value, NoValue)
      == Success(Resolved(StringValue, UNITY_BANNER, 0, []))
    ensures Selects(ParseAttributes(p, FromAscii("banner"), value, NoValue).value, x) <==> x.typ == UNITY_BANNER
  {
    var n := FromAscii("banner");
    forall j | 0 <= j < 16
      ensures !Matches(n, Entries[j])
    {
      KeywordLengths();
      if j == 12 {
        assert n[0] == 98 && FromAscii(Entries[12].keyword)[0] == 115;
      }
    }
    assert Entries[16].keyword == "banner";
    assert Matches(n, Entries[16]);
    assert Lookup(n) == Some(16);
  }

  /** `--delattr 25`: an unknown numeric keyword with no value is type 25 read as hex. */
  lemma NumericKeyword25(p: Parsers, value: seq<byte>)
    ensures ParseAttributes(p, FromAscii("25"), value, NoValue) == Success(Resolved(HexValue, 25, 0, []))
  {
    var n := FromAscii("25");
    assert n == [50, 53];
    assert Numeric.DecimalValue(n) == 25 by {
      assert n[..1] == [50];
      assert n[..1][..0] == [];
    }
    NumericKeyword(p, n, value);
  }
}
