# `ipsec pool` attribute management, modelled in Dafny

This project models the attribute part of strongSwan's `ipsec pool` tool. The tool manages a table of
configuration attributes. These are IKE mode-config values such as DNS, NBNS/WINS, DHCP and
internal servers, the application version, Cisco Unity banners, split-DNS names and split-include /
local-LAN subnets. A pool service hands them to remote clients.

The model covers four parts:

- **The keyword catalog** (`Catalog`). It is the static `attr_info[]` table. Each keyword maps to
  the value kind it expects, a primary attribute type and, for `dns`, `nbns`, `wins`, `dhcp` and
  `server`, an IPv6 type. The lookup is a linear, first-match, case-insensitive comparison
  (`strcaseeq`, with `tolower` of the C locale).
- **Type resolution and value encoding** (`ValueCodec.ParseAttributes`). The raw value is first
  encoded by the kind the caller declared: a string is copied, hex is decoded, an address becomes
  its 4 or 16 raw bytes, a subnet becomes a 14-byte blob, and no value gives an empty blob. Then the
  keyword is looked up. The declared kind is reconciled with the catalog's kind and the type is
  chosen. An unknown keyword is read with `strtol` as a decimal type number.
- **The store** (`AttributeStore`). `attributes(id, type, value)` is an in-memory table.
  `AddAttr` inserts one row. `DelAttr` selects rows by value or by type(s) and deletes them one id
  at a time. It is a method with a loop, and `DeleteOutcome` is its functional reference.
  `StatusAttr` lists the rows ordered by type.
- **Worked examples** (`Scenarios`). They cover concrete keywords and values: `DNS`, `8.8.8.8`,
  `10.0.0.0/255.255.255.0`, `foobar`, `banner` and `25`.

The model follows the code. One path has undefined behaviour: it releases the same object twice.
For that path the model gives the outcome the code evidently intends, and "## Findings" records it.
The following behaviours of the code are easy to misread and are stated as lemmas:

- Lines 184-185 compute the type from the address family of a declared address. Line 217 then
  replaces it with the entry's primary type. An IPv6 address for `dns` is therefore stored under
  the IPv4 DNS type (`ValueCodec.DeclaredIPv6AddressGetsPrimary`, `Scenarios.AddDnsIPv6`).
- The subnet boundary test at line 110 compares a non-positive pointer difference, converted to
  the unsigned size type, with the string length. It cannot fire for any string shorter than 2^63
  bytes, so only a missing `/` is rejected there (`ValueCodec.SeparatorGuardNeverFires`).
- The messages at lines 112 and 121 speak of an "IPv4 subnet". Line 119, however, calls the mask's
  `get_family` on the network address object, so only the network half's family is checked. A mask
  that parses as IPv6 is accepted, and its first four bytes are stored
  (`ValueCodec.SubnetMaskFamilyUnchecked`).
- A hex value of 16 bytes for an address keyword without an IPv6 type, such as `internal_ip6_dns`,
  is stored under type 0 (`ValueCodec.SingleFamilyHexIPv6GetsTypeZero`).
- Line 96 does not look at any decode error from `chunk_from_hex`, so a hex value is never rejected
  while it is encoded.
- A delete that matches nothing (lines 386-420) or a delete statement that fails (lines 343-365)
  ends the tool with a failure. Deletions made before a failed one stay done.

The numeric type codes (3, 4, 6, 7, 10, 11, 12, 23456, 23457, 28672, 28675, 28676, 28678) come from
the configuration attribute type enumeration. That enumeration follows section 3.15.1 of RFC 4306,
the strongSwan private-use server codes and the Cisco Unity codes. Its header is not part of this
model.

The library routines `host_create_from_string` and `chunk_from_hex` are not part of this model.
They reach the model as the two total functions of a `Hosts.Parsers` value. A parsed host is 4
bytes for IPv4 and 16 bytes for IPv6. Database faults are parameters: an INSERT the database
rejects, a SELECT that cannot run, and the set of row ids whose DELETE does not affect one row.

## Model

| member | source | states |
|---|---|---|
| Catalog.Lookup | src/libhydra/plugins/attr_sql/pool_attributes.c:144-146 | The result is the first catalog entry whose keyword equals the name ignoring case; no earlier entry matches; None exactly when no entry matches |
| Catalog.LookupFrom | src/libhydra/plugins/attr_sql/pool_attributes.c:144-221 | The scan from index i returns the first matching entry at or after i, or None when none from i on matches |
| Catalog.CatalogShape | src/libhydra/plugins/attr_sql/pool_attributes.c:48-74 | Every entry has a non-zero primary type; an entry has an IPv6 type exactly when its keyword is dns, nbns, wins, dhcp or server; those all expect addresses; no entry expects hex or no value |
| Catalog.DigitNameNotInCatalog | src/libhydra/plugins/attr_sql/pool_attributes.c:144-146 | A name starting with a decimal digit matches no keyword, so numeric names always reach the strtol fallback |
| Bytes.FirstIndexOf | src/libhydra/plugins/attr_sql/pool_attributes.c:109 | strchr: the returned position holds the byte and no earlier position does; None exactly when the byte does not occur |
| Numeric.StrToL | src/libhydra/plugins/attr_sql/pool_attributes.c:227 | strtol base 10: the value lies in the 64-bit long range; endptr stays within the string; when endptr stays at the start the value is 0; otherwise endptr stops right after a digit and before any further digit |
| Numeric.StrToLReads | src/libhydra/plugins/attr_sql/pool_attributes.c:227 | For every string, split into its maximal blank run, an optional sign, its maximal digit run and the rest: with digits, the value is the signed decimal value clamped to the long range and endptr is just past the digits; without digits, the value is 0 and endptr is the start |
| Numeric.ConsumesWholeName | src/libhydra/plugins/attr_sql/pool_attributes.c:227-234 | endptr reaches the end of the name exactly when the name is empty or is white space followed by an optionally signed decimal numeral (both directions) |
| Numeric.ToInt32 | src/libhydra/plugins/attr_sql/pool_attributes.c:227 | Storing the long in the 32-bit type keeps it modulo 2^32 in the signed 32-bit range, and keeps it unchanged when it already fits |
| Numeric.PlainNumberIsTypeCode | src/libhydra/plugins/attr_sql/pool_attributes.c:227 | A name made only of digits whose value fits 31 bits is consumed entirely and yields exactly its decimal value |
| ValueCodec.SeparatorGuardNeverFires | src/libhydra/plugins/attr_sql/pool_attributes.c:110 | For any slash position inside a string shorter than 2^63 bytes, the boundary test of line 110 is false |
| ValueCodec.EncodeSubnet | src/libhydra/plugins/attr_sql/pool_attributes.c:108-134 | Every failure is an invalid-subnet error; a value without '/' fails; every success is 14 bytes whose last six are zero |
| ValueCodec.SubnetEncoding | src/libhydra/plugins/attr_sql/pool_attributes.c:108-134 | A subnet is accepted exactly when it has a '/', the text before the first one parses as IPv4 and the text after it parses; the blob then gives back the network address, the first four mask bytes and six zeros |
| ValueCodec.SubnetMaskFamilyUnchecked | src/libhydra/plugins/attr_sql/pool_attributes.c:116-131 | An IPv4 network with a mask that parses as IPv6 is accepted, with the mask's first four bytes in the blob |
| ValueCodec.EncodeValue | src/libhydra/plugins/attr_sql/pool_attributes.c:89-138 | A string value is copied unchanged; hex is exactly the decoded bytes and never fails; an address succeeds exactly when it parses, and then its blob is the parsed host's 4 or 16 address bytes; otherwise it fails as an invalid address; a subnet is the subnet encoding; no value is the empty blob |
| ValueCodec.Reconcile | src/libhydra/plugins/attr_sql/pool_attributes.c:148-219 | A resolved attribute takes the catalog's kind and keeps the blob; its type is the entry's primary or IPv6 type; an IPv6 type is carried only for a value-less request; it fails exactly for a declared kind other than hex that differs from the catalog's, or for hex of a length other than 4 or 16 against an address keyword |
| ValueCodec.NumericFallback | src/libhydra/plugins/attr_sql/pool_attributes.c:226-239 | An unknown keyword is accepted exactly when strtol consumes the whole name, and otherwise fails as not recognized; the type is the strtol value modulo 2^32 in the signed 32-bit range; the IPv6 type is 0; no value becomes hex |
| ValueCodec.ParseAttributes | src/libhydra/plugins/attr_sql/pool_attributes.c:79-240 | Encoding errors come first; a success carries the encoded blob and never a value-less kind; an IPv6 type appears only for a value-less request with an empty blob; a declared kind other than hex or none is kept |
| ValueCodec.AddrReleasesAsWritten | src/libhydra/plugins/attr_sql/pool_attributes.c:99-224 | As written, the address object is released at most twice, and twice exactly for a subnet value that encodes and whose keyword is missing from the catalog or requires another kind |
| ValueCodec.AddrReleasesCorrected | src/libhydra/plugins/attr_sql/pool_attributes.c:99-224 | With the pointer reset after its release at line 132, the address object is released exactly once when it was obtained and never otherwise |
| ValueCodec.ValueLessLookup | src/libhydra/plugins/attr_sql/pool_attributes.c:148-153 | With no value, a catalog keyword yields its kind, its primary and its IPv6 type, and an empty blob |
| ValueCodec.KindMismatchRejected | src/libhydra/plugins/attr_sql/pool_attributes.c:155-181 | A catalog keyword given an encodable value of another kind, other than hex, is rejected naming the kind the keyword requires |
| ValueCodec.HexAgainstAddress | src/libhydra/plugins/attr_sql/pool_attributes.c:188-209 | Hex for an address keyword becomes an address: 4 bytes take the primary type, 16 bytes the IPv6 type, any other length is rejected |
| ValueCodec.HexAgainstOther | src/libhydra/plugins/attr_sql/pool_attributes.c:188-213 | Hex for a string or subnet keyword takes the entry's kind and primary type, whatever the length of the decoded bytes |
| ValueCodec.NonHexMatchKeepsPrimary | src/libhydra/plugins/attr_sql/pool_attributes.c:182-218 | With a declared kind other than hex or none, every successful resolution of a catalog keyword has the entry's primary type, the declared kind and IPv6 type 0 |
| ValueCodec.DeclaredIPv6AddressGetsPrimary | src/libhydra/plugins/attr_sql/pool_attributes.c:182-218 | An IPv6 address for an address keyword is accepted as 16 bytes under the entry's primary type |
| ValueCodec.SingleFamilyHexIPv6GetsTypeZero | src/libhydra/plugins/attr_sql/pool_attributes.c:192-201 | 16 hex bytes for an address keyword without an IPv6 type resolve to type 0 |
| ValueCodec.UnknownKeywordFallback | src/libhydra/plugins/attr_sql/pool_attributes.c:226-239 | For an unknown keyword: accepted exactly when the name is empty or a decimal numeral; then the type is the converted number, the IPv6 type 0, and no value becomes hex; otherwise not recognized |
| ValueCodec.EmptyNameIsTypeZero | src/libhydra/plugins/attr_sql/pool_attributes.c:141-142 | An empty keyword matches no entry and resolves to type 0 |
| ValueCodec.NumericKeyword | src/libhydra/plugins/attr_sql/pool_attributes.c:226-238 | A digits-only keyword with no value resolves to hex, its decimal value as type, IPv6 type 0 and an empty blob |
| AttributeStore.AddAttr | src/libhydra/plugins/attr_sql/pool_attributes.c:245-277 | No value fails and changes nothing; every failure leaves the table unchanged; success happens exactly when parsing succeeds and the insert is not rejected; it then appends exactly one new row with the next id, the resolved type and the blob; it keeps ids unique |
| AttributeStore.Selected | src/libhydra/plugins/attr_sql/pool_attributes.c:294-317 | The query result holds exactly the rows of the table that the WHERE clause selects |
| AttributeStore.DeleteEachRemovesIds | src/libhydra/plugins/attr_sql/pool_attributes.c:340-342 | Deleting by id row after row leaves exactly the rows whose id is not one of the deleted rows' ids |
| AttributeStore.DeleteRows | src/libhydra/plugins/attr_sql/pool_attributes.c:327-365 | The loop deletes the selected rows in order; with no refused delete, all are gone; otherwise it stops at the first refused one, reports it, and only the rows before it are gone |
| AttributeStore.DelAttr | src/libhydra/plugins/attr_sql/pool_attributes.c:282-422 | The method with its delete loop has the same outcome as the functional reference DeleteOutcome: parse error, query failure, not found, all deleted, or stopped at the first refused delete |
| AttributeStore.DeleteRemovesExactlySelected | src/libhydra/plugins/attr_sql/pool_attributes.c:294-383 | A successful delete returns the selected rows, of which there is at least one; afterwards a row is present exactly when it was present and not selected; ids stay unique |
| AttributeStore.DeleteAbortKeepsRest | src/libhydra/plugins/attr_sql/pool_attributes.c:340-365 | When a delete is refused, that row was selected and is still present, every unselected row is still present, the selected rows before it are gone, and no row appears from nowhere |
| AttributeStore.ValueLessDeleteMatchesBothFamilies | src/libhydra/plugins/attr_sql/pool_attributes.c:310-317 | A value-less delete of a dual-family keyword selects exactly the rows of either of its two types |
| AttributeStore.ValuedDeleteSelection | src/libhydra/plugins/attr_sql/pool_attributes.c:294-309 | A delete with a declared kind selects type and value exactly when the blob is non-empty, and the type alone when it is empty; it never selects by the IPv6 type |
| AttributeStore.AddThenDelete | src/libhydra/plugins/attr_sql/pool_attributes.c:257-342 | After a successful add, deleting with the same arguments succeeds, returns the added row and removes it, and keeps every row it does not select |
| AttributeStore.SortByType | src/libhydra/plugins/attr_sql/pool_attributes.c:436 | The listing is sorted by ascending type and is a permutation of its input |
| AttributeStore.StatusAttr | src/libhydra/plugins/attr_sql/pool_attributes.c:436-456 | The listing holds every row's type and value exactly once, ordered by ascending type; nothing is listed when the query cannot run |
| AttributeStore.StatusShowsAdded | src/libhydra/plugins/attr_sql/pool_attributes.c:436 | After a successful add, the status listing contains the added type and value |
| Scenarios.UpperCaseDnsIsDns | src/libhydra/plugins/attr_sql/pool_attributes.c:51-52 | `DNS` in upper case finds the `dns` entry, with INTERNAL_IP4_DNS and INTERNAL_IP6_DNS |
| Scenarios.AddDnsIPv4 | src/libhydra/plugins/attr_sql/pool_attributes.c:245-263 | Adding `dns` with 8.8.8.8 appends the row (INTERNAL_IP4_DNS, 08 08 08 08) |
| Scenarios.AddDnsIPv6 | src/libhydra/plugins/attr_sql/pool_attributes.c:182-218 | Adding `dns` with an IPv6 address stores its 16 bytes under INTERNAL_IP4_DNS |
| Scenarios.AddSplitInclude | src/libhydra/plugins/attr_sql/pool_attributes.c:108-134 | Adding `unity_split_include` with 10.0.0.0/255.255.255.0 stores 0A 00 00 00 FF FF FF 00 and six zero bytes under UNITY_SPLIT_INCLUDE |
| Scenarios.SplitIncludeBlob | src/libhydra/plugins/attr_sql/pool_attributes.c:126-131 | The subnet 10.0.0.0/255.255.255.0 encodes to the 14-byte blob 0A 00 00 00 FF FF FF 00 00 00 00 00 00 00 |
| Scenarios.NumericSubnetReleasedTwice | src/libhydra/plugins/attr_sql/pool_attributes.c:132-224 | For keyword `28676` with subnet 10.0.0.0/255.255.255.0, the code as written releases the address object twice; the corrected code releases it once; the add succeeds |
| Scenarios.AddFoobarRejected | src/libhydra/plugins/attr_sql/pool_attributes.c:226-234 | Adding `foobar` as hex fails as not recognized and leaves the table unchanged |
| Scenarios.DeleteAllBanners | src/libhydra/plugins/attr_sql/pool_attributes.c:302-309 | A value-less delete of `banner` selects exactly the UNITY_BANNER rows, whatever their value |
| Scenarios.NumericKeyword25 | src/libhydra/plugins/attr_sql/pool_attributes.c:226-238 | The keyword `25` with no value resolves to hex, type 25 and an empty blob |

## Left out

- src/libcharon/plugins/vici/vici_cred.c: the credential loading over the control channel is a
  separate component. It consists of calls into the credential factory and credential set, whose
  behaviour cannot be seen here.
- `show_attr` and all `printf`/`fprintf` text, including the row formatting of `status_attr` and
  the messages of `del_attr`. These only format output. `del_attr` also calls
  `host_create_from_chunk` for these messages only.
- SQL text and the global database handle: the table is an in-memory sequence of rows. A row's id
  is the next id of the table, standing in for the database's row ids.
- The order of the delete query's rows: the query has no ORDER BY, and the model uses table order.
- NUL bytes: names and values are argv strings, which contain no NUL byte. The model's byte
  sequences may contain byte 0, where `strlen`, `strcasecmp` and `strtol` would stop. Such inputs
  have no counterpart in the tool.
- Data model: `long` and `size_t` are taken to be 64 bits wide (LP64), in `Numeric.LONG_MIN`,
  `Numeric.LONG_MAX` and `ValueCodec.TWO_64`.
- Numeric.ToInt32: gives the signed 32-bit value that the `DB_INT` binding passes to the database.
  GCC gives the attribute type enumeration an unsigned type, so `*type` itself holds the same 32
  bits read as unsigned.
- ValueCodec.NumericFallback: for a subnet value, the code reaches this point after releasing the
  address object twice (lines 132 and 224), which is undefined behaviour. The model returns the
  success the code evidently intends; see "## Findings".
- ValueCodec.Reconcile: for a subnet value, the kind-mismatch exit releases the address object a
  second time (lines 132 and 178). The model returns the kind mismatch the code evidently intends;
  see "## Findings".
- `host_create_from_string` and `chunk_from_hex`: library parsers whose code is not part of this
  model. They are parameters. Malformed hex has no error path, because the code never checks for one.
- `free`, `destroy`, `exit` and `usage`: memory release and process exit. Exits become `Failure`
  results.
- Concurrent writers: a delete refused by the database is given as a parameter. The model does not
  describe another process removing rows.
- AttributeStore.AddAttr: an insert that reports other than one affected row is modelled as
  storing nothing. The code only sees the count and does not say what the database stored.
- AttributeStore.StatusAttr: ORDER BY type leaves the order among rows of equal type open. The
  contract states only ascending type and a permutation. The sort used is one admissible order.

## Findings

| source | as written | input that shows it | evidently intended | confidence | as-written member | corrected member |
|---|---|---|---|---|---|---|
| src/libhydra/plugins/attr_sql/pool_attributes.c:132-224 | The subnet branch releases `addr` at line 132 but leaves the pointer set. The kind-mismatch exit (line 178) and the numeric fallback (line 224) then release it again with `DESTROY_IF`. | `--addattr 28676 --subnet 10.0.0.0/255.255.255.0`, or `--addattr dns --subnet 10.0.0.0/255.255.255.0` | Reset `addr` to NULL after line 132, so the object is released exactly once, and the add or the kind-mismatch error proceeds | high; not executed | ValueCodec.AddrReleasesAsWritten, Scenarios.NumericSubnetReleasedTwice | ValueCodec.AddrReleasesCorrected |
