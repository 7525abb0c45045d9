# dns-zone-builder in Dafny

dns-zone-builder reads a configuration file that describes DNS zones. Each
zone has subdomains, each subdomain has record declarations (SOA, NS, A,
AAAA, MX, CNAME, TXT, PTR), and strings may hold `{key}` placeholders. In
two passes the program fills a registry of zones (`ZoneStorage`) with
resolved resource records:

- The first pass registers every zone whose name is new and remembers
  which zones are the IPv4 and IPv6 reverse zones.
- The second pass makes each registered zone current and resolves its
  subdomains' records into it. It appends a PTR record to the reverse zone
  for every A or AAAA record marked for reverse lookup, and a blank line
  after each subdomain.

Each zone is then rendered as a zone-file text. Beside that pipeline, the
repository has CIDR block arithmetic (`Ipv4AddrCidr`, `Ipv6AddrCidr`, the
free functions of `net.rs`) and bit-mask helpers (`bits.rs`).

The modules follow the source:

| module | file | models |
|---|---|---|
| `Bitwise` | bitwise.dfy | unsigned w-bit values as `nat`, with shifts, masks, `And`, `Or` and `Not` written out |
| `Octets` | octets.dfy | addresses as octet sequences; `ipv4_to_u32`, `ipv6_to_u128` and their inverses |
| `Text` | text.dfy | decimal and hex numerals, join/split, `str::replace`, the `{key}` scanner |
| `AddrText` | addr_text.dfy | dotted-quad text of an IPv4 address |
| `Cidr` | cidr.dfy | block start, finish and membership, shared by both address families |
| `Net` | net.dfy | classes `Ipv4AddrCidr` and `Ipv6AddrCidr`, which the source mutates in place |
| `NetLegacy` | net_legacy.dfy | the free functions of `src/net.rs` |
| `Bits` | bits.dfy | the `flip_*` helpers, as methods returning the updated value |
| `DnsRecord` | record.dfy | the `Record` enum and its one-line rendering |
| `DnsZone` | zone.dfy | class `Zone` and its rendering |
| `DnsReverse` | reverse.dfy | `in-addr.arpa.` and `ip6.arpa.` names, built by the source's loops |
| `DnsStorage` | storage.dfy | `ZoneStorage` as a value `Store` with one function per method, and as a class whose methods are proved against those functions |
| `ConfigFile` | config.dfy | the configuration's data types |
| `Context` | context.dfy | `ConfigContext`, `ZoneContext`, `SubDomainContext` |
| `Resolve` | resolve.dfy | `main.rs`'s resolution of records, as functions from registry to registry, and the properties of both passes |
| `App` | app.dfy | `main.rs` as it runs: methods with the source's loops that mutate a `ZoneStorage`, each proved to match `Resolve` |

Unsigned integer types are `nat` with an explicit bound, such as
`x < Pow2(32)`. Where the source's fixed width overflows, the overflow is
modelled as an outcome of its own (see "## Findings").

## Model

| member | source | states |
|---|---|---|
| Octets.Ipv4ToU32 | src/net/mod.rs:7-9 | the big-endian value of the four octets fits in 32 bits |
| Octets.Ipv4ToU32Octets | src/net/mod.rs:7-9 | the value is o0·2^24 + o1·2^16 + o2·2^8 + o3 |
| Octets.Ipv4FromU32 | src/net/mod.rs:7-9 | the address built from a 32-bit value converts back to that value |
| Octets.Ipv4RoundTrip | src/net/mod.rs:7-9 | converting an address to its value and back gives the same address |
| Octets.Ipv6ToU128 | src/net/mod.rs:12-14 | the big-endian value of the sixteen octets fits in 128 bits |
| Octets.Ipv6FromU128 | src/net/mod.rs:12-14 | the address built from a 128-bit value converts back to that value |
| Octets.Ipv6RoundTrip | src/net/mod.rs:12-14 | converting an address to its value and back gives the same address |
| Octets.Ipv6FromSegments | src/net/mod.rs:132-141 | each 16-bit segment passed to `Ipv6AddrCidr::new` is the matching octet pair of the address |
| Octets.SegmentOfValue | src/dns/mod.rs:43 | segment 7 - m of an address is the m-th 16-bit group of its value |
| Octets.BeValueOfBytes | src/net/mod.rs:7-14 | the bytes of a value below 2^(8n) read back as that value |
| Octets.BytesOfBeValue | src/net/mod.rs:7-14 | a byte sequence is the encoding of its own value |
| Octets.BeByte | src/net/mod.rs:7-14 | byte k from the right is the value's k-th base-256 digit |
| Octets.BeValueBound | src/net/mod.rs:7-14 | n bytes encode a value below 2^(8n) |
| Text.Decimal | src/dns/record.rs:80-81 | the decimal text of a number is a non-empty run of digits |
| Text.DecimalRoundTrip | src/dns/record.rs:80-81 | reading back the decimal text of a number gives the number |
| Text.OctetDigits | src/dns/mod.rs:22-29 | an octet prints as one to three digits |
| Text.SignedDecimal | src/dns/record.rs:64-73 | an `i32` prints as a numeral, optional `-` then digits, that starts with `-` exactly when the value is negative; `SignedDecimalRoundTrip` shows it reads back as the value |
| Text.SignedDecimalRoundTrip | src/dns/record.rs:64-73 | the printed `i32` is a numeral that reads back as the same number |
| Text.HexDigit | src/dns/mod.rs:46 | a nibble prints as one lower-case hex digit |
| Text.HexDigitInjective | src/dns/mod.rs:46 | distinct nibbles print as distinct digits |
| Text.SplitJoin | src/dns/record.rs:60-93 | splitting at c the parts joined by c recovers them, when none of them contains c |
| Text.JoinAvoids | src/dns/record.rs:60-93 | a character in neither the separator nor any part is not in the joined text |
| Text.JoinLength | src/dns/record.rs:60-93 | joined length is the parts' total plus one separator between each two parts |
| Text.KeyEnd | src/main.rs:13 | the key after `{` runs to the first character outside `[_0-9a-zA-Z]` |
| Text.KeysAreMatches | src/main.rs:13 | every key the scan yields is a non-empty `[_0-9a-zA-Z]+` word whose `{key}` occurs in the string |
| Text.NoBraceNoKeys | src/main.rs:13 | a string without `{` has no keys |
| Text.KeysAtPlaceholder | src/main.rs:13 | at a `{key}` the scan yields that key, then goes on after the placeholder |
| Text.SingleKey | src/main.rs:13 | a string with one placeholder yields exactly that key |
| Text.ReplaceAllAbsent | src/main.rs:319-321 | replacing a pattern that does not occur changes nothing |
| Text.ReplaceAllSelf | src/main.rs:319-321 | replacing a pattern by itself changes nothing |
| Text.ReplaceSingle | src/main.rs:319-321 | replacing the one placeholder of a string splices the value in its place |
| Text.KeysOfFill | src/main.rs:13 | in a text of `{key}` placeholders separated by text without `{`, the scan yields exactly the placeholders' keys, in order and with repetitions |
| Text.KeysAfterPlaceholder | src/main.rs:13 | after text without `{`, a placeholder's key is found first and the scan goes on with what follows it |
| Text.KeysShift | src/main.rs:13 | helper: the scan from inside a suffix finds what it finds in the suffix alone |
| Text.PlaceholderStart | src/main.rs:13 | helper: no placeholder is a prefix of another key's placeholder |
| Text.PlaceholderInjective | src/main.rs:319-321 | helper: distinct keys have distinct placeholders |
| Text.ReplaceFill | src/main.rs:319-321 | replacing one key's placeholder in such a text replaces exactly the slots holding that placeholder and keeps everything else |
| AddrText.OctetTexts | src/dns/mod.rs:22-29 | one decimal text per octet, in order |
| AddrText.DottedSnoc | src/dns/mod.rs:22-29 | the first octet is written alone, and each later one as `.` and its digits |
| AddrText.DottedRoundTrip | src/dns/mod.rs:22-29 | dotted decimal text parses back to the octets it was made from |
| AddrText.Ipv4TextRoundTrip | src/dns/record.rs:76-77 | the text of an A record's address parses back to that address |
| AddrText.DottedLength | src/dns/mod.rs:19 | n octets take between 2n - 1 and 4n - 1 characters, so 15 for four octets |
| AddrText.TotalLengthBounds | src/dns/mod.rs:19 | n octets' digits take between n and 3n characters |
| Cidr.Avail | src/net/mod.rs:75-77 | a block of prefix length 1 ..= w holds 2^(w - cidr) addresses, at most half the space |
| Cidr.StartValue | src/net/mod.rs:83-85 | the block start is the address with its host bits cleared: aligned, at or below the address, within one block of it |
| Cidr.FinishValue | src/net/mod.rs:91-93 | the block finish is start + size - 1, at or above the address and inside the space |
| Cidr.InRangeBounds | src/net/mod.rs:99-106 | `in_range` holds exactly for start <= check <= finish |
| Cidr.BlockSize | src/net/mod.rs:75-93 | finish - start + 1 is the block size, and the address lies between them |
| Cidr.InRangeSameBlock | src/net/mod.rs:99-106 | `in_range` holds exactly when both addresses share the network bits |
| Cidr.OwnAddressInRange | src/net/mod.rs:99-106 | an address is in its own block |
| Cidr.HostRoute | src/net/mod.rs:99-106 | with prefix length w only the address itself is in range |
| Cidr.SameBlockSameStart | src/net/mod.rs:83-85 | every address in a block has the same block start |
| Cidr.SetCidrAsWrittenBreaksValidity | src/net/mod.rs:58-65 | as written, the accepted prefix lengths are exactly those `check_cidr` rejects, so a successful set leaves an unusable length |
| Cidr.SetCidrAsWrittenExample | src/net/mod.rs:58-65 | as written, setting /0 on a /24 succeeds and setting /16 fails |
| Cidr.SetCidrCheckedKeepsValidity | src/net/mod.rs:58-65 | the corrected setter accepts exactly 1 ..= w, stores it, and keeps a usable length |
| Net.Ipv4AddrCidr.constructor | src/net/mod.rs:16-19 | the fields are the given address and prefix length |
| Net.Ipv4AddrCidr.CheckCidr | src/net/mod.rs:23-25 | definition: a prefix length is refused when it is 0 or above 32; `New`, `FromAddr` and `SetCidrChecked` state their errors through it |
| Net.Ipv4AddrCidr.New | src/net/mod.rs:27-36 | fails with InvalidV4Cidr exactly for a prefix length outside 1 ..= 32, else holds the four octets and the length |
| Net.Ipv4AddrCidr.FromAddr | src/net/mod.rs:38-44 | fails with InvalidV4Cidr exactly for a prefix length outside 1 ..= 32, else holds the address and the length |
| Net.Ipv4AddrCidr.SetAddr | src/net/mod.rs:46-48 | the address is replaced and the prefix length kept |
| Net.Ipv4AddrCidr.SetCidr | src/net/mod.rs:58-65 | stores and reports as the as-written `set_cidr`, and keeps the address |
| Net.Ipv4AddrCidr.SetCidrChecked | src/net/mod.rs:58-65 | stores and reports as the corrected setter, keeps the address and a valid prefix length |
| Net.Ipv4AddrCidr.AvailableAddresses | src/net/mod.rs:75-77 | 2^(32 - cidr), at most 2^31 |
| Net.Ipv4AddrCidr.AsU32 | src/net/mod.rs:79-81 | the address's value fits in 32 bits |
| Net.Ipv4AddrCidr.StartU32 | src/net/mod.rs:83-85 | the address with the host bits cleared: aligned to the block size and at most the address |
| Net.Ipv4AddrCidr.Start | src/net/mod.rs:87-89 | the address whose value is the block start |
| Net.Ipv4AddrCidr.FinishU32 | src/net/mod.rs:91-93 | start + size - 1, between the address and 2^32 - 1 |
| Net.Ipv4AddrCidr.Finish | src/net/mod.rs:95-97 | the address whose value is the block finish |
| Net.Ipv4AddrCidr.InRange | src/net/mod.rs:99-106 | holds exactly for start <= check <= finish, that is, for the same network bits |
| Net.Ipv6AddrCidr.constructor | src/net/mod.rs:121-124 | the fields are the given address and prefix length |
| Net.Ipv6AddrCidr.CheckCidr | src/net/mod.rs:128-130 | definition: a prefix length is refused when it is 0 or above 128 |
| Net.Ipv6AddrCidr.New | src/net/mod.rs:132-141 | fails with InvalidV6Cidr exactly for a prefix length outside 1 ..= 128, else holds the address of the eight segments and the length |
| Net.Ipv6AddrCidr.FromAddr | src/net/mod.rs:143-149 | fails with InvalidV6Cidr exactly for a prefix length outside 1 ..= 128, else holds the address and the length |
| Net.Ipv6AddrCidr.SetCidr | src/net/mod.rs:159-166 | stores and reports as the as-written `set_cidr`, and keeps the address |
| Net.Ipv6AddrCidr.SetCidrChecked | src/net/mod.rs:159-166 | stores and reports as the corrected setter, keeps the address and a valid prefix length |
| Net.Ipv6AddrCidr.AvailableAddresses | src/net/mod.rs:176-178 | 2^(128 - cidr), at most 2^127 |
| Net.Ipv6AddrCidr.AsU128 | src/net/mod.rs:180-182 | the address's value fits in 128 bits |
| Net.Ipv6AddrCidr.StartU128 | src/net/mod.rs:184-186 | the address with the host bits cleared: aligned to the block size and at most the address |
| Net.Ipv6AddrCidr.Start | src/net/mod.rs:188-190 | the address whose value is the block start |
| Net.Ipv6AddrCidr.FinishU128 | src/net/mod.rs:192-194 | start + size - 1, between the address and 2^128 - 1 |
| Net.Ipv6AddrCidr.Finish | src/net/mod.rs:196-198 | the address whose value is the block finish |
| Net.Ipv6AddrCidr.InRange | src/net/mod.rs:200-207 | holds exactly for start <= check <= finish, that is, for the same network bits |
| Net.IpAddrCidr.IsIpv4 | src/net/mod.rs:229-241 | `is_ipv4` and `is_ipv6` are each other's negation |
| NetLegacy.CidrCalcAsWritten | src/net.rs:3-17 | definition: `cidr_calc` as written, refusing only prefix lengths above w and overflowing where 2^(w - cidr) does not fit in w bits; `CidrCalcAsWrittenOverflows` and `CidrCalcIsAvail` state its behaviour |
| NetLegacy.InCidrRangeAsWritten | src/net.rs:19-47 | definition: `in_cidr_range` as written, overflowing where `start + avail` does not fit in w bits; `InCidrRangeAsWrittenOverflows` and `InCidrRangeAgrees` state its behaviour |
| NetLegacy.CidrCalcAsWrittenOverflows | src/net.rs:3-17 | as written, prefix length 0 passes the guard and the block size 2^w overflows |
| NetLegacy.InCidrRangeAsWrittenOverflows | src/net.rs:19-47 | as written, 255.255.255.255 with /32 overflows `start + avail`, and so does /0 |
| NetLegacy.CidrCalc | src/net.rs:3-17 | None exactly for prefix length 0 or above w, else 2^(w - cidr), between 1 and 2^w - 1 |
| NetLegacy.V4CidrCalc | src/net.rs:3-9 | the same at width 32 |
| NetLegacy.V6CidrCalc | src/net.rs:11-17 | the same at width 128 |
| NetLegacy.CidrCalcIsAvail | src/net.rs:3-17 | defined exactly where `check_cidr` accepts, where it equals the block size of `Ipv4AddrCidr`; agrees with the original wherever that does not overflow |
| NetLegacy.InAddrRange | src/net.rs:30-36 | definition: start <= check < end on the numeric values; `InCidrRange` and `InCidrRangeIsAddrRange` are stated through it |
| NetLegacy.V4InAddrRange | src/net.rs:30-36 | definition: the same test on the `u32` values of IPv4 addresses |
| NetLegacy.V6InAddrRange | src/net.rs:49-55 | definition: the same test on the `u128` values of IPv6 addresses |
| NetLegacy.InAddrRangeEmpty | src/net.rs:30-36 | helper: a range whose end is not above its start holds nothing |
| NetLegacy.InCidrRange | src/net.rs:19-47 | None exactly for an unusable prefix length, else whether start <= check < start + 2^(w - cidr) |
| NetLegacy.InCidrRangeAgrees | src/net.rs:19-47 | wherever the original does not overflow, the corrected test answers as it does |
| NetLegacy.StartInOwnBlock | src/net.rs:19-47 | the start is in its own block for every usable prefix length, the top address included |
| NetLegacy.V4InCidrRange | src/net.rs:19-28 | the same on IPv4 addresses |
| NetLegacy.V6InCidrRange | src/net.rs:38-47 | the same on IPv6 addresses |
| NetLegacy.InCidrRangeIsAddrRange | src/net.rs:19-55 | the CIDR test is the address-range test with end = start + block size |
| NetLegacy.AlignedAgreesWithMasked | src/net.rs:19-28 | from a block-aligned start, the legacy test agrees with `Ipv4AddrCidr::in_range` |
| NetLegacy.UnalignedStartDisagrees | src/net.rs:19-28 | from start 5 with /30, the legacy test accepts 8 and `in_range` does not |
| Bits.FlipAsWritten | src/bits.rs:3-75 | definition: the four helpers as written, with the shift that overflows on a full-width amount; `FlipAsWrittenOverflows` states where |
| Bits.FlipAsWrittenOverflows | src/bits.rs:3-75 | as written, the shift overflows exactly for setting 0 bits or clearing all w bits |
| Bits.FlipOnLeft | src/bits.rs:3-19 | succeeds exactly for bits <= w; then the top `bits` bits are set, the rest kept, and no bit of the input is lost; on failure the value is unchanged |
| Bits.FlipOnRight | src/bits.rs:21-37 | succeeds exactly for bits <= w; then the low `bits` bits are set and the rest kept; on failure the value is unchanged |
| Bits.FlipOffLeft | src/bits.rs:41-57 | succeeds exactly for bits <= w; then the top `bits` bits are cleared, the rest kept, and no bit is added; on failure the value is unchanged |
| Bits.FlipOffRight | src/bits.rs:59-75 | succeeds exactly for bits <= w; then the low `bits` bits are cleared and the rest kept; on failure the value is unchanged |
| DnsRecord.Render | src/dns/record.rs:60-93 | definition: `Display for Record`, mnemonic and fields by variant; the lemmas below state its layout |
| DnsRecord.RenderIsTabSeparated | src/dns/record.rs:60-93 | each record prints as its fields joined by tabs |
| DnsRecord.FieldsRecoverable | src/dns/record.rs:60-93 | when no field contains a tab, splitting the line at tabs gives back the fields |
| DnsRecord.RenderOneLine | src/dns/record.rs:60-93 | when no field contains a newline, the record prints on one line |
| DnsRecord.SoaLine | src/dns/record.rs:64-73 | an SOA prints as name, IN, SOA, domain and email by tabs, then the five timers in parentheses |
| DnsRecord.SoaOneLine | src/dns/record.rs:64-73 | an SOA whose names have no newline prints on one line |
| DnsRecord.SoaTimersOneLine | src/dns/record.rs:65-70 | the timer part never holds a newline |
| DnsRecord.NumeralHasNoNewline | src/dns/record.rs:65-70 | a printed `i32` holds no newline |
| DnsRecord.MxLayout | src/dns/record.rs:80-81 | an MX prints priority then domain as fields 4 and 5, and the priority reads back |
| DnsRecord.Join4 | src/dns/record.rs:74-87 | helper: four fields joined by a separator |
| DnsRecord.Join5 | src/dns/record.rs:80-81 | helper: five fields joined by a separator |
| DnsZone.Zone.constructor | src/dns/zone.rs:15-24 | a new zone has the given name and origin and no records |
| DnsZone.Zone.AddRecord | src/dns/zone.rs:42-44 | the record is appended at the end |
| DnsZone.Zone.Render | src/dns/zone.rs:47-63 | the text is the zone's records printed in order, a newline between each two |
| DnsZone.ZoneText | src/dns/zone.rs:47-63 | definition: `Display for Zone`, the records' lines with a newline between each two; the lemmas below state what it holds |
| DnsZone.ZoneTextSnoc | src/dns/zone.rs:47-63 | one more record adds a newline and its line at the end |
| DnsZone.EmptyZoneText | src/dns/zone.rs:47-63 | a zone without records prints as nothing |
| DnsZone.SingleRecordZoneText | src/dns/zone.rs:47-63 | a zone with one record prints as that record's line |
| DnsZone.ZoneLines | src/dns/zone.rs:47-63 | when no record holds a newline, splitting the text at newlines gives back each record's line |
| DnsReverse.Reversed | src/dns/mod.rs:11-16 | the reversal has the same length and the elements in mirrored positions |
| DnsReverse.ReversedTwice | src/dns/mod.rs:11-16 | helper: reversing twice is the identity |
| DnsReverse.Ipv4ReverseString | src/dns/mod.rs:18-38 | the loop builds the octets in reverse, dotted, with `.in-addr.arpa.` when asked |
| DnsReverse.Ipv4ReverseName | src/dns/mod.rs:18-38 | definition: the octets reversed and dotted, with `.in-addr.arpa.` when asked; `Ipv4ReverseString` is proved to build it and `Ipv4ReverseNameInverse` and `Ipv4ReverseNameLength` state its properties |
| DnsReverse.Ipv4ReverseNameInverse | src/dns/mod.rs:18-38 | without the suffix, the name parses back to the reversed octets, so the address is recoverable |
| DnsReverse.Ipv4ReverseNameLength | src/dns/mod.rs:19 | 7 to 15 characters without the suffix and 21 to 29 with it, within the capacity reserved |
| DnsReverse.Hex4 | src/dns/mod.rs:46 | `{:04x}` of a segment is four characters |
| DnsReverse.SegmentCharsNibble | src/dns/mod.rs:46-47 | character h of the reversed hex text is the segment's h-th nibble |
| DnsReverse.NibbleChars | src/dns/mod.rs:45-57 | the remaining segments give four characters each |
| DnsReverse.NibbleCharsAt | src/dns/mod.rs:45-57 | character j comes from segment 7 - j / 4, position j % 4 |
| DnsReverse.NibbleOrder | src/dns/mod.rs:45-57 | character j is the address's j-th nibble counted from the least significant |
| DnsReverse.DottedChars | src/dns/mod.rs:49-56 | n characters dotted take 2n - 1 characters |
| DnsReverse.DottedCharsSnoc | src/dns/mod.rs:50-55 | the first character is written alone and each later one after a dot |
| DnsReverse.DottedCharsAt | src/dns/mod.rs:49-56 | even positions hold the characters in order, odd positions the dots |
| DnsReverse.DottedCharsSplit | src/dns/mod.rs:49-56 | splitting at dots gives back one label per character |
| DnsReverse.DottedCharsJoin | src/dns/mod.rs:49-56 | dotting is joining one-character labels with `.` |
| DnsReverse.WriteLabels | src/dns/mod.rs:49-56 | the inner loop extends the dotted text by the segment's characters and keeps the first-label flag |
| DnsReverse.Ipv6ReverseString | src/dns/mod.rs:40-64 | the loops build the nibbles in reverse, dotted, with `.ip6.arpa.` when asked |
| DnsReverse.Ipv6ReverseName | src/dns/mod.rs:40-64 | definition: the 32 nibbles from the least significant, dotted, with `.ip6.arpa.` when asked; `Ipv6ReverseString` is proved to build it and `Ipv6ReverseNameNibbles` states its layout |
| DnsReverse.Ipv6ReverseNameNibbles | src/dns/mod.rs:40-64 | 63 characters, or 73 with the suffix; position 2j is the j-th least significant nibble and position 2j + 1 a dot |
| DnsReverse.IpReverseString | src/dns/mod.rs:66-71 | dispatches to the IPv4 or IPv6 name by the address family |
| DnsReverse.IpReverseName | src/dns/mod.rs:66-71 | definition: the reverse name of the address's family |
| DnsStorage.EmptyStoreSpec | src/dns/mod.rs:82-89 | the new registry has no zones and no current or reverse zone |
| DnsStorage.EmptyStore | src/dns/mod.rs:82-89 | definition: the registry `ZoneStorage::new` builds; `EmptyStoreSpec` states it |
| DnsStorage.Store.SetCurrent | src/dns/mod.rs:91-98 | definition: `set_current` on the registry value; `SetCursorSpec` states it |
| DnsStorage.Store.SetRv4 | src/dns/mod.rs:100-107 | definition: `set_rv4` on the registry value; `SetCursorSpec` states it |
| DnsStorage.Store.SetRv6 | src/dns/mod.rs:109-116 | definition: `set_rv6` on the registry value; `SetCursorSpec` states it |
| DnsStorage.Store.AddZone | src/dns/mod.rs:118-126 | definition: `add_zone` on the registry value; `AddZoneSpec` states it |
| DnsStorage.Store.HasZone | src/dns/mod.rs:128-130 | definition: `has_zone`, whether the name is a key of the zone map |
| DnsStorage.Store.AddRecord | src/dns/mod.rs:132-139 | definition: `add_record` on the registry value; `AddRecordSpec` states it |
| DnsStorage.Store.ZoneAddRecord | src/dns/mod.rs:141-148 | definition: `zone_add_record` on the registry value; `ZoneAddRecordSpec` states it |
| DnsStorage.Store.Rv4AddRecord | src/dns/mod.rs:150-157 | definition: `rv4_add_record` on the registry value; `ReverseAddRecordSpec` states it |
| DnsStorage.Store.Rv6AddRecord | src/dns/mod.rs:159-166 | definition: `rv6_add_record` on the registry value; `ReverseAddRecordSpec` states it |
| DnsStorage.Store.AppendTo | src/dns/mod.rs:132-166 | definition: one record appended to one stored zone, shared by the four `*add_record` functions; `AppendToSpec` states it |
| DnsStorage.SetCursorSpec | src/dns/mod.rs:91-116 | each `set_*` succeeds exactly for a stored name, moves only its own cursor, and leaves the zones alone |
| DnsStorage.AddZoneSpec | src/dns/mod.rs:118-126 | succeeds exactly for a new name; then stores the zone under its name, makes it current, and keeps every other zone; else changes nothing |
| DnsStorage.AddRecordSpec | src/dns/mod.rs:132-139 | succeeds exactly when a zone is current, appends the record to it and nothing else; else changes nothing |
| DnsStorage.ZoneAddRecordSpec | src/dns/mod.rs:141-148 | succeeds exactly for a stored name, appends the record to that zone only; else changes nothing |
| DnsStorage.ReverseAddRecordSpec | src/dns/mod.rs:150-166 | succeeds exactly when the IPv4 or IPv6 reverse zone is set, appends to it only; else changes nothing |
| DnsStorage.AppendToSpec | src/dns/mod.rs:132-166 | appending keeps the registry consistent and touches one zone's record list |
| DnsStorage.GrowsReflexive | src/dns/mod.rs:73-78 | the registry's growth order is reflexive |
| DnsStorage.GrowsTransitive | src/dns/mod.rs:73-78 | the registry's growth order is transitive |
| DnsStorage.ZoneStorage.constructor | src/dns/mod.rs:82-89 | the new object is the empty registry |
| DnsStorage.ZoneStorage.SetCurrent | src/dns/mod.rs:91-98 | result and new state are those of the registry function |
| DnsStorage.ZoneStorage.SetRv4 | src/dns/mod.rs:100-107 | result and new state are those of the registry function |
| DnsStorage.ZoneStorage.SetRv6 | src/dns/mod.rs:109-116 | result and new state are those of the registry function |
| DnsStorage.ZoneStorage.AddZone | src/dns/mod.rs:118-126 | result and new state are those of the registry function |
| DnsStorage.ZoneStorage.HasZone | src/dns/mod.rs:128-130 | true exactly when a zone of that name is stored |
| DnsStorage.ZoneStorage.AddRecord | src/dns/mod.rs:132-139 | result and new state are those of the registry function |
| DnsStorage.ZoneStorage.ZoneAddRecord | src/dns/mod.rs:141-148 | result and new state are those of the registry function |
| DnsStorage.ZoneStorage.Rv4AddRecord | src/dns/mod.rs:150-157 | result and new state are those of the registry function |
| DnsStorage.ZoneStorage.Rv6AddRecord | src/dns/mod.rs:159-166 | result and new state are those of the registry function |
| DnsStorage.ZoneStorage.IntoInner | src/dns/mod.rs:172-174 | the map of zones, each stored under its own name |
| Context.ConfigContext.FindKey | src/context.rs:23-25 | a value exactly for a configured key, and then that key's value |
| Context.ConfigContext.New | src/context.rs:11-17 | definition: the directory and keys of the file, with empty defaults; `ConfigContextDefaults` states it |
| Context.ConfigContextDefaults | src/context.rs:11-17 | the directory defaults to empty and the key map to no keys |
| Context.ZoneContext.FindKey | src/context.rs:91-93 | a value exactly for a key of the zone, and then that key's value |
| Context.ZoneContext.New | src/context.rs:42-57 | definition: the zone's settings with their defaults; `ZoneContextDefaults` and `ZoneDomainDoubleDot` state it |
| Context.ZoneContext.WithDomain | src/context.rs:63-69 | definition: qualification of a name by the zone's domain; `WithDomainSpec` and `WithDomainIdempotent` state it |
| Context.ZoneContextDefaults | src/context.rs:42-57 | the domain is the declared domain or the name, plus a dot; TTL defaults to 604800; reverse is on for `true` or any string |
| Context.ZoneDomainDoubleDot | src/context.rs:42-57 | a declared domain that already ends in a dot gets a second one |
| Context.WithDomainSpec | src/context.rs:63-69 | a name ending in a dot is kept, any other gets `.` and the zone domain appended; the result ends in a dot |
| Context.WithDomainIdempotent | src/context.rs:63-69 | qualifying twice is qualifying once |
| Context.ZoneWithDomainQualifies | src/context.rs:42-69 | every name qualified by a zone context ends in a dot, and qualifying again changes nothing |
| Context.SubDomainContextSpec | src/context.rs:104-126 | the subdomain's owner is `@` as the zone domain, an absolute name as given, or a relative name under the zone domain; reverse falls back to the zone's |
| Context.SubDomainContext.New | src/context.rs:104-126 | definition: the subdomain's owner name and inherited reverse flag; `SubDomainContextSpec` states it |
| Context.ReverseOrSpec | src/main.rs:163-168 | a reverse setting is on for `true` or any string, and a missing one takes the fallback |
| Context.GetReverse | src/main.rs:163-168 | definition: `Bool(b)` gives b and any `Str` counts as set; `ReverseOrSpec` states it |
| Context.EndsWithDotAppend | src/context.rs:63-69 | helper: appending a dotted domain keeps the trailing dot |
| Resolve.Lookup | src/main.rs:318-321 | definition: the zone's value of a key, else the file's; `LookupShadows` states it |
| Resolve.Substitute | src/main.rs:315-327 | definition: the loop over the found keys, stopping at the first missing one; `SubstituteFails` and `SubstituteFill` state it |
| Resolve.KeyedString | src/main.rs:308-330 | definition: `parse_keyed_string`, the loop on the keys the scan finds; `KeyedStringFails` and `KeyedStringFill` state it |
| Resolve.LookupShadows | src/main.rs:318-321 | a key is looked up in the zone first, then in the configuration |
| Resolve.SubstituteFails | src/main.rs:315-327 | fails exactly when some key is missing, and then with the first missing key |
| Resolve.KeyedStringFails | src/main.rs:308-330 | `parse_keyed_string` fails exactly when a scanned key is found nowhere, naming that key |
| Resolve.NoPlaceholderUnchanged | src/main.rs:308-330 | a string without `{` comes back unchanged |
| Resolve.SinglePlaceholder | src/main.rs:308-330 | a string with one placeholder gets the looked-up value spliced in, or fails with its key |
| Resolve.SubstituteFill | src/main.rs:315-327 | the loop from the m-th key on, over placeholders of which the first m keys are already replaced, fills every slot with its key's value |
| Resolve.KeyedStringFill | src/main.rs:308-330 | any number of placeholders, keys repeated or not, between text without `{`: when every key is found and no value holds `{`, each placeholder becomes its key's value, the zone's before the file's |
| Resolve.TwoPlaceholders | src/main.rs:308-330 | `a{k1}b{k2}c` becomes `a v1 b v2 c` for the values found, k1 and k2 equal or not |
| Resolve.IpFromString | src/main.rs:424-440 | definition: substitution, then IPv4 parsing, then IPv6 parsing; `IpFromStringSpec` states it |
| Resolve.IpFromStringSpec | src/main.rs:332-346 | substitution errors pass through; an unparsable text fails with its own Invalid* error; an IP is V4 when that parses, else V6 |
| Resolve.ReversePrecedence | src/main.rs:196-231 | the reverse flag comes from the address detail, else the record, else the subdomain, else the zone, else off |
| Resolve.ResolveIpv4Spec | src/main.rs:268-306 | the address is the literal or the parsed text, and a detailed address's own flag overrides the inherited one |
| Resolve.ResolveIpv6Spec | src/main.rs:348-386 | the same for IPv6 addresses |
| Resolve.Ipv4TypeStep | src/main.rs:268-306 | resolving one IPv4 address keeps the registry consistent and only appends records |
| Resolve.Ipv6TypeStep | src/main.rs:348-386 | resolving one IPv6 address keeps the registry consistent and only appends records |
| Resolve.Ipv4TypeStepSpec | src/main.rs:268-306 | a resolution error leaves the registry alone; else a PTR goes to the IPv4 reverse zone first when asked, or the step fails with ReverseZoneMissing, and then the A record goes to the current zone |
| Resolve.Ipv6TypeStepSpec | src/main.rs:348-386 | the same for AAAA records and the IPv6 reverse zone |
| Resolve.PtrForSpec | src/main.rs:289-293 | the PTR record is owned by the address's reverse name with the suffix and points at the subdomain |
| Resolve.Ipv4TypesStep | src/main.rs:196-213 | a list of IPv4 addresses only appends records |
| Resolve.Ipv6TypesStep | src/main.rs:214-231 | a list of IPv6 addresses only appends records |
| Resolve.Ipv4AddressStep | src/main.rs:196-213 | one address or a list only appends records |
| Resolve.Ipv6AddressStep | src/main.rs:214-231 | one address or a list only appends records |
| Resolve.PtrValueStep | src/main.rs:404-422 | one PTR value only appends records |
| Resolve.PtrValuesStep | src/main.rs:251-262 | a list of PTR values only appends records |
| Resolve.PtrValueStepOk | src/main.rs:404-422 | a readable PTR value appends its PTR record to the current zone |
| Resolve.PtrValueStepErr | src/main.rs:404-422 | an unreadable PTR value leaves the registry alone and reports its error |
| Resolve.PtrValuesInOrder | src/main.rs:251-262 | when every value is readable, their PTR records are appended to the current zone in order |
| Resolve.PtrValuesFail | src/main.rs:251-262 | the list fails with the error of its first unreadable value |
| Resolve.PtrValuesError | src/main.rs:251-262 | the list's error is the first error among its values |
| Resolve.SimpleRecordSpec | src/main.rs:170-266 | SOA, NS, MX and CNAME names are qualified to end in a dot, numbers are copied, TXT is kept, all owned by the subdomain |
| Resolve.SimpleRecordStep | src/main.rs:170-266 | such a record is appended to the current zone |
| Resolve.RecordStep | src/main.rs:170-266 | one record declaration only appends records |
| Resolve.RecordsStep | src/main.rs:97-99 | a subdomain's declarations only append records |
| Resolve.SubDomainStep | src/main.rs:93-102 | a subdomain only appends records |
| Resolve.SubDomainsStep | src/main.rs:93-102 | the subdomains of a zone only append records |
| Resolve.SubDomainEndsWithBlank | src/main.rs:93-102 | on success a subdomain's records are followed by one blank record; on failure nothing more is appended |
| Resolve.RegisterZone | src/main.rs:60-88 | registering keeps the registry consistent |
| Resolve.RegisterZoneSpec | src/main.rs:60-88 | a duplicate name is skipped; a new one is stored empty, made current, marked as a reverse zone of its type, and handed on |
| Resolve.FirstPass | src/main.rs:60-88 | the first pass keeps the registry consistent |
| Resolve.FirstPassKeys | src/main.rs:60-88 | afterwards the stored names are the earlier ones plus every zone's name, and earlier zones are untouched |
| Resolve.FirstPassHandsOnNew | src/main.rs:60-88 | each zone handed on was new, is stored under its name, and is stored empty |
| Resolve.FirstPassDistinct | src/main.rs:60-88 | no name is handed on twice |
| Resolve.FirstPassCovers | src/main.rs:60-88 | every newly stored zone is handed on |
| Resolve.FirstPassPreBuilts | src/main.rs:60-88 | the zones handed on are exactly the newly stored ones, each once |
| Resolve.FirstPassFirstWins | src/main.rs:60-88 | of zones sharing a name the first one is stored and handed on |
| Resolve.FirstPassLastReverse | src/main.rs:76-85 | each reverse cursor ends at the last registered zone of its type |
| Resolve.FirstPassReverse | src/main.rs:76-85 | without a zone of that type the cursor is unchanged; otherwise it names the last such zone |
| Resolve.LastReverseNone | src/main.rs:76-85 | no zone of the type leaves the fallback |
| Resolve.LastReverseLast | src/main.rs:76-85 | the last zone of the type wins |
| Resolve.FirstPassCons | src/main.rs:60-88 | the first pass is the first zone's registration followed by the first pass over the rest |
| Resolve.FirstPassAdvance | src/main.rs:60-88 | one registered zone moves the pass one step on towards the same final registry and list |
| Resolve.ResolveZone | src/main.rs:90-103 | resolving a zone keeps the registry consistent and adds no zone |
| Resolve.SecondPass | src/main.rs:90-103 | the second pass keeps the registry consistent and adds no zone |
| Resolve.BuildZones | src/main.rs:50-103 | definition: both passes from the empty registry; `BuildZonesSpec` states what they build |
| Resolve.BuildZonesSpec | src/main.rs:50-103 | the built registry holds exactly the configured names, each under its name, grown from the empty zones of the first pass |
| App.ParseKeyedString | src/main.rs:308-330 | the loop over the found keys ends with the result of `Resolve.KeyedString`: the error of the first missing key, else, by `Resolve.KeyedStringFill`, every placeholder replaced by its key's value, the zone's before the file's |
| App.GetIpv4FromString | src/main.rs:332-346 | returns as the IPv4 text function |
| App.GetIpv6FromString | src/main.rs:388-402 | returns as the IPv6 text function |
| App.GetIpFromString | src/main.rs:424-440 | returns as the IP text function |
| App.ReadIpv4Type | src/main.rs:268-287 | the address and reverse flag as the IPv4 resolution function |
| App.ReadIpv6Type | src/main.rs:348-367 | the address and reverse flag as the IPv6 resolution function |
| App.ParseIpv4Type | src/main.rs:268-306 | the new registry and error are those of the IPv4 step function |
| App.ParseIpv6Type | src/main.rs:348-386 | the new registry and error are those of the IPv6 step function |
| App.ParseIpv4Types | src/main.rs:196-213 | the loop leaves the registry and error of the list function |
| App.ParseIpv6Types | src/main.rs:214-231 | the loop leaves the registry and error of the list function |
| App.ParsePtrValue | src/main.rs:404-422 | the new registry and error are those of the PTR step function |
| App.ParsePtrValues | src/main.rs:251-262 | the loop leaves the registry and error of the PTR list function |
| App.ParseRecord | src/main.rs:170-266 | the new registry and error are those of the record step function |
| App.ResolveSubDomain | src/main.rs:93-102 | the loop over the records and the closing blank leave the registry and error of the subdomain function |
| App.ResolveZone | src/main.rs:90-103 | selecting the zone and looping over its subdomains leaves the registry and error of the zone function |
| App.RegisterZone | src/main.rs:60-88 | registering one zone leaves the registry and hand-on of the registration function |
| App.RegisterZones | src/main.rs:60-88 | the first-pass loop leaves the registry and list of zones of the first-pass function |
| App.ResolveZones | src/main.rs:90-103 | the second-pass loop leaves the registry and error of the second-pass function |
| App.BuildZones | src/main.rs:50-103 | a fresh registry built by both passes is the one the build function describes |

## Left out

- Reading the command line, canonicalising paths and loading YAML or JSON files (`main.rs` 34-48 and `load_file`) are left out, because this is I/O. The model starts from a parsed `ConfigFile.Config`.
- The output loop (`main.rs` 105-133) is left out, because it is I/O: it writes a temporary file, runs `named-checkzone`, then renames or removes the file. The model renders a zone's text (`DnsZone.Zone.Render`) but does not write it anywhere. `HashMap` iteration order is not modelled.
- Text-to-address parsing of the Rust standard library is a parameter (`Resolve.Parsers`), and so is the text form of an IPv6 address (`DnsRecord.ShowIpv6`).
- `KEY_REGEX` is modelled by a scanner (`Text.Keys`) over the same character class. It assumes the regex crate yields leftmost, non-overlapping matches.
- Formatting errors (`FmtResult`) never occur when writing to a `String`, so the model returns plain strings.
- Capacity handling (`with_capacity`, `reserve`, `shrink_to_fit`) has no observable effect and is left out. The reserved sizes are related to the lengths in `DnsReverse.Ipv4ReverseNameLength` and `DnsReverse.Ipv6ReverseNameNibbles`.
- `error.rs` is reduced to the errors the core raises (`Resolve.AppError`), and the printed messages are not modelled. The `println!` for a duplicate zone is left out; the zone is skipped.
- The `Display` of `Ipv4AddrCidr`, its `prefix` string, and the `addr_ref`/`cidr_ref`/clone getters are left out, because they only read fields.
- `main.rs` calls `Zone::new` with four arguments, but `zone.rs` declares two. The model follows `zone.rs` and takes the zone's name and its domain, as origin.
- `net.rs` declares `v4_in_addr_range` and `v6_in_addr_range` without a return type, and `bits.rs` is not declared as a module. The model gives each function the type its body computes.
- A `ZoneStorage` holds zone values (`DnsZone.ZoneValue`), not shared objects, so aliasing between zones is not modelled.
- Three behaviours of the code that a reader may not expect, which the model follows:
  - A PTR record goes to the one reverse zone of its address family (`rv4` or `rv6`), whatever the address.
  - A missing reverse zone is an error (`ReverseZoneMissing`) that stops the build.
  - A zone's declared domain always gets a `.` appended, even when it already ends in one (`Context.ZoneDomainDoubleDot`).
- Bits.FlipOnLeft, Bits.FlipOnRight, Bits.FlipOffLeft, Bits.FlipOffRight: these state the corrected behaviour at full width. A shift by the full width, which the source does for `flip_on_*` with 0 bits and `flip_off_*` with w bits, overflowing as written, is a finding below, not part of these contracts.
- NetLegacy.CidrCalc, NetLegacy.V4CidrCalc, NetLegacy.V6CidrCalc, NetLegacy.InCidrRange, NetLegacy.V4InCidrRange, NetLegacy.V6InCidrRange: these are the corrected functions. They refuse prefix length 0 and compare without a fixed-width sum; the as-written overflows are a finding below.
- Net.Ipv4AddrCidr.SetCidr, Net.Ipv6AddrCidr.SetCidr: these model `set_cidr` as written and do not keep the valid-prefix invariant; `SetCidrChecked` does. The block getters (`AvailableAddresses`, `StartU32`/`StartU128`, `Start`, `FinishU32`/`FinishU128`, `Finish`, `InRange`) require a valid prefix length and are not modelled on the invalid state `SetCidr` can leave. There the source panics: for prefix length 0 `available_addresses` computes `2u32.pow(32)` (or `2u128.pow(128)`), which overflows, and for a length above w `32 - cidr` (or `128 - cidr`) underflows.

## Findings

| source | as written | input that shows it | evidently intended | confidence | as-written member | corrected member |
|---|---|---|---|---|---|---|
| src/net/mod.rs:58-65 | `set_cidr` stores the new prefix length when `check_cidr` reports it invalid, and refuses it when it is valid | `set_cidr(0)` on a /24 returns true and stores 0; `set_cidr(16)` returns false | store and accept exactly the lengths 1 ..= w, as `new` does | high, not executed | Cidr.SetCidrAsWrittenExample | Cidr.SetCidrCheckedKeepsValidity |
| src/bits.rs:3-75 | `flip_on_*` shifts `uN::MAX` by w - bits, and `flip_off_*` shifts it by bits; both are allowed to reach w | `flip_on_left(&mut x, 0)` or `flip_off_right(&mut x, 32)` on a `u32` shifts by 32, which overflows (a panic in debug builds) | setting 0 bits leaves the value unchanged, and clearing w bits clears it all | high, not executed | Bits.FlipAsWrittenOverflows | Bits.FlipOnLeft |
| src/net.rs:3-47 | `v*_cidr_calc` accepts prefix length 0 and computes 2^w in w bits; `v*_in_cidr_range` takes `start + avail` in w bits | `v4_cidr_calc(0)` computes `2u32.pow(32)`; `v4_in_cidr_range(255.255.255.255, 255.255.255.255, 32)` computes 2^32 - 1 + 1; both overflow | refuse prefix length 0, as `check_cidr` does, and put the top address in its own block | high, not executed | NetLegacy.InCidrRangeAsWrittenOverflows | NetLegacy.InCidrRangeAgrees |
