/**
 * The configuration schema of src/config.rs as plain values. How serde
 * reads them from YAML or JSON is not part of this model.
 */
module ConfigFile {
  import opened Wrappers
  import opened Octets
  import DnsRecord

  type KeysMap = map<string, string>

  datatype Ipv4Value = V4Ip(ip: Ipv4Addr) | V4Str(text: string)
  datatype Ipv4Detail = Ipv4Detail(ip: Ipv4Value, reverse: Option<bool>)
  datatype Ipv4Type = Ipv4Plain(ip: Ipv4Addr) | Ipv4Text(text: string) | Ipv4Detailed(detail: Ipv4Detail)

  datatype Ipv6Value = V6Ip(ip: Ipv6Addr) | V6Str(text: string)
  datatype Ipv6Detail = Ipv6Detail(ip: Ipv6Value, reverse: Option<bool>)
  datatype Ipv6Type = Ipv6Plain(ip: Ipv6Addr) | Ipv6Text(text: string) | Ipv6Detailed(detail: Ipv6Detail)

  datatype Ipv4Address = Ipv4Single(single: Ipv4Type) | Ipv4Multiple(multiple: seq<Ipv4Type>)
  datatype Ipv6Address = Ipv6Single(single: Ipv6Type) | Ipv6Multiple(multiple: seq<Ipv6Type>)

  datatype PtrValue = PtrIp(ip: IpAddr) | PtrStr(text: string)
  datatype PtrAddress = PtrSingle(single: PtrValue) | PtrMultiple(multiple: seq<PtrValue>)

  datatype ReverseValue = RevBool(flag: bool) | RevStr(text: string)

  /** A record declaration, before names are qualified and addresses resolved. */
  datatype RecordDecl =
    | SoaDecl(domain: string, email: string,
              serial: DnsRecord.i32, refresh: DnsRecord.i32, retry: DnsRecord.i32,
              expire: DnsRecord.i32, nct: DnsRecord.i32)
    | NsDecl(domain: string)
    | ADecl(address: Ipv4Address, reverse: Option<ReverseValue>)
    | AaaaDecl(address6: Ipv6Address, reverse: Option<ReverseValue>)
    | MxDecl(priority: DnsRecord.usize, domain: string)
    | CnameDecl(alias: string)
    | TxtDecl(value: string)
    | PtrDecl(ptr: PtrAddress)

  datatype SubDomain = SubDomain(name: string, domain: Option<string>, reverse: Option<ReverseValue>, records: seq<RecordDecl>)

  datatype ReverseType = V4 | V6

  datatype Zone = Zone(
    name: string,
    domain: Option<string>,
    reverseType: Option<ReverseType>,
    ttl: Option<DnsRecord.usize>,
    reverse: Option<ReverseValue>,
    keys: Option<KeysMap>,
    subdomains: seq<SubDomain>)

  datatype Config = Config(name: string, directory: Option<string>, keys: Option<KeysMap>, zones: seq<Zone>)
}
