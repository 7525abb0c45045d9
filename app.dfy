/**
 * src/main.rs as it runs: the functions of `app_runner`'s two passes as
 * methods on a `ZoneStorage` object, with the loops the source has. Each
 * method is proved to leave the registry, and to return the error, exactly
 * as the corresponding function of module `Resolve` says; what those
 * functions promise is proved there.
 */
module App {
  import opened Wrappers
  import opened Octets
  import opened Text
  import opened DnsRecord
  import opened DnsStorage
  import opened DnsReverse
  import opened ConfigFile
  import opened Context
  import opened Resolve

  // ---------------------------------------------------------------------
  // text to addresses

  /** `parse_keyed_string`: every key the scan finds is replaced in the working copy, zone keys first. */
  method ParseKeyedString(config: ConfigContext, zone: ZoneContext, s: string) returns (r: Result<string, AppError>)
    ensures r == KeyedString(zone, config, s)
  {
    var keys := Keys(s, 0);
    var working := s;
    var i := 0;
    while i < |keys|
      invariant 0 <= i <= |keys|
      invariant Substitute(working, keys[i..], zone, config) == KeyedString(zone, config, s)
    {
      var key := keys[i];
      assert keys[i..][0] == key && keys[i..][1..] == keys[i + 1..];
      var value := zone.FindKey(key);
      if value.Some? {
        working := ReplaceAll(working, Placeholder(key), value.value);
      } else {
        var fallback := config.FindKey(key);
        if fallback.Some? {
          working := ReplaceAll(working, Placeholder(key), fallback.value);
        } else {
          return Err(KeyNotFound(key));
        }
      }
      i := i + 1;
    }
    return Ok(working);
  }

  /** `get_ipv4_from_string` */
  method GetIpv4FromString(p: Parsers, config: ConfigContext, zone: ZoneContext, s: string) returns (r: Result<Ipv4Addr, AppError>)
    ensures r == Ipv4FromString(p, zone, config, s)
  {
    var working := ParseKeyedString(config, zone, s);
    if working.Err? {
      return Err(working.error);
    }
    var ip := p.v4(working.value);
    if ip.Some? {
      return Ok(ip.value);
    }
    return Err(InvalidIpv4(working.value));
  }

  /** `get_ipv6_from_string` */
  method GetIpv6FromString(p: Parsers, config: ConfigContext, zone: ZoneContext, s: string) returns (r: Result<Ipv6Addr, AppError>)
    ensures r == Ipv6FromString(p, zone, config, s)
  {
    var working := ParseKeyedString(config, zone, s);
    if working.Err? {
      return Err(working.error);
    }
    var ip := p.v6(working.value);
    if ip.Some? {
      return Ok(ip.value);
    }
    return Err(InvalidIpv6(working.value));
  }

  /** `get_ip_from_string`: IPv4 is tried first. */
  method GetIpFromString(p: Parsers, config: ConfigContext, zone: ZoneContext, s: string) returns (r: Result<IpAddr, AppError>)
    ensures r == IpFromString(p, zone, config, s)
  {
    var working := ParseKeyedString(config, zone, s);
    if working.Err? {
      return Err(working.error);
    }
    var v4 := p.v4(working.value);
    if v4.Some? {
      return Ok(V4Addr(v4.value));
    }
    var v6 := p.v6(working.value);
    if v6.Some? {
      return Ok(V6Addr(v6.value));
    }
    return Err(InvalidIp(working.value));
  }

  // ---------------------------------------------------------------------
  // record declarations

  /** The address of an `Ipv4Type` in `parse_ipv4_type`, with the reverse flag that applies to it. */
  method ReadIpv4Type(env: Env, t: Ipv4Type, reverse0: bool) returns (r: Result<(Ipv4Addr, bool), AppError>)
    ensures r == ResolveIpv4(env, t, reverse0)
  {
    var reverse := reverse0;
    var ip: Ipv4Addr;
    match t {
      case Ipv4Plain(a) =>
        ip := a;
      case Ipv4Text(text) =>
        var read := GetIpv4FromString(env.parsers, env.config, env.zone, text);
        if read.Err? {
          return Err(read.error);
        }
        ip := read.value;
      case Ipv4Detailed(d) =>
        reverse := d.reverse.GetOr(reverse);
        match d.ip {
          case V4Ip(a) =>
            ip := a;
          case V4Str(text) =>
            var read := GetIpv4FromString(env.parsers, env.config, env.zone, text);
            if read.Err? {
              return Err(read.error);
            }
            ip := read.value;
        }
    }
    return Ok((ip, reverse));
  }

  /** `parse_ipv4_type` */
  method ParseIpv4Type(store: ZoneStorage, env: Env, t: Ipv4Type, reverse0: bool) returns (err: Option<AppError>)
    requires store.Valid()
    modifies store
    ensures store.Valid() && Outcome(store.View(), err) == Ipv4TypeStep(env, old(store.View()), t, reverse0)
  {
    var read := ReadIpv4Type(env, t, reverse0);
    if read.Err? {
      return Some(read.error);
    }
    var (ip, reverse) := read.value;
    if reverse {
      var name := Ipv4ReverseString(ip, true);
      assert Ptr(name, env.sub.domain) == PtrFor(env, V4Addr(ip));
      var ok := store.Rv4AddRecord(Ptr(name, env.sub.domain));
      if !ok {
        return Some(ReverseZoneMissing);
      }
    }
    var added := store.AddRecord(A(env.sub.domain, ip));
    return None;
  }

  /** The address of an `Ipv6Type` in `parse_ipv6_type`, with the reverse flag that applies to it. */
  method ReadIpv6Type(env: Env, t: Ipv6Type, reverse0: bool) returns (r: Result<(Ipv6Addr, bool), AppError>)
    ensures r == ResolveIpv6(env, t, reverse0)
  {
    var reverse := reverse0;
    var ip: Ipv6Addr;
    match t {
      case Ipv6Plain(a) =>
        ip := a;
      case Ipv6Text(text) =>
        var read := GetIpv6FromString(env.parsers, env.config, env.zone, text);
        if read.Err? {
          return Err(read.error);
        }
        ip := read.value;
      case Ipv6Detailed(d) =>
        reverse := d.reverse.GetOr(reverse);
        match d.ip {
          case V6Ip(a) =>
            ip := a;
          case V6Str(text) =>
            var read := GetIpv6FromString(env.parsers, env.config, env.zone, text);
            if read.Err? {
              return Err(read.error);
            }
            ip := read.value;
        }
    }
    return Ok((ip, reverse));
  }

  /** `parse_ipv6_type` */
  method ParseIpv6Type(store: ZoneStorage, env: Env, t: Ipv6Type, reverse0: bool) returns (err: Option<AppError>)
    requires store.Valid()
    modifies store
    ensures store.Valid() && Outcome(store.View(), err) == Ipv6TypeStep(env, old(store.View()), t, reverse0)
  {
    var read := ReadIpv6Type(env, t, reverse0);
    if read.Err? {
      return Some(read.error);
    }
    var (ip, reverse) := read.value;
    if reverse {
      var name := Ipv6ReverseString(ip, true);
      assert Ptr(name, env.sub.domain) == PtrFor(env, V6Addr(ip));
      var ok := store.Rv6AddRecord(Ptr(name, env.sub.domain));
      if !ok {
        return Some(ReverseZoneMissing);
      }
    }
    var added := store.AddRecord(Aaaa(env.sub.domain, ip));
    return None;
  }

  /** The `for addr in multiple` loop of an A declaration. */
  method ParseIpv4Types(store: ZoneStorage, env: Env, ts: seq<Ipv4Type>, reverse: bool) returns (err: Option<AppError>)
    requires store.Valid()
    modifies store
    ensures store.Valid() && Outcome(store.View(), err) == Ipv4TypesStep(env, old(store.View()), ts, reverse)
  {
    var i := 0;
    while i < |ts|
      invariant 0 <= i <= |ts| && store.Valid()
      invariant Ipv4TypesStep(env, store.View(), ts[i..], reverse) == Ipv4TypesStep(env, old(store.View()), ts, reverse)
    {
      assert ts[i..][0] == ts[i] && ts[i..][1..] == ts[i + 1..];
      err := ParseIpv4Type(store, env, ts[i], reverse);
      if err.Some? {
        return;
      }
      i := i + 1;
    }
    return None;
  }

  /** The `for addr in multiple` loop of an AAAA declaration. */
  method ParseIpv6Types(store: ZoneStorage, env: Env, ts: seq<Ipv6Type>, reverse: bool) returns (err: Option<AppError>)
    requires store.Valid()
    modifies store
    ensures store.Valid() && Outcome(store.View(), err) == Ipv6TypesStep(env, old(store.View()), ts, reverse)
  {
    var i := 0;
    while i < |ts|
      invariant 0 <= i <= |ts| && store.Valid()
      invariant Ipv6TypesStep(env, store.View(), ts[i..], reverse) == Ipv6TypesStep(env, old(store.View()), ts, reverse)
    {
      assert ts[i..][0] == ts[i] && ts[i..][1..] == ts[i + 1..];
      err := ParseIpv6Type(store, env, ts[i], reverse);
      if err.Some? {
        return;
      }
      i := i + 1;
    }
    return None;
  }

  /** `parse_ptr_value` */
  method ParsePtrValue(store: ZoneStorage, env: Env, v: PtrValue) returns (err: Option<AppError>)
    requires store.Valid()
    modifies store
    ensures store.Valid() && Outcome(store.View(), err) == PtrValueStep(env, old(store.View()), v)
  {
    var ip: IpAddr;
    match v {
      case PtrIp(a) =>
        ip := a;
      case PtrStr(text) =>
        var r := GetIpFromString(env.parsers, env.config, env.zone, text);
        if r.Err? {
          return Some(r.error);
        }
        ip := r.value;
    }
    var name := IpReverseString(ip, true);
    assert Ptr(name, env.sub.domain) == PtrFor(env, ip);
    var added := store.AddRecord(Ptr(name, env.sub.domain));
    return None;
  }

  /** The `for addr in multiple` loop of a PTR declaration. */
  method ParsePtrValues(store: ZoneStorage, env: Env, vs: seq<PtrValue>) returns (err: Option<AppError>)
    requires store.Valid()
    modifies store
    ensures store.Valid() && Outcome(store.View(), err) == PtrValuesStep(env, old(store.View()), vs)
  {
    var i := 0;
    while i < |vs|
      invariant 0 <= i <= |vs| && store.Valid()
      invariant PtrValuesStep(env, store.View(), vs[i..]) == PtrValuesStep(env, old(store.View()), vs)
    {
      assert vs[i..][0] == vs[i] && vs[i..][1..] == vs[i + 1..];
      err := ParsePtrValue(store, env, vs[i]);
      if err.Some? {
        return;
      }
      i := i + 1;
    }
    return None;
  }

  /** `parse_record` */
  method ParseRecord(store: ZoneStorage, env: Env, decl: RecordDecl) returns (err: Option<AppError>)
    requires store.Valid()
    modifies store
    ensures store.Valid() && Outcome(store.View(), err) == RecordStep(env, old(store.View()), decl)
  {
    var owner := env.sub.domain;
    var added: bool;
    match decl {
      case SoaDecl(domain, email, serial, refresh, retry, expire, nct) =>
        added := store.AddRecord(Soa(owner, env.zone.WithDomain(domain), env.zone.WithDomain(email),
                                     serial, refresh, retry, expire, nct));
      case NsDecl(domain) =>
        added := store.AddRecord(Ns(owner, env.zone.WithDomain(domain)));
      case ADecl(address, rev) =>
        var reverse := if rev.Some? then GetReverse(rev.value) else env.sub.reverse;
        match address {
          case Ipv4Single(t) =>
            err := ParseIpv4Type(store, env, t, reverse);
          case Ipv4Multiple(ts) =>
            err := ParseIpv4Types(store, env, ts, reverse);
        }
        return;
      case AaaaDecl(address, rev) =>
        var reverse := if rev.Some? then GetReverse(rev.value) else env.sub.reverse;
        match address {
          case Ipv6Single(t) =>
            err := ParseIpv6Type(store, env, t, reverse);
          case Ipv6Multiple(ts) =>
            err := ParseIpv6Types(store, env, ts, reverse);
        }
        return;
      case MxDecl(priority, domain) =>
        added := store.AddRecord(Mx(owner, priority, env.zone.WithDomain(domain)));
      case CnameDecl(alias) =>
        added := store.AddRecord(Cname(owner, env.zone.WithDomain(alias)));
      case TxtDecl(value) =>
        added := store.AddRecord(Txt(owner, value));
      case PtrDecl(ptr) =>
        match ptr {
          case PtrSingle(v) =>
            err := ParsePtrValue(store, env, v);
          case PtrMultiple(vs) =>
            err := ParsePtrValues(store, env, vs);
        }
        return;
    }
    return None;
  }

  // ---------------------------------------------------------------------
  // the loops of `app_runner`

  /** `for record in records`, then the `Blank` that closes the subdomain. */
  method ResolveSubDomain(store: ZoneStorage, p: Parsers, config: ConfigContext, zone: ZoneContext, sub: SubDomain)
    returns (err: Option<AppError>)
    requires store.Valid()
    modifies store
    ensures store.Valid() && Outcome(store.View(), err) == SubDomainStep(p, config, zone, old(store.View()), sub)
  {
    var env := Env(p, config, zone, SubDomainContext.New(zone, sub));
    var records := sub.records;
    var i := 0;
    while i < |records|
      invariant 0 <= i <= |records| && store.Valid()
      invariant RecordsStep(env, store.View(), records[i..]) == RecordsStep(env, old(store.View()), records)
    {
      assert records[i..][0] == records[i] && records[i..][1..] == records[i + 1..];
      err := ParseRecord(store, env, records[i]);
      if err.Some? {
        return;
      }
      i := i + 1;
    }
    var added := store.AddRecord(Blank);
    return None;
  }

  /** One zone of the second pass: `set_current`, then `for subdomain in subdomains`. */
  method ResolveZone(store: ZoneStorage, p: Parsers, config: ConfigContext, pre: PreBuilt) returns (err: Option<AppError>)
    requires store.Valid()
    modifies store
    ensures store.Valid() && Outcome(store.View(), err) == Resolve.ResolveZone(p, config, old(store.View()), pre)
  {
    var selected := store.SetCurrent(pre.name);
    var subs := pre.subdomains;
    ghost var start := store.View();
    var i := 0;
    while i < |subs|
      invariant 0 <= i <= |subs| && store.Valid()
      invariant SubDomainsStep(p, config, pre.zone, store.View(), subs[i..])
        == SubDomainsStep(p, config, pre.zone, start, subs)
    {
      assert subs[i..][0] == subs[i] && subs[i..][1..] == subs[i + 1..];
      err := ResolveSubDomain(store, p, config, pre.zone, subs[i]);
      if err.Some? {
        return;
      }
      i := i + 1;
    }
    return None;
  }

  /** One zone declaration of the first pass: a taken name is skipped, a new zone is registered and may become a reverse zone. */
  method RegisterZone(store: ZoneStorage, z: Zone) returns (pre: Option<PreBuilt>)
    requires store.Valid()
    modifies store
    ensures store.Valid() && (store.View(), pre) == Resolve.RegisterZone(old(store.View()), z)
  {
    var zc := ZoneContext.New(z);
    if store.HasZone(zc.name) {
      return None;
    }
    var added := store.AddZone(NewZoneValue(zc));
    match zc.reverseType {
      case None =>
      case Some(V4) =>
        var marked := store.SetRv4(zc.name);
      case Some(V6) =>
        var marked := store.SetRv6(zc.name);
    }
    return Some(PreBuilt(zc.name, zc, z.subdomains));
  }

  /** The first pass over the file's zone declarations, in order. */
  method RegisterZones(store: ZoneStorage, zones: seq<Zone>) returns (preBuilts: seq<PreBuilt>)
    requires store.Valid()
    modifies store
    ensures store.Valid() && (store.View(), preBuilts) == FirstPass(old(store.View()), zones)
  {
    ghost var finalStore := FirstPass(store.View(), zones).0;
    ghost var finalPres := FirstPass(store.View(), zones).1;
    preBuilts := [];
    var i := 0;
    assert zones[0..] == zones;
    assert [] + finalPres == finalPres;
    while i < |zones|
      invariant 0 <= i <= |zones| && store.Valid()
      invariant FirstPass(store.View(), zones[i..]).0 == finalStore
      invariant preBuilts + FirstPass(store.View(), zones[i..]).1 == finalPres
    {
      ghost var before := store.View();
      var pre := RegisterZone(store, zones[i]);
      FirstPassAdvance(before, store.View(), pre, zones, i, preBuilts, finalStore, finalPres);
      if pre.Some? {
        preBuilts := preBuilts + [pre.value];
      }
      i := i + 1;
    }
    assert zones[i..] == [];
    assert preBuilts + [] == preBuilts;
  }

  /** The second pass: the registered zones in registration order, stopping at the first error. */
  method ResolveZones(store: ZoneStorage, p: Parsers, config: ConfigContext, pres: seq<PreBuilt>) returns (err: Option<AppError>)
    requires store.Valid()
    modifies store
    ensures store.Valid() && Outcome(store.View(), err) == SecondPass(p, config, old(store.View()), pres)
  {
    var i := 0;
    assert pres[0..] == pres;
    while i < |pres|
      invariant 0 <= i <= |pres| && store.Valid()
      invariant SecondPass(p, config, store.View(), pres[i..]) == SecondPass(p, config, old(store.View()), pres)
    {
      assert pres[i..][0] == pres[i] && pres[i..][1..] == pres[i + 1..];
      err := ResolveZone(store, p, config, pres[i]);
      if err.Some? {
        return;
      }
      i := i + 1;
    }
    return None;
  }

  /** `app_runner` for one configuration file, up to the output loop. */
  method BuildZones(p: Parsers, conf: Config) returns (store: ZoneStorage, err: Option<AppError>)
    ensures fresh(store) && store.Valid() && Outcome(store.View(), err) == Resolve.BuildZones(p, conf)
  {
    store := new ZoneStorage();
    var config := ConfigContext.New(conf);
    var preBuilts := RegisterZones(store, conf.zones);
    err := ResolveZones(store, p, config, preBuilts);
  }
}
