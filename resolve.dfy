/**
 * What src/main.rs does with one configuration file, as functions on the
 * registry value `Store`: `{key}` substitution, the reverse-flag
 * precedence, the expansion of record declarations into records, and the
 * two passes that first register every zone and then resolve the records.
 *
 * Every step returns the registry it leaves behind together with the
 * error, if any, that stops the run; the methods of module `App` are
 * proved to leave the `ZoneStorage` object in exactly that state.
 */
module Resolve {
  import opened Wrappers
  import opened Octets
  import opened Text
  import opened DnsRecord
  import DnsZone
  import opened DnsStorage
  import opened DnsReverse
  import opened ConfigFile
  import opened Context

  /** The `RuntimeError::Error` messages the resolver can stop with. */
  datatype AppError =
    | KeyNotFound(key: string)
    | InvalidIpv4(text: string)
    | InvalidIpv6(text: string)
    | InvalidIp(text: string)
    | ReverseZoneMissing

  function Message(e: AppError): string
  {
    match e
    case KeyNotFound(key) => "failed to find requested key: " + key
    case InvalidIpv4(text) => "invalid ipv4 string given: " + text
    case InvalidIpv6(text) => "invalid ipv6 string given: " + text
    case InvalidIp(text) => "invalid ipv4/ipv6 string given: " + text
    case ReverseZoneMissing => "failed to add record to requested zone file"
  }

  /** `str::parse::<Ipv4Addr>` and `str::parse::<Ipv6Addr>` of the standard library. */
  datatype Parsers = Parsers(v4: string -> Option<Ipv4Addr>, v6: string -> Option<Ipv6Addr>)

  // ---------------------------------------------------------------------
  // `parse_keyed_string`

  /** A key's value: the zone's if it has one, else the configuration file's. */
  function Lookup(zone: ZoneContext, config: ConfigContext, key: string): Option<string>
  {
    match zone.FindKey(key)
    case Some(v) => Some(v)
    case None => config.FindKey(key)
  }

  /** Zone keys shadow file keys: looking up a key is looking it up in the union where the zone's entries win. */
  lemma LookupShadows(zone: ZoneContext, config: ConfigContext, key: string)
    ensures var merged := config.keys + zone.keys;
      Lookup(zone, config, key) == if key in merged then Some(merged[key]) else None
  {
  }

  /** The loop over the found keys: each is replaced everywhere in the working copy, or the run stops at a missing one. */
  function Substitute(working: string, keys: seq<string>, zone: ZoneContext, config: ConfigContext): Result<string, AppError>
    decreases |keys|
  {
    if |keys| == 0 then Ok(working)
    else match Lookup(zone, config, keys[0])
      case None => Err(KeyNotFound(keys[0]))
      case Some(v) => Substitute(ReplaceAll(working, Placeholder(keys[0]), v), keys[1..], zone, config)
  }

  /** `parse_keyed_string`: the keys are those the scan finds in the original string. */
  function KeyedString(zone: ZoneContext, config: ConfigContext, s: string): Result<string, AppError>
  {
    Substitute(s, Keys(s, 0), zone, config)
  }

  /**
   * The substitution fails exactly when some found key is in neither map,
   * and then it names the first such key.
   */
  lemma {:induction false} SubstituteFails(working: string, keys: seq<string>, zone: ZoneContext, config: ConfigContext)
    ensures Substitute(working, keys, zone, config).Err?
      <==> exists i :: 0 <= i < |keys| && Lookup(zone, config, keys[i]).None?
    ensures Substitute(working, keys, zone, config).Err? ==>
      exists i :: 0 <= i < |keys| && Lookup(zone, config, keys[i]).None?
        && (forall j :: 0 <= j < i ==> Lookup(zone, config, keys[j]).Some?)
        && Substitute(working, keys, zone, config).error == KeyNotFound(keys[i])
    decreases |keys|
  {
    if |keys| > 0 {
      match Lookup(zone, config, keys[0])
      case None =>
      case Some(v) =>
        var next := ReplaceAll(working, Placeholder(keys[0]), v);
        SubstituteFails(next, keys[1..], zone, config);
        if Substitute(working, keys, zone, config).Err? {
          var i :| 0 <= i < |keys[1..]| && Lookup(zone, config, keys[1..][i]).None?
            && (forall j :: 0 <= j < i ==> Lookup(zone, config, keys[1..][j]).Some?)
            && Substitute(next, keys[1..], zone, config).error == KeyNotFound(keys[1..][i]);
          assert Lookup(zone, config, keys[i + 1]).None?;
          forall j | 0 <= j < i + 1
            ensures Lookup(zone, config, keys[j]).Some?
          {
            if j > 0 {
              assert keys[j] == keys[1..][j - 1];
            }
          }
        }
        forall i | 0 <= i < |keys| && Lookup(zone, config, keys[i]).None?
          ensures exists i' :: 0 <= i' < |keys[1..]| && Lookup(zone, config, keys[1..][i']).None?
        {
          assert keys[1..][i - 1] == keys[i];
        }
    }
  }

  /** `parse_keyed_string` fails exactly when a placeholder's key is in neither map, naming the first one. */
  lemma KeyedStringFails(zone: ZoneContext, config: ConfigContext, s: string)
    ensures var keys := Keys(s, 0);
      (KeyedString(zone, config, s).Err? <==> exists i :: 0 <= i < |keys| && Lookup(zone, config, keys[i]).None?)
      && (KeyedString(zone, config, s).Err? ==>
            exists i :: 0 <= i < |keys| && Lookup(zone, config, keys[i]).None?
              && KeyedString(zone, config, s).error == KeyNotFound(keys[i]))
  {
    SubstituteFails(s, Keys(s, 0), zone, config);
  }

  /** A string without a `{` comes back unchanged. */
  lemma NoPlaceholderUnchanged(zone: ZoneContext, config: ConfigContext, s: string)
    requires '{' !in s
    ensures KeyedString(zone, config, s) == Ok(s)
  {
    NoBraceNoKeys(s, 0);
  }

  /**
   * One placeholder in text without other braces: the value from the zone,
   * else from the file, takes its place; a key in neither map is an error.
   */
  lemma SinglePlaceholder(zone: ZoneContext, config: ConfigContext, a: string, key: string, b: string)
    requires '{' !in a && '{' !in b && IsKey(key)
    ensures var r := KeyedString(zone, config, a + Placeholder(key) + b);
      match Lookup(zone, config, key)
      case Some(v) => r == Ok(a + v + b)
      case None => r == Err(KeyNotFound(key))
  {
    var s := a + Placeholder(key) + b;
    SingleKey(a, key, b);
    assert [key][1..] == [];
    match Lookup(zone, config, key)
    case Some(v) =>
      ReplaceSingle(a, key, b, v);
      assert Substitute(s, [key], zone, config) == Substitute(a + v + b, [], zone, config);
    case None =>
  }

  /** Every key is found, and no value found holds a `{`. */
  predicate AllFound(zone: ZoneContext, config: ConfigContext, keys: seq<string>)
  {
    forall i :: 0 <= i < |keys| ==> Lookup(zone, config, keys[i]).Some? && '{' !in Lookup(zone, config, keys[i]).value
  }

  /** The value found for each key, in order. */
  function Values(zone: ZoneContext, config: ConfigContext, keys: seq<string>): (r: seq<string>)
    requires AllFound(zone, config, keys)
    ensures |r| == |keys| && forall i :: 0 <= i < |keys| ==> Lookup(zone, config, keys[i]) == Some(r[i])
  {
    seq(|keys|, i requires 0 <= i < |keys| && AllFound(zone, config, keys) => Lookup(zone, config, keys[i]).value)
  }

  /** The slots after the loop has replaced the first m keys: a replaced key's value, else its placeholder. */
  function Partial(keys: seq<string>, vals: seq<string>, m: nat): (r: seq<string>)
    requires |vals| == |keys| && m <= |keys|
    ensures |r| == |keys|
    ensures forall i :: 0 <= i < |keys| ==> r[i] == if keys[i] in keys[..m] then vals[i] else Placeholder(keys[i])
  {
    seq(|keys|, i requires 0 <= i < |keys| => if keys[i] in keys[..m] then vals[i] else Placeholder(keys[i]))
  }

  /** One slot as the next key is replaced: its placeholder becomes the value, anything else stays. */
  lemma SwapSlot(ki: string, km: string, vi: string, vm: string, seen: seq<string>)
    requires '{' !in vi && (ki == km ==> vi == vm)
    ensures var before := if ki in seen then vi else Placeholder(ki);
      (if before == Placeholder(km) then vm else before) == (if ki in seen + [km] then vi else Placeholder(ki))
  {
    PlaceholderInjective(ki, km);
    assert Placeholder(km)[0] == '{';
  }

  lemma TakeNext(keys: seq<string>, m: nat)
    requires m < |keys|
    ensures keys[..m + 1] == keys[..m] + [keys[m]]
  {
  }

  /** Replacing the next key turns the slots after m replacements into those after m + 1. */
  lemma PartialStep(zone: ZoneContext, config: ConfigContext, keys: seq<string>, m: nat)
    requires AllKeys(keys) && AllFound(zone, config, keys) && m < |keys|
    ensures var vals := Values(zone, config, keys);
      Swap(Partial(keys, vals, m), Placeholder(keys[m]), vals[m]) == Partial(keys, vals, m + 1)
  {
    var vals := Values(zone, config, keys);
    var before, after := Partial(keys, vals, m), Partial(keys, vals, m + 1);
    var swapped := Swap(before, Placeholder(keys[m]), vals[m]);
    TakeNext(keys, m);
    forall i | 0 <= i < |keys|
      ensures swapped[i] == after[i]
    {
      SwapSlot(keys[i], keys[m], vals[i], vals[m], keys[..m]);
    }
  }

  /** Every slot after m replacements is a value without `{` or a key's placeholder. */
  lemma PartialSlots(zone: ZoneContext, config: ConfigContext, keys: seq<string>, m: nat)
    requires AllKeys(keys) && AllFound(zone, config, keys) && m <= |keys|
    ensures AllSlots(Partial(keys, Values(zone, config, keys), m))
  {
    var slots := Partial(keys, Values(zone, config, keys), m);
    forall i | 0 <= i < |slots|
      ensures IsSlot(slots[i])
    {
      PlaceholderIsSlot(keys[i]);
    }
  }

  /** Once every key is replaced, each slot holds its key's value. */
  lemma PartialComplete(keys: seq<string>, vals: seq<string>)
    requires |vals| == |keys|
    ensures Partial(keys, vals, |keys|) == vals
  {
    assert keys[..|keys|] == keys;
  }

  /** One pass of the loop: the m-th key's placeholders become its value and the loop goes on with the next key. */
  lemma SubstituteFillStep(zone: ZoneContext, config: ConfigContext, parts: seq<string>, keys: seq<string>, m: nat)
    requires |parts| == |keys| + 1 && BraceFree(parts) && AllKeys(keys) && AllFound(zone, config, keys) && m < |keys|
    ensures var vals := Values(zone, config, keys);
      Substitute(Fill(parts, Partial(keys, vals, m)), keys[m..], zone, config)
        == Substitute(Fill(parts, Partial(keys, vals, m + 1)), keys[m + 1..], zone, config)
  {
    var vals := Values(zone, config, keys);
    var k := keys[m];
    var text := Fill(parts, Partial(keys, vals, m));
    assert IsKey(k);
    PartialSlots(zone, config, keys, m);
    ReplaceFill(parts, Partial(keys, vals, m), k, vals[m]);
    PartialStep(zone, config, keys, m);
    assert keys[m..][0] == k && keys[m..][1..] == keys[m + 1..];
    assert Lookup(zone, config, k) == Some(vals[m]);
    assert Substitute(text, keys[m..], zone, config) == Substitute(ReplaceAll(text, Placeholder(k), vals[m]), keys[m + 1..], zone, config);
  }

  /**
   * The loop over the found keys, from the m-th on, on a text whose slots
   * hold the first m keys' values and the others' placeholders, yields the
   * text with every slot holding its key's value.
   */
  lemma {:induction false} SubstituteFill(zone: ZoneContext, config: ConfigContext, parts: seq<string>, keys: seq<string>, m: nat)
    requires |parts| == |keys| + 1 && BraceFree(parts) && AllKeys(keys) && AllFound(zone, config, keys) && m <= |keys|
    ensures var vals := Values(zone, config, keys);
      Substitute(Fill(parts, Partial(keys, vals, m)), keys[m..], zone, config) == Ok(Fill(parts, vals))
    decreases |keys| - m
  {
    if m == |keys| {
      PartialComplete(keys, Values(zone, config, keys));
    } else {
      SubstituteFillStep(zone, config, parts, keys, m);
      SubstituteFill(zone, config, parts, keys, m + 1);
    }
  }

  /**
   * `parse_keyed_string` on any number of placeholders, a key repeated or
   * not, between text without `{`: when every key is found and no value
   * holds a `{`, each placeholder is replaced by its key's value, the
   * zone's before the file's.
   */
  lemma KeyedStringFill(zone: ZoneContext, config: ConfigContext, parts: seq<string>, keys: seq<string>)
    requires |parts| == |keys| + 1 && BraceFree(parts) && AllKeys(keys) && AllFound(zone, config, keys)
    ensures KeyedString(zone, config, Fill(parts, Placeholders(keys))) == Ok(Fill(parts, Values(zone, config, keys)))
  {
    var vals := Values(zone, config, keys);
    KeysOfFill(parts, keys);
    assert keys[..0] == [];
    assert Partial(keys, vals, 0) == Placeholders(keys);
    assert keys[0..] == keys;
    SubstituteFill(zone, config, parts, keys, 0);
  }

  lemma FillTwo(a: string, b: string, c: string, s1: string, s2: string)
    ensures Fill([a, b, c], [s1, s2]) == a + s1 + b + s2 + c
  {
    assert [a, b, c][1..] == [b, c] && [s1, s2][1..] == [s2];
    assert [b, c][1..] == [c] && [s2][1..] == [];
    assert Fill([b, c], [s2]) == b + s2 + c;
  }

  /** Two placeholders, of the same key or of two keys, between text without `{`. */
  lemma TwoPlaceholders(zone: ZoneContext, config: ConfigContext, a: string, k1: string, b: string, k2: string, c: string, v1: string, v2: string)
    requires '{' !in a && '{' !in b && '{' !in c && IsKey(k1) && IsKey(k2)
    requires Lookup(zone, config, k1) == Some(v1) && Lookup(zone, config, k2) == Some(v2)
    requires '{' !in v1 && '{' !in v2
    ensures KeyedString(zone, config, a + Placeholder(k1) + b + Placeholder(k2) + c) == Ok(a + v1 + b + v2 + c)
  {
    var parts, keys := [a, b, c], [k1, k2];
    assert AllFound(zone, config, keys);
    KeyedStringFill(zone, config, parts, keys);
    assert Placeholders(keys) == [Placeholder(k1), Placeholder(k2)];
    assert Values(zone, config, keys) == [v1, v2];
    FillTwo(a, b, c, Placeholder(k1), Placeholder(k2));
    FillTwo(a, b, c, v1, v2);
  }

  // ---------------------------------------------------------------------
  // addresses given as text: `get_ipv4_from_string`, `get_ipv6_from_string`, `get_ip_from_string`

  function Ipv4FromString(p: Parsers, zone: ZoneContext, config: ConfigContext, s: string): Result<Ipv4Addr, AppError>
  {
    match KeyedString(zone, config, s)
    case Err(e) => Err(e)
    case Ok(w) => if p.v4(w).Some? then Ok(p.v4(w).value) else Err(InvalidIpv4(w))
  }

  function Ipv6FromString(p: Parsers, zone: ZoneContext, config: ConfigContext, s: string): Result<Ipv6Addr, AppError>
  {
    match KeyedString(zone, config, s)
    case Err(e) => Err(e)
    case Ok(w) => if p.v6(w).Some? then Ok(p.v6(w).value) else Err(InvalidIpv6(w))
  }

  function IpFromString(p: Parsers, zone: ZoneContext, config: ConfigContext, s: string): Result<IpAddr, AppError>
  {
    match KeyedString(zone, config, s)
    case Err(e) => Err(e)
    case Ok(w) =>
      if p.v4(w).Some? then Ok(V4Addr(p.v4(w).value))
      else if p.v6(w).Some? then Ok(V6Addr(p.v6(w).value))
      else Err(InvalidIp(w))
  }

  /**
   * After substitution a text is read as IPv4 first and as IPv6 only when
   * that fails; the family-specific readers agree with it, and each fails
   * with its own message on the substituted text.
   */
  lemma IpFromStringSpec(p: Parsers, zone: ZoneContext, config: ConfigContext, s: string)
    ensures KeyedString(zone, config, s).Err? ==>
      var e := KeyedString(zone, config, s).error;
      IpFromString(p, zone, config, s) == Err(e) && Ipv4FromString(p, zone, config, s) == Err(e)
      && Ipv6FromString(p, zone, config, s) == Err(e)
    ensures KeyedString(zone, config, s).Ok? ==>
      var w := KeyedString(zone, config, s).value;
      var r := IpFromString(p, zone, config, s);
      (Ipv4FromString(p, zone, config, s).Ok? ==> r == Ok(V4Addr(Ipv4FromString(p, zone, config, s).value)))
      && (Ipv4FromString(p, zone, config, s).Err? ==> Ipv4FromString(p, zone, config, s).error == InvalidIpv4(w))
      && (Ipv4FromString(p, zone, config, s).Err? && Ipv6FromString(p, zone, config, s).Ok? ==>
            r == Ok(V6Addr(Ipv6FromString(p, zone, config, s).value)))
      && (Ipv6FromString(p, zone, config, s).Err? ==> Ipv6FromString(p, zone, config, s).error == InvalidIpv6(w))
      && (r.Err? <==> p.v4(w).None? && p.v6(w).None?)
      && (r.Err? ==> r.error == InvalidIp(w))
  {
  }

  // ---------------------------------------------------------------------
  // the reverse flag

  /**
   * The precedence chain: an address's own `reverse`, then the record's,
   * then the subdomain's, then the zone's, else no PTR; `Str` counts as set.
   */
  lemma ReversePrecedence(z: Zone, sub: SubDomain, record: Option<ReverseValue>, detail: Option<bool>)
    ensures var zc := ZoneContext.New(z);
      var sc := SubDomainContext.New(zc, sub);
      detail.GetOr(ReverseOr(record, sc.reverse))
        == if detail.Some? then detail.value
           else if record.Some? then GetReverse(record.value)
           else if sub.reverse.Some? then GetReverse(sub.reverse.value)
           else if z.reverse.Some? then GetReverse(z.reverse.value)
           else false
  {
  }

  // ---------------------------------------------------------------------
  // one record declaration at a time

  /** What `parse_record` reads: the parsers, the file's and the zone's context, and the subdomain's. */
  datatype Env = Env(parsers: Parsers, config: ConfigContext, zone: ZoneContext, sub: SubDomainContext)

  /** Where a step leaves the registry, and the error that stops the run, if any. */
  datatype Outcome = Outcome(store: Store, err: Option<AppError>)

  /**
   * t is s after resolving records: the same zones, the same reverse
   * zones, and every zone's records a prefix of what it holds in t.
   */
  predicate Resolves(s: Store, t: Store)
  {
    Grows(s, t) && t.zones.Keys == s.zones.Keys
    && t.reverseV4 == s.reverseV4 && t.reverseV6 == s.reverseV6
  }

  /**
   * What one record declaration may do: append to the current zone and to
   * the reverse zones, and nothing else; the cursors stay where they are.
   */
  predicate OnlyAppends(s: Store, t: Store)
  {
    Resolves(s, t) && t.current == s.current
    && forall k :: k in s.zones && Some(k) != s.current && Some(k) != s.reverseV4 && Some(k) != s.reverseV6 ==>
         t.zones[k] == s.zones[k]
  }

  lemma ResolvesTransitive(s: Store, t: Store, u: Store)
    requires Resolves(s, t) && Resolves(t, u)
    ensures Resolves(s, u)
  {
    GrowsTransitive(s, t, u);
  }

  lemma OnlyAppendsTransitive(s: Store, t: Store, u: Store)
    requires OnlyAppends(s, t) && OnlyAppends(t, u)
    ensures OnlyAppends(s, u)
  {
    ResolvesTransitive(s, t, u);
  }

  lemma OnlyAppendsReflexive(s: Store)
    ensures OnlyAppends(s, s)
  {
    GrowsReflexive(s);
  }

  /** The address of an `Ipv4Type` and the reverse flag that applies to it. */
  function ResolveIpv4(env: Env, t: Ipv4Type, reverse: bool): Result<(Ipv4Addr, bool), AppError>
  {
    match t
    case Ipv4Plain(ip) => Ok((ip, reverse))
    case Ipv4Text(s) =>
      var r := Ipv4FromString(env.parsers, env.zone, env.config, s);
      if r.Ok? then Ok((r.value, reverse)) else Err(r.error)
    case Ipv4Detailed(d) =>
      var rev := d.reverse.GetOr(reverse);
      match d.ip
      case V4Ip(ip) => Ok((ip, rev))
      case V4Str(s) =>
        var r := Ipv4FromString(env.parsers, env.zone, env.config, s);
        if r.Ok? then Ok((r.value, rev)) else Err(r.error)
  }

  function ResolveIpv6(env: Env, t: Ipv6Type, reverse: bool): Result<(Ipv6Addr, bool), AppError>
  {
    match t
    case Ipv6Plain(ip) => Ok((ip, reverse))
    case Ipv6Text(s) =>
      var r := Ipv6FromString(env.parsers, env.zone, env.config, s);
      if r.Ok? then Ok((r.value, reverse)) else Err(r.error)
    case Ipv6Detailed(d) =>
      var rev := d.reverse.GetOr(reverse);
      match d.ip
      case V6Ip(ip) => Ok((ip, rev))
      case V6Str(s) =>
        var r := Ipv6FromString(env.parsers, env.zone, env.config, s);
        if r.Ok? then Ok((r.value, rev)) else Err(r.error)
  }

  /** The PTR record for an address: owner the full reverse name, target the subdomain's domain. */
  function PtrFor(env: Env, ip: IpAddr): Record
  {
    Ptr(IpReverseName(ip, true), env.sub.domain)
  }

  /** `parse_ipv4_type`: the PTR goes to the IPv4 reverse zone first, then the A record to the current zone. */
  function Ipv4TypeStep(env: Env, s: Store, t: Ipv4Type, reverse: bool): (o: Outcome)
    requires s.Consistent()
    ensures o.store.Consistent() && OnlyAppends(s, o.store)
  {
    match ResolveIpv4(env, t, reverse)
    case Err(e) => Outcome(s, Some(e))
    case Ok((ip, rev)) =>
      var forward := A(env.sub.domain, ip);
      if rev then
        ReverseAddRecordSpec(s, PtrFor(env, V4Addr(ip)));
        var (ok, s1) := s.Rv4AddRecord(PtrFor(env, V4Addr(ip)));
        if !ok then Outcome(s1, Some(ReverseZoneMissing))
        else
          AddRecordSpec(s1, forward);
          OnlyAppendsTransitive(s, s1, s1.AddRecord(forward).1);
          Outcome(s1.AddRecord(forward).1, None)
      else
        AddRecordSpec(s, forward);
        Outcome(s.AddRecord(forward).1, None)
  }

  /** `parse_ipv6_type`: the PTR goes to the IPv6 reverse zone first, then the AAAA record to the current zone. */
  function Ipv6TypeStep(env: Env, s: Store, t: Ipv6Type, reverse: bool): (o: Outcome)
    requires s.Consistent()
    ensures o.store.Consistent() && OnlyAppends(s, o.store)
  {
    match ResolveIpv6(env, t, reverse)
    case Err(e) => Outcome(s, Some(e))
    case Ok((ip, rev)) =>
      var forward := Aaaa(env.sub.domain, ip);
      if rev then
        ReverseAddRecordSpec(s, PtrFor(env, V6Addr(ip)));
        var (ok, s1) := s.Rv6AddRecord(PtrFor(env, V6Addr(ip)));
        if !ok then Outcome(s1, Some(ReverseZoneMissing))
        else
          AddRecordSpec(s1, forward);
          OnlyAppendsTransitive(s, s1, s1.AddRecord(forward).1);
          Outcome(s1.AddRecord(forward).1, None)
      else
        AddRecordSpec(s, forward);
        Outcome(s.AddRecord(forward).1, None)
  }

  /** The addresses of a list in order, stopping at the first error. */
  function Ipv4TypesStep(env: Env, s: Store, ts: seq<Ipv4Type>, reverse: bool): (o: Outcome)
    requires s.Consistent()
    ensures o.store.Consistent() && OnlyAppends(s, o.store)
    decreases |ts|
  {
    if |ts| == 0 then Outcome(s, None)
    else
      var o := Ipv4TypeStep(env, s, ts[0], reverse);
      if o.err.Some? then o
      else
        var r := Ipv4TypesStep(env, o.store, ts[1..], reverse);
        OnlyAppendsTransitive(s, o.store, r.store);
        r
  }

  function Ipv6TypesStep(env: Env, s: Store, ts: seq<Ipv6Type>, reverse: bool): (o: Outcome)
    requires s.Consistent()
    ensures o.store.Consistent() && OnlyAppends(s, o.store)
    decreases |ts|
  {
    if |ts| == 0 then Outcome(s, None)
    else
      var o := Ipv6TypeStep(env, s, ts[0], reverse);
      if o.err.Some? then o
      else
        var r := Ipv6TypesStep(env, o.store, ts[1..], reverse);
        OnlyAppendsTransitive(s, o.store, r.store);
        r
  }

  /** A single address or a list of them. */
  function Ipv4AddressStep(env: Env, s: Store, address: Ipv4Address, reverse: bool): (o: Outcome)
    requires s.Consistent()
    ensures o.store.Consistent() && OnlyAppends(s, o.store)
  {
    match address
    case Ipv4Single(t) => Ipv4TypeStep(env, s, t, reverse)
    case Ipv4Multiple(ts) => Ipv4TypesStep(env, s, ts, reverse)
  }

  function Ipv6AddressStep(env: Env, s: Store, address: Ipv6Address, reverse: bool): (o: Outcome)
    requires s.Consistent()
    ensures o.store.Consistent() && OnlyAppends(s, o.store)
  {
    match address
    case Ipv6Single(t) => Ipv6TypeStep(env, s, t, reverse)
    case Ipv6Multiple(ts) => Ipv6TypesStep(env, s, ts, reverse)
  }

  /** The address of a PTR declaration entry. */
  function ResolvePtr(env: Env, v: PtrValue): Result<IpAddr, AppError>
  {
    match v
    case PtrIp(ip) => Ok(ip)
    case PtrStr(text) => IpFromString(env.parsers, env.zone, env.config, text)
  }

  /** `parse_ptr_value`: one PTR to the current zone, for an address of either family. */
  function PtrValueStep(env: Env, s: Store, v: PtrValue): (o: Outcome)
    requires s.Consistent()
    ensures o.store.Consistent() && OnlyAppends(s, o.store)
  {
    var ip := ResolvePtr(env, v);
    if ip.Err? then Outcome(s, Some(ip.error))
    else
      AddRecordSpec(s, PtrFor(env, ip.value));
      Outcome(s.AddRecord(PtrFor(env, ip.value)).1, None)
  }

  function PtrValuesStep(env: Env, s: Store, vs: seq<PtrValue>): (o: Outcome)
    requires s.Consistent()
    ensures o.store.Consistent() && OnlyAppends(s, o.store)
    decreases |vs|
  {
    if |vs| == 0 then Outcome(s, None)
    else
      var o := PtrValueStep(env, s, vs[0]);
      if o.err.Some? then o
      else
        var r := PtrValuesStep(env, o.store, vs[1..]);
        OnlyAppendsTransitive(s, o.store, r.store);
        r
  }

  /** The record a declaration that maps to exactly one record in the current zone becomes. */
  function SimpleRecord(env: Env, decl: RecordDecl): Record
    requires decl.SoaDecl? || decl.NsDecl? || decl.MxDecl? || decl.CnameDecl? || decl.TxtDecl?
  {
    var owner := env.sub.domain;
    match decl
    case SoaDecl(domain, email, serial, refresh, retry, expire, nct) =>
      Soa(owner, env.zone.WithDomain(domain), env.zone.WithDomain(email), serial, refresh, retry, expire, nct)
    case NsDecl(domain) => Ns(owner, env.zone.WithDomain(domain))
    case MxDecl(priority, domain) => Mx(owner, priority, env.zone.WithDomain(domain))
    case CnameDecl(alias) => Cname(owner, env.zone.WithDomain(alias))
    case TxtDecl(value) => Txt(owner, value)
  }

  /** `parse_record` */
  function RecordStep(env: Env, s: Store, decl: RecordDecl): (o: Outcome)
    requires s.Consistent()
    ensures o.store.Consistent() && OnlyAppends(s, o.store)
  {
    match decl
    case ADecl(address, rev) => Ipv4AddressStep(env, s, address, ReverseOr(rev, env.sub.reverse))
    case AaaaDecl(address, rev) => Ipv6AddressStep(env, s, address, ReverseOr(rev, env.sub.reverse))
    case PtrDecl(ptr) =>
      (match ptr
       case PtrSingle(v) => PtrValueStep(env, s, v)
       case PtrMultiple(vs) => PtrValuesStep(env, s, vs))
    case _ =>
      AddRecordSpec(s, SimpleRecord(env, decl));
      Outcome(s.AddRecord(SimpleRecord(env, decl)).1, None)
  }

  function RecordsStep(env: Env, s: Store, decls: seq<RecordDecl>): (o: Outcome)
    requires s.Consistent()
    ensures o.store.Consistent() && OnlyAppends(s, o.store)
    decreases |decls|
  {
    if |decls| == 0 then Outcome(s, None)
    else
      var o := RecordStep(env, s, decls[0]);
      if o.err.Some? then o
      else
        var r := RecordsStep(env, o.store, decls[1..]);
        OnlyAppendsTransitive(s, o.store, r.store);
        r
  }

  // ---------------------------------------------------------------------
  // the two passes of `app_runner`

  /** A subdomain's records, then one `Blank` in the current zone. */
  function SubDomainStep(p: Parsers, config: ConfigContext, zone: ZoneContext, s: Store, sub: SubDomain): (o: Outcome)
    requires s.Consistent()
    ensures o.store.Consistent() && OnlyAppends(s, o.store)
  {
    var env := Env(p, config, zone, SubDomainContext.New(zone, sub));
    var o := RecordsStep(env, s, sub.records);
    if o.err.Some? then o
    else
      AddRecordSpec(o.store, Blank);
      OnlyAppendsTransitive(s, o.store, o.store.AddRecord(Blank).1);
      Outcome(o.store.AddRecord(Blank).1, None)
  }

  function SubDomainsStep(p: Parsers, config: ConfigContext, zone: ZoneContext, s: Store, subs: seq<SubDomain>): (o: Outcome)
    requires s.Consistent()
    ensures o.store.Consistent() && OnlyAppends(s, o.store)
    decreases |subs|
  {
    if |subs| == 0 then Outcome(s, None)
    else
      var o := SubDomainStep(p, config, zone, s, subs[0]);
      if o.err.Some? then o
      else
        var r := SubDomainsStep(p, config, zone, o.store, subs[1..]);
        OnlyAppendsTransitive(s, o.store, r.store);
        r
  }

  /** What the first pass keeps of a registered zone for the second: its name, context and subdomains. */
  datatype PreBuilt = PreBuilt(name: string, zone: ZoneContext, subdomains: seq<SubDomain>)

  /** The zone `app_runner` registers for a declaration: named after it, its domain as origin, no records. */
  function NewZoneValue(zc: ZoneContext): DnsZone.ZoneValue
  {
    DnsZone.ZoneValue(zc.name, zc.domain, [])
  }

  /** The first pass, one zone declaration: a taken name is skipped, a new one is registered and may become a reverse zone. */
  function RegisterZone(s: Store, z: Zone): (r: (Store, Option<PreBuilt>))
    requires s.Consistent()
    ensures r.0.Consistent()
  {
    var zc := ZoneContext.New(z);
    if s.HasZone(zc.name) then (s, None)
    else
      AddZoneSpec(s, NewZoneValue(zc));
      var s1 := s.AddZone(NewZoneValue(zc)).1;
      SetCursorSpec(s1, zc.name);
      var s2 := match zc.reverseType
        case None => s1
        case Some(V4) => s1.SetRv4(zc.name).1
        case Some(V6) => s1.SetRv6(zc.name).1;
      (s2, Some(PreBuilt(zc.name, zc, z.subdomains)))
  }

  function FirstPass(s: Store, zones: seq<Zone>): (r: (Store, seq<PreBuilt>))
    requires s.Consistent()
    ensures r.0.Consistent()
    decreases |zones|
  {
    if |zones| == 0 then (s, [])
    else
      var head := RegisterZone(s, zones[0]);
      var rest := FirstPass(head.0, zones[1..]);
      (rest.0, (if head.1.Some? then [head.1.value] else []) + rest.1)
  }

  /** The second pass, one registered zone: it becomes current and its subdomains are resolved in order. */
  function ResolveZone(p: Parsers, config: ConfigContext, s: Store, pre: PreBuilt): (o: Outcome)
    requires s.Consistent()
    ensures o.store.Consistent() && Resolves(s, o.store)
  {
    SetCursorSpec(s, pre.name);
    var s1 := s.SetCurrent(pre.name).1;
    GrowsReflexive(s);
    var o := SubDomainsStep(p, config, pre.zone, s1, pre.subdomains);
    ResolvesTransitive(s, s1, o.store);
    o
  }

  function SecondPass(p: Parsers, config: ConfigContext, s: Store, pres: seq<PreBuilt>): (o: Outcome)
    requires s.Consistent()
    ensures o.store.Consistent() && Resolves(s, o.store)
    decreases |pres|
  {
    if |pres| == 0 then Outcome(s, None)
    else
      var o := ResolveZone(p, config, s, pres[0]);
      if o.err.Some? then o
      else
        var r := SecondPass(p, config, o.store, pres[1..]);
        ResolvesTransitive(s, o.store, r.store);
        r
  }

  /** `app_runner` for one configuration file, up to handing the zones to the output loop. */
  function BuildZones(p: Parsers, conf: Config): Outcome
  {
    EmptyStoreSpec();
    var config := ConfigContext.New(conf);
    var first := FirstPass(EmptyStore(), conf.zones);
    SecondPass(p, config, first.0, first.1)
  }

  // ---------------------------------------------------------------------
  // what the record steps do

  /** An address's own `reverse` overrides the flag it is given; a literal address is taken as is. */
  lemma ResolveIpv4Spec(env: Env, t: Ipv4Type, reverse: bool)
    ensures var r := ResolveIpv4(env, t, reverse);
      (r.Ok? ==> r.value.1 == if t.Ipv4Detailed? && t.detail.reverse.Some? then t.detail.reverse.value else reverse)
      && (t.Ipv4Plain? ==> r == Ok((t.ip, reverse)))
      && (t.Ipv4Detailed? && t.detail.ip.V4Ip? ==> r.Ok? && r.value.0 == t.detail.ip.ip)
      && (t.Ipv4Text? ==> (r.Err? <==> Ipv4FromString(env.parsers, env.zone, env.config, t.text).Err?))
  {
  }

  lemma ResolveIpv6Spec(env: Env, t: Ipv6Type, reverse: bool)
    ensures var r := ResolveIpv6(env, t, reverse);
      (r.Ok? ==> r.value.1 == if t.Ipv6Detailed? && t.detail.reverse.Some? then t.detail.reverse.value else reverse)
      && (t.Ipv6Plain? ==> r == Ok((t.ip, reverse)))
      && (t.Ipv6Detailed? && t.detail.ip.V6Ip? ==> r.Ok? && r.value.0 == t.detail.ip.ip)
      && (t.Ipv6Text? ==> (r.Err? <==> Ipv6FromString(env.parsers, env.zone, env.config, t.text).Err?))
  {
  }

  /**
   * `parse_ipv4_type`: an address that cannot be read stops the run with
   * nothing added; without the reverse flag the A record is appended to the
   * current zone; with it the PTR goes to the IPv4 reverse zone first and
   * the A record after it; with no reverse zone the run stops before the A
   * record is added.
   */
  lemma Ipv4TypeStepSpec(env: Env, s: Store, t: Ipv4Type, reverse: bool)
    requires s.Consistent() && s.current.Some?
    ensures var o := Ipv4TypeStep(env, s, t, reverse);
      match ResolveIpv4(env, t, reverse)
      case Err(e) => o == Outcome(s, Some(e))
      case Ok((ip, rev)) =>
        var forward := A(env.sub.domain, ip);
        if !rev then o.err.None? && AppendedTo(s, o.store, s.current.value, forward)
        else if s.reverseV4.None? then o == Outcome(s, Some(ReverseZoneMissing))
        else
          var mid := s.AppendTo(s.reverseV4.value, PtrFor(env, V4Addr(ip)));
          o.err.None? && AppendedTo(s, mid, s.reverseV4.value, PtrFor(env, V4Addr(ip)))
          && AppendedTo(mid, o.store, s.current.value, forward)
  {
    match ResolveIpv4(env, t, reverse)
    case Err(e) =>
    case Ok((ip, rev)) =>
      var forward := A(env.sub.domain, ip);
      if !rev {
        AddRecordSpec(s, forward);
      } else if s.reverseV4.Some? {
        ReverseAddRecordSpec(s, PtrFor(env, V4Addr(ip)));
        AddRecordSpec(s.AppendTo(s.reverseV4.value, PtrFor(env, V4Addr(ip))), forward);
      }
  }

  /** `parse_ipv6_type`, with the AAAA record and the IPv6 reverse zone. */
  lemma Ipv6TypeStepSpec(env: Env, s: Store, t: Ipv6Type, reverse: bool)
    requires s.Consistent() && s.current.Some?
    ensures var o := Ipv6TypeStep(env, s, t, reverse);
      match ResolveIpv6(env, t, reverse)
      case Err(e) => o == Outcome(s, Some(e))
      case Ok((ip, rev)) =>
        var forward := Aaaa(env.sub.domain, ip);
        if !rev then o.err.None? && AppendedTo(s, o.store, s.current.value, forward)
        else if s.reverseV6.None? then o == Outcome(s, Some(ReverseZoneMissing))
        else
          var mid := s.AppendTo(s.reverseV6.value, PtrFor(env, V6Addr(ip)));
          o.err.None? && AppendedTo(s, mid, s.reverseV6.value, PtrFor(env, V6Addr(ip)))
          && AppendedTo(mid, o.store, s.current.value, forward)
  {
    match ResolveIpv6(env, t, reverse)
    case Err(e) =>
    case Ok((ip, rev)) =>
      var forward := Aaaa(env.sub.domain, ip);
      if !rev {
        AddRecordSpec(s, forward);
      } else if s.reverseV6.Some? {
        ReverseAddRecordSpec(s, PtrFor(env, V6Addr(ip)));
        AddRecordSpec(s.AppendTo(s.reverseV6.value, PtrFor(env, V6Addr(ip))), forward);
      }
  }

  /**
   * The PTR a reverse-flagged address produces is owned by the address's
   * full reverse name, under `in-addr.arpa.` or `ip6.arpa.`, and points at
   * the subdomain's domain.
   */
  lemma PtrForSpec(env: Env, ip: IpAddr)
    ensures PtrFor(env, ip).Ptr? && PtrFor(env, ip).domain == env.sub.domain
    ensures ip.V4Addr? ==> PtrFor(env, ip).name == Ipv4ReverseName(ip.v4, true)
    ensures ip.V6Addr? ==> PtrFor(env, ip).name == Ipv6ReverseName(ip.v6, true)
  {
  }

  /**
   * The records SOA, NS, MX, CNAME and TXT declarations become: owned by the
   * subdomain's domain, with every target name qualified so that it ends
   * in a dot, and the TXT value, the MX priority and the SOA timers as given.
   */
  lemma SimpleRecordSpec(env: Env, decl: RecordDecl)
    requires decl.SoaDecl? || decl.NsDecl? || decl.MxDecl? || decl.CnameDecl? || decl.TxtDecl?
    requires EndsWithDot(env.zone.domain)
    ensures var r := SimpleRecord(env, decl);
      !r.Blank? && r.name == env.sub.domain
      && (decl.SoaDecl? ==>
            r.Soa? && EndsWithDot(r.domain) && EndsWithDot(r.email)
            && (EndsWithDot(decl.domain) ==> r.domain == decl.domain)
            && r.serial == decl.serial && r.refresh == decl.refresh && r.retry == decl.retry
            && r.expire == decl.expire && r.nct == decl.nct)
      && (decl.NsDecl? ==>
            r.Ns? && EndsWithDot(r.domain)
            && (!EndsWithDot(decl.domain) ==> r.domain == decl.domain + "." + env.zone.domain))
      && (decl.MxDecl? ==> r.Mx? && r.priority == decl.priority && EndsWithDot(r.domain))
      && (decl.CnameDecl? ==> r.Cname? && EndsWithDot(r.alias))
      && (decl.TxtDecl? ==> r == Txt(env.sub.domain, decl.value))
  {
    match decl
    case SoaDecl(domain, email, _, _, _, _, _) =>
      WithDomainSpec(env.zone, domain);
      WithDomainSpec(env.zone, email);
    case NsDecl(domain) => WithDomainSpec(env.zone, domain);
    case MxDecl(_, domain) => WithDomainSpec(env.zone, domain);
    case CnameDecl(alias) => WithDomainSpec(env.zone, alias);
    case TxtDecl(_) =>
  }

  /** Each SOA, NS, MX, CNAME or TXT declaration appends exactly its one record to the current zone. */
  lemma SimpleRecordStep(env: Env, s: Store, decl: RecordDecl)
    requires s.Consistent() && s.current.Some?
    requires decl.SoaDecl? || decl.NsDecl? || decl.MxDecl? || decl.CnameDecl? || decl.TxtDecl?
    ensures var o := RecordStep(env, s, decl);
      o.err.None? && AppendedTo(s, o.store, s.current.value, SimpleRecord(env, decl))
  {
    AddRecordSpec(s, SimpleRecord(env, decl));
  }

  /** t is s with rs appended, in order, to the zone `name`, and nothing else changed. */
  predicate AppendedAll(s: Store, t: Store, name: string, rs: seq<Record>)
  {
    name in s.zones
    && t.zones.Keys == s.zones.Keys
    && t.zones[name] == s.zones[name].(records := s.zones[name].records + rs)
    && (forall k :: k in s.zones && k != name ==> t.zones[k] == s.zones[k])
    && t.current == s.current && t.reverseV4 == s.reverseV4 && t.reverseV6 == s.reverseV6
  }

  lemma AppendedOne(s: Store, t: Store, name: string, r: Record)
    requires AppendedTo(s, t, name, r)
    ensures AppendedAll(s, t, name, [r])
  {
  }

  lemma AppendedNone(s: Store, name: string)
    requires name in s.zones
    ensures AppendedAll(s, s, name, [])
  {
    assert s.zones[name].records + [] == s.zones[name].records;
  }

  lemma AppendedCompose(s: Store, t: Store, u: Store, name: string, rs: seq<Record>, qs: seq<Record>)
    requires AppendedAll(s, t, name, rs) && AppendedAll(t, u, name, qs)
    ensures AppendedAll(s, u, name, rs + qs)
  {
    assert s.zones[name].records + rs + qs == s.zones[name].records + (rs + qs);
  }

  /** The PTR records a list of readable entries becomes, one per entry, in order. */
  function PtrRecords(env: Env, vs: seq<PtrValue>): (rs: seq<Record>)
    requires forall i :: 0 <= i < |vs| ==> ResolvePtr(env, vs[i]).Ok?
  {
    if |vs| == 0 then [] else [PtrFor(env, ResolvePtr(env, vs[0]).value)] + PtrRecords(env, vs[1..])
  }

  /** A readable entry appends its PTR to the current zone and nothing else. */
  lemma PtrValueStepOk(env: Env, s: Store, v: PtrValue)
    requires s.Consistent() && s.current.Some? && ResolvePtr(env, v).Ok?
    ensures var o := PtrValueStep(env, s, v);
      o.err.None? && o.store.Consistent() && AppendedTo(s, o.store, s.current.value, PtrFor(env, ResolvePtr(env, v).value))
  {
    AddRecordSpec(s, PtrFor(env, ResolvePtr(env, v).value));
  }

  /** An entry that cannot be read stops the declaration with its error and adds nothing. */
  lemma PtrValueStepErr(env: Env, s: Store, v: PtrValue)
    requires s.Consistent() && ResolvePtr(env, v).Err?
    ensures PtrValueStep(env, s, v) == Outcome(s, Some(ResolvePtr(env, v).error))
  {
  }

  /** One step of the loop over a PTR declaration's entries. */
  lemma PtrValuesStepCons(env: Env, s: Store, vs: seq<PtrValue>)
    requires s.Consistent() && |vs| > 0
    ensures var o := PtrValueStep(env, s, vs[0]);
      PtrValuesStep(env, s, vs) == if o.err.Some? then o else PtrValuesStep(env, o.store, vs[1..])
  {
  }

  /** A readable first entry: its PTR is appended, and the rest of the declaration goes on from there. */
  lemma PtrValuesOkCons(env: Env, s: Store, vs: seq<PtrValue>)
    requires s.Consistent() && s.current.Some? && |vs| > 0 && ResolvePtr(env, vs[0]).Ok?
    ensures var s1 := PtrValueStep(env, s, vs[0]).store;
      s1.Consistent() && s1.current == s.current
      && AppendedAll(s, s1, s.current.value, [PtrFor(env, ResolvePtr(env, vs[0]).value)])
      && PtrValuesStep(env, s, vs) == PtrValuesStep(env, s1, vs[1..])
  {
    PtrValueStepOk(env, s, vs[0]);
    PtrValuesStepCons(env, s, vs);
    AppendedOne(s, PtrValueStep(env, s, vs[0]).store, s.current.value, PtrFor(env, ResolvePtr(env, vs[0]).value));
  }

  /** The entries after the first of a readable list are readable, and their records follow the first one's. */
  lemma PtrRecordsCons(env: Env, vs: seq<PtrValue>)
    requires |vs| > 0 && forall i :: 0 <= i < |vs| ==> ResolvePtr(env, vs[i]).Ok?
    ensures forall i :: 0 <= i < |vs[1..]| ==> ResolvePtr(env, vs[1..][i]).Ok?
    ensures PtrRecords(env, vs) == [PtrFor(env, ResolvePtr(env, vs[0]).value)] + PtrRecords(env, vs[1..])
  {
    assert forall i :: 0 <= i < |vs[1..]| ==> vs[1..][i] == vs[i + 1];
  }

  /**
   * A PTR declaration whose entries can all be read appends one PTR per
   * entry to the current zone, in list order, and touches no other zone.
   */
  lemma {:induction false} PtrValuesInOrder(env: Env, s: Store, vs: seq<PtrValue>)
    requires s.Consistent() && s.current.Some?
    requires forall i :: 0 <= i < |vs| ==> ResolvePtr(env, vs[i]).Ok?
    ensures PtrValuesStep(env, s, vs).err.None?
    ensures AppendedAll(s, PtrValuesStep(env, s, vs).store, s.current.value, PtrRecords(env, vs))
    decreases |vs|
  {
    if |vs| == 0 {
      AppendedNone(s, s.current.value);
    } else {
      PtrRecordsCons(env, vs);
      PtrValuesOkCons(env, s, vs);
      var s1 := PtrValueStep(env, s, vs[0]).store;
      var rest := vs[1..];
      PtrValuesInOrder(env, s1, rest);
      AppendedCompose(s, s1, PtrValuesStep(env, s1, rest).store, s.current.value,
                      [PtrFor(env, ResolvePtr(env, vs[0]).value)], PtrRecords(env, rest));
    }
  }

  /** The error of the first entry of a PTR declaration that cannot be read, if any. */
  function PtrError(env: Env, vs: seq<PtrValue>): Option<AppError>
  {
    if |vs| == 0 then None
    else
      var r := ResolvePtr(env, vs[0]);
      if r.Err? then Some(r.error) else PtrError(env, vs[1..])
  }

  /** A PTR declaration stops with the error of its first unreadable entry, and with none if there is none. */
  lemma {:induction false} PtrValuesError(env: Env, s: Store, vs: seq<PtrValue>)
    requires s.Consistent()
    ensures PtrValuesStep(env, s, vs).err == PtrError(env, vs)
    decreases |vs|
  {
    if |vs| > 0 {
      PtrValuesStepCons(env, s, vs);
      if ResolvePtr(env, vs[0]).Ok? {
        PtrValuesError(env, PtrValueStep(env, s, vs[0]).store, vs[1..]);
      }
    }
  }

  lemma {:induction false} PtrErrorAt(env: Env, vs: seq<PtrValue>, i: nat)
    requires i < |vs| && ResolvePtr(env, vs[i]).Err?
    requires forall j :: 0 <= j < i ==> ResolvePtr(env, vs[j]).Ok?
    ensures PtrError(env, vs) == Some(ResolvePtr(env, vs[i]).error)
    decreases i
  {
    if i > 0 {
      var rest := vs[1..];
      assert rest[i - 1] == vs[i];
      assert forall j :: 0 <= j < i - 1 ==> rest[j] == vs[j + 1];
      PtrErrorAt(env, rest, i - 1);
    }
  }

  /** The first entry whose address cannot be read stops the PTR declaration with that entry's error. */
  lemma PtrValuesFail(env: Env, s: Store, vs: seq<PtrValue>, i: nat)
    requires s.Consistent()
    requires i < |vs| && ResolvePtr(env, vs[i]).Err?
    requires forall j :: 0 <= j < i ==> ResolvePtr(env, vs[j]).Ok?
    ensures PtrValuesStep(env, s, vs).err == Some(ResolvePtr(env, vs[i]).error)
  {
    PtrValuesError(env, s, vs);
    PtrErrorAt(env, vs, i);
  }

  /**
   * A subdomain's records are followed by exactly one `Blank` in the current
   * zone; a record that fails stops the run before it.
   */
  lemma SubDomainEndsWithBlank(p: Parsers, config: ConfigContext, zone: ZoneContext, s: Store, sub: SubDomain)
    requires s.Consistent() && s.current.Some?
    ensures var o := SubDomainStep(p, config, zone, s, sub);
      var mid := RecordsStep(Env(p, config, zone, SubDomainContext.New(zone, sub)), s, sub.records);
      (o.err.Some? ==> o == mid)
      && (o.err.None? ==>
            mid.err.None? && AppendedTo(mid.store, o.store, s.current.value, Blank)
            && o.store.zones[s.current.value].records[|o.store.zones[s.current.value].records| - 1] == Blank)
  {
    var mid := RecordsStep(Env(p, config, zone, SubDomainContext.New(zone, sub)), s, sub.records);
    AddRecordSpec(mid.store, Blank);
  }

  // ---------------------------------------------------------------------
  // what the passes do

  /**
   * One declaration of the first pass: a taken name changes nothing and is
   * not handed on; a new one is stored empty, becomes current, becomes its
   * family's reverse zone if it is declared as one, and is handed on.
   */
  lemma RegisterZoneSpec(s: Store, z: Zone)
    requires s.Consistent()
    ensures var r := RegisterZone(s, z);
      var zc := ZoneContext.New(z);
      (r.1.None? <==> z.name in s.zones) && (r.1.None? ==> r.0 == s)
      && (r.1.Some? ==>
            r.1.value == PreBuilt(z.name, zc, z.subdomains)
            && r.0.zones == s.zones[z.name := NewZoneValue(zc)]
            && r.0.current == Some(z.name)
            && forall rt :: ReverseCursor(r.0, rt) == if zc.reverseType == Some(rt) then Some(z.name) else ReverseCursor(s, rt))
  {
    var zc := ZoneContext.New(z);
    if z.name !in s.zones {
      AddZoneSpec(s, NewZoneValue(zc));
      SetCursorSpec(s.AddZone(NewZoneValue(zc)).1, zc.name);
    }
  }

  /** The reverse zone of a family. */
  function ReverseCursor(s: Store, rt: ReverseType): Option<string>
  {
    match rt
    case V4 => s.reverseV4
    case V6 => s.reverseV6
  }

  /** The first pass stores every declared name and leaves the zones already stored alone. */
  lemma {:induction false} FirstPassKeys(s: Store, zones: seq<Zone>)
    requires s.Consistent()
    ensures FirstPass(s, zones).0.zones.Keys == s.zones.Keys + (set i | 0 <= i < |zones| :: zones[i].name)
    ensures forall k :: k in s.zones ==> FirstPass(s, zones).0.zones[k] == s.zones[k]
    decreases |zones|
  {
    if |zones| > 0 {
      var head := RegisterZone(s, zones[0]);
      RegisterZoneSpec(s, zones[0]);
      var rest := zones[1..];
      FirstPassKeys(head.0, rest);
      var names := set i | 0 <= i < |zones| :: zones[i].name;
      var restNames := set i | 0 <= i < |rest| :: rest[i].name;
      assert names == {zones[0].name} + restNames by {
        forall n | n in names
          ensures n in {zones[0].name} + restNames
        {
          var i :| 0 <= i < |zones| && zones[i].name == n;
          if i > 0 {
            assert rest[i - 1].name == n;
          }
        }
        forall n | n in restNames
          ensures n in names
        {
          var i :| 0 <= i < |rest| && rest[i].name == n;
          assert zones[i + 1].name == n;
        }
      }
    }
  }

  /** One step of the first pass. */
  lemma FirstPassCons(s: Store, zones: seq<Zone>)
    requires s.Consistent() && |zones| > 0
    ensures var head := RegisterZone(s, zones[0]);
      var rest := FirstPass(head.0, zones[1..]);
      FirstPass(s, zones) == (rest.0, (if head.1.Some? then [head.1.value] else []) + rest.1)
  {
  }

  /**
   * One iteration of the first pass's loop: registering zone i and
   * appending what it hands on keeps "what is done plus what the rest
   * yields is the whole pass".
   */
  lemma FirstPassAdvance(before: Store, after: Store, pre: Option<PreBuilt>, zones: seq<Zone>, i: nat,
                         done: seq<PreBuilt>, finalStore: Store, finalPres: seq<PreBuilt>)
    requires before.Consistent() && i < |zones|
    requires (after, pre) == RegisterZone(before, zones[i])
    requires FirstPass(before, zones[i..]).0 == finalStore
    requires done + FirstPass(before, zones[i..]).1 == finalPres
    ensures after.Consistent()
    ensures FirstPass(after, zones[i + 1..]).0 == finalStore
    ensures pre.Some? ==> (done + [pre.value]) + FirstPass(after, zones[i + 1..]).1 == finalPres
    ensures pre.None? ==> done + FirstPass(after, zones[i + 1..]).1 == finalPres
  {
    FirstPassCons(before, zones[i..]);
    assert zones[i..][0] == zones[i] && zones[i..][1..] == zones[i + 1..];
    var rest := FirstPass(after, zones[i + 1..]).1;
    if pre.Some? {
      assert done + ([pre.value] + rest) == (done + [pre.value]) + rest;
    } else {
      assert [] + rest == rest;
    }
  }

  /** Each zone the first pass hands on is newly stored, empty, under its context's name. */
  lemma {:induction false} FirstPassHandsOnNew(s: Store, zones: seq<Zone>)
    requires s.Consistent()
    ensures var t := FirstPass(s, zones).0;
      var pres := FirstPass(s, zones).1;
      forall i :: 0 <= i < |pres| ==>
        pres[i].name !in s.zones && pres[i].name in t.zones && pres[i].zone.name == pres[i].name
        && t.zones[pres[i].name] == NewZoneValue(pres[i].zone)
    decreases |zones|
  {
    if |zones| > 0 {
      var head := RegisterZone(s, zones[0]);
      RegisterZoneSpec(s, zones[0]);
      FirstPassCons(s, zones);
      var rest := zones[1..];
      FirstPassHandsOnNew(head.0, rest);
      FirstPassKeys(head.0, rest);
      var t := FirstPass(head.0, rest).0;
      var pres1 := FirstPass(head.0, rest).1;
      var pres := FirstPass(s, zones).1;
      if head.1.Some? {
        var n := zones[0].name;
        assert pres == [head.1.value] + pres1;
        forall i | 0 <= i < |pres|
          ensures pres[i].name !in s.zones && pres[i].name in t.zones && pres[i].zone.name == pres[i].name
          ensures t.zones[pres[i].name] == NewZoneValue(pres[i].zone)
        {
          if i == 0 {
            assert t.zones[n] == head.0.zones[n];
          } else {
            assert pres[i] == pres1[i - 1];
          }
        }
      } else {
        assert pres == pres1;
      }
    }
  }

  /** No name is handed on twice. */
  lemma {:induction false} FirstPassDistinct(s: Store, zones: seq<Zone>)
    requires s.Consistent()
    ensures var pres := FirstPass(s, zones).1;
      forall i, j :: 0 <= i < j < |pres| ==> pres[i].name != pres[j].name
    decreases |zones|
  {
    if |zones| > 0 {
      var head := RegisterZone(s, zones[0]);
      RegisterZoneSpec(s, zones[0]);
      FirstPassCons(s, zones);
      var rest := zones[1..];
      FirstPassDistinct(head.0, rest);
      FirstPassHandsOnNew(head.0, rest);
      var pres1 := FirstPass(head.0, rest).1;
      var pres := FirstPass(s, zones).1;
      if head.1.Some? {
        assert pres == [head.1.value] + pres1;
        forall i, j | 0 <= i < j < |pres|
          ensures pres[i].name != pres[j].name
        {
          assert pres[j] == pres1[j - 1];
          if i > 0 {
            assert pres[i] == pres1[i - 1];
          }
        }
      } else {
        assert pres == pres1;
      }
    }
  }

  /** Every zone the first pass stores is handed on. */
  lemma {:induction false} FirstPassCovers(s: Store, zones: seq<Zone>)
    requires s.Consistent()
    ensures var t := FirstPass(s, zones).0;
      var pres := FirstPass(s, zones).1;
      forall k :: k in t.zones && k !in s.zones ==> exists i :: 0 <= i < |pres| && pres[i].name == k
    decreases |zones|
  {
    if |zones| > 0 {
      var head := RegisterZone(s, zones[0]);
      RegisterZoneSpec(s, zones[0]);
      FirstPassCons(s, zones);
      var rest := zones[1..];
      FirstPassCovers(head.0, rest);
      var t := FirstPass(head.0, rest).0;
      var pres1 := FirstPass(head.0, rest).1;
      var pres := FirstPass(s, zones).1;
      if head.1.Some? {
        var n := zones[0].name;
        assert pres == [head.1.value] + pres1;
        forall k | k in t.zones && k !in s.zones
          ensures exists i :: 0 <= i < |pres| && pres[i].name == k
        {
          if k == n {
            assert pres[0].name == k;
          } else {
            var i :| 0 <= i < |pres1| && pres1[i].name == k;
            assert pres[i + 1].name == k;
          }
        }
      } else {
        assert pres == pres1;
      }
    }
  }

  /**
   * The first pass hands each newly stored zone to the second exactly once,
   * with the context it was stored from, and every zone it stores is one
   * of those, so every zone starts the second pass empty.
   */
  lemma FirstPassPreBuilts(s: Store, zones: seq<Zone>)
    requires s.Consistent()
    ensures var t := FirstPass(s, zones).0;
      var pres := FirstPass(s, zones).1;
      (forall i :: 0 <= i < |pres| ==>
         pres[i].name !in s.zones && pres[i].name in t.zones && pres[i].zone.name == pres[i].name
         && t.zones[pres[i].name] == NewZoneValue(pres[i].zone))
      && (forall i, j :: 0 <= i < j < |pres| ==> pres[i].name != pres[j].name)
      && (forall k :: k in t.zones && k !in s.zones ==> exists i :: 0 <= i < |pres| && pres[i].name == k)
  {
    FirstPassHandsOnNew(s, zones);
    FirstPassDistinct(s, zones);
    FirstPassCovers(s, zones);
  }

  /**
   * The first declaration of a name is the one stored, and it reaches the
   * second pass; a later declaration with that name is skipped.
   */
  lemma {:induction false} FirstPassFirstWins(s: Store, zones: seq<Zone>, i: nat)
    requires s.Consistent() && i < |zones|
    requires zones[i].name !in s.zones && forall j :: 0 <= j < i ==> zones[j].name != zones[i].name
    ensures FirstPass(s, zones).0.zones.Keys >= {zones[i].name}
    ensures FirstPass(s, zones).0.zones[zones[i].name] == NewZoneValue(ZoneContext.New(zones[i]))
    ensures PreBuilt(zones[i].name, ZoneContext.New(zones[i]), zones[i].subdomains) in FirstPass(s, zones).1
    decreases i
  {
    var head := RegisterZone(s, zones[0]);
    RegisterZoneSpec(s, zones[0]);
    var rest := zones[1..];
    FirstPassKeys(head.0, rest);
    if i > 0 {
      assert zones[0].name != zones[i].name;
      assert rest[i - 1] == zones[i];
      forall j | 0 <= j < i - 1
        ensures rest[j].name != rest[i - 1].name
      {
        assert rest[j] == zones[j + 1];
      }
      FirstPassFirstWins(head.0, rest, i - 1);
    }
  }

  /**
   * The reverse zone of a family after registering `pres` in order: each
   * one declared with that reverse type replaces the one before.
   */
  function LastReverse(pres: seq<PreBuilt>, rt: ReverseType, fallback: Option<string>): Option<string>
    decreases |pres|
  {
    if |pres| == 0 then fallback
    else LastReverse(pres[1..], rt, if pres[0].zone.reverseType == Some(rt) then Some(pres[0].name) else fallback)
  }

  /** With no zone of that reverse type, `LastReverse` is the fallback. */
  lemma {:induction false} LastReverseNone(pres: seq<PreBuilt>, rt: ReverseType, fallback: Option<string>)
    requires forall j :: 0 <= j < |pres| ==> pres[j].zone.reverseType != Some(rt)
    ensures LastReverse(pres, rt, fallback) == fallback
    decreases |pres|
  {
    if |pres| > 0 {
      var rest := pres[1..];
      assert forall j :: 0 <= j < |rest| ==> rest[j] == pres[j + 1];
      LastReverseNone(rest, rt, fallback);
    }
  }

  /** `LastReverse` is the name of the last zone declared with that reverse type. */
  lemma {:induction false} LastReverseLast(pres: seq<PreBuilt>, rt: ReverseType, fallback: Option<string>, i: nat)
    requires i < |pres| && pres[i].zone.reverseType == Some(rt)
    requires forall j :: i < j < |pres| ==> pres[j].zone.reverseType != Some(rt)
    ensures LastReverse(pres, rt, fallback) == Some(pres[i].name)
    decreases |pres|
  {
    var rest := pres[1..];
    var next := if pres[0].zone.reverseType == Some(rt) then Some(pres[0].name) else fallback;
    assert forall j :: 0 <= j < |rest| ==> rest[j] == pres[j + 1];
    if i > 0 {
      LastReverseLast(rest, rt, next, i - 1);
    } else {
      LastReverseNone(rest, rt, next);
    }
  }

  /** The first pass sets each family's reverse zone as `LastReverse` over the zones it hands on. */
  lemma {:induction false} FirstPassLastReverse(s: Store, zones: seq<Zone>, rt: ReverseType)
    requires s.Consistent()
    ensures ReverseCursor(FirstPass(s, zones).0, rt) == LastReverse(FirstPass(s, zones).1, rt, ReverseCursor(s, rt))
    decreases |zones|
  {
    if |zones| > 0 {
      var head := RegisterZone(s, zones[0]);
      RegisterZoneSpec(s, zones[0]);
      FirstPassCons(s, zones);
      FirstPassLastReverse(head.0, zones[1..], rt);
      var pres1 := FirstPass(head.0, zones[1..]).1;
      if head.1.Some? {
        var pre := head.1.value;
        assert ([pre] + pres1)[0] == pre && ([pre] + pres1)[1..] == pres1;
        assert ReverseCursor(head.0, rt) == if pre.zone.reverseType == Some(rt) then Some(pre.name) else ReverseCursor(s, rt);
      } else {
        assert [] + pres1 == pres1;
      }
    }
  }

  /**
   * After the first pass each family's reverse zone is the last stored zone
   * declared with that reverse type, or unchanged if there is none: a later
   * reverse zone overrides an earlier one, and a skipped duplicate does not.
   */
  lemma FirstPassReverse(s: Store, zones: seq<Zone>, rt: ReverseType)
    requires s.Consistent()
    ensures var t := FirstPass(s, zones).0;
      var pres := FirstPass(s, zones).1;
      ((forall j :: 0 <= j < |pres| ==> pres[j].zone.reverseType != Some(rt)) ==>
         ReverseCursor(t, rt) == ReverseCursor(s, rt))
      && forall i ::
           (0 <= i < |pres| && pres[i].zone.reverseType == Some(rt)
            && forall j :: i < j < |pres| ==> pres[j].zone.reverseType != Some(rt))
           ==> ReverseCursor(t, rt) == Some(pres[i].name)
  {
    var pres := FirstPass(s, zones).1;
    FirstPassLastReverse(s, zones, rt);
    if forall j :: 0 <= j < |pres| ==> pres[j].zone.reverseType != Some(rt) {
      LastReverseNone(pres, rt, ReverseCursor(s, rt));
    }
    forall i | 0 <= i < |pres| && pres[i].zone.reverseType == Some(rt)
        && forall j :: i < j < |pres| ==> pres[j].zone.reverseType != Some(rt)
      ensures ReverseCursor(FirstPass(s, zones).0, rt) == Some(pres[i].name)
    {
      LastReverseLast(pres, rt, ReverseCursor(s, rt), i);
    }
  }

  /**
   * The zones a file produces are exactly the names it declares, each under
   * its own name, with the name and origin the first pass gave it and the
   * reverse zones the first pass chose; records are only ever appended.
   * Every zone is registered before any record is resolved, so a record may
   * refer to a reverse zone declared after its own zone.
   */
  lemma BuildZonesSpec(p: Parsers, conf: Config)
    ensures EmptyStore().Consistent()
    ensures var t := FirstPass(EmptyStore(), conf.zones).0;
      var o := BuildZones(p, conf);
      o.store.Consistent() && Resolves(t, o.store)
      && o.store.zones.Keys == (set i | 0 <= i < |conf.zones| :: conf.zones[i].name)
      && (forall k :: k in t.zones ==> o.store.zones[k].name == k && t.zones[k].records == [])
  {
    EmptyStoreSpec();
    FirstPassKeys(EmptyStore(), conf.zones);
    FirstPassPreBuilts(EmptyStore(), conf.zones);
  }
}
