/**
 * The contexts of src/context.rs: the defaults of a configuration file, a
 * zone and a subdomain, how names are made fully qualified, and key
 * lookup. None of them changes after it is built, so they are values.
 */
module Context {
  import opened Wrappers
  import opened Text
  import opened ConfigFile

  /** The default TTL of a zone. */
  const DefaultTtl := 604800

  /** `get_reverse` (and the same `match` in the contexts): a `Str` counts as set. */
  function GetReverse(v: ReverseValue): bool
  {
    match v
    case RevBool(b) => b
    case RevStr(_) => true
  }

  /** An optional reverse flag with a fallback for when it is absent. */
  function ReverseOr(v: Option<ReverseValue>, fallback: bool): bool
  {
    match v
    case Some(which) => GetReverse(which)
    case None => fallback
  }

  /** The flag is set exactly when it is `Bool(true)` or any `Str`, or absent and the fallback is set. */
  lemma ReverseOrSpec(v: Option<ReverseValue>, fallback: bool)
    ensures ReverseOr(v, fallback)
      <==> v == Some(RevBool(true)) || (v.Some? && v.value.RevStr?) || (v.None? && fallback)
  {
  }

  /** `s.ends_with(".")` after appending a text that ends with a dot. */
  lemma EndsWithDotAppend(s: string, t: string)
    requires EndsWithDot(t)
    ensures EndsWithDot(s + t) && EndsWithDot(s + "." + t)
  {
    assert (s + t)[|s + t| - 1] == t[|t| - 1];
    assert (s + "." + t)[|s + "." + t| - 1] == t[|t| - 1];
  }

  datatype ConfigContext = ConfigContext(directory: string, keys: KeysMap)
  {
    /** `ConfigContext::new` (the file path is not part of this model). */
    static function New(conf: Config): ConfigContext
    {
      ConfigContext(conf.directory.GetOr(""), conf.keys.GetOr(map[]))
    }

    /** `find_key` */
    function FindKey(key: string): (r: Option<string>)
      ensures r.Some? <==> key in keys
      ensures r.Some? ==> r.value == keys[key]
    {
      if key in keys then Some(keys[key]) else None
    }
  }

  /** A file without a directory has directory `""`, and one without keys finds none. */
  lemma ConfigContextDefaults(conf: Config)
    ensures ConfigContext.New(conf).directory == if conf.directory.Some? then conf.directory.value else ""
    ensures conf.keys.None? ==> forall k :: ConfigContext.New(conf).FindKey(k).None?
    ensures conf.keys.Some? ==> ConfigContext.New(conf).keys == conf.keys.value
  {
  }

  datatype ZoneContext = ZoneContext(
    name: string,
    domain: string,
    reverse: bool,
    reverseType: Option<ReverseType>,
    ttl: nat,
    keys: KeysMap)
  {
    /** `ZoneContext::new`: the domain (or else the name) with a dot appended, whatever it ends with. */
    static function New(z: Zone): ZoneContext
    {
      ZoneContext(
        z.name,
        z.domain.GetOr(z.name) + ".",
        ReverseOr(z.reverse, false),
        z.reverseType,
        z.ttl.GetOr(DefaultTtl),
        z.keys.GetOr(map[]))
    }

    /** `with_domain`: a name ending in a dot is kept, any other is qualified with the zone's domain. */
    function WithDomain(d: string): string
    {
      if EndsWithDot(d) then d else d + "." + domain
    }

    /** `find_key` */
    function FindKey(key: string): (r: Option<string>)
      ensures r.Some? <==> key in keys
      ensures r.Some? ==> r.value == keys[key]
    {
      if key in keys then Some(keys[key]) else None
    }
  }

  /**
   * A zone's context: its declared domain, or else its name, followed by one
   * more dot even when it already ends in one; TTL 604800 unless given; the
   * reverse flag `Bool(b)` is b, `Str` is true and absent is false.
   */
  lemma ZoneContextDefaults(z: Zone)
    ensures var c := ZoneContext.New(z);
      var declared := if z.domain.Some? then z.domain.value else z.name;
      c.name == z.name
      && c.domain[..|declared|] == declared && |c.domain| == |declared| + 1 && EndsWithDot(c.domain)
      && c.ttl == (if z.ttl.Some? then z.ttl.value else 604800)
      && (c.reverse <==> z.reverse == Some(RevBool(true)) || (z.reverse.Some? && z.reverse.value.RevStr?))
      && c.reverseType == z.reverseType
  {
    var c := ZoneContext.New(z);
    var declared := if z.domain.Some? then z.domain.value else z.name;
    assert c.domain == declared + ".";
    ReverseOrSpec(z.reverse, false);
  }

  /** A domain that already ends in a dot gets a second one. */
  lemma ZoneDomainDoubleDot(z: Zone)
    requires z.domain.Some? && EndsWithDot(z.domain.value)
    ensures var d := ZoneContext.New(z).domain; |d| >= 2 && d[|d| - 2..] == ".."
  {
    var d := ZoneContext.New(z).domain;
    assert d == z.domain.value + ".";
    assert d[|d| - 2] == z.domain.value[|z.domain.value| - 1];
  }

  /**
   * With a zone domain that ends in a dot, `with_domain` keeps a qualified
   * name, qualifies any other, and always returns a name ending in a dot.
   */
  lemma WithDomainSpec(c: ZoneContext, d: string)
    requires EndsWithDot(c.domain)
    ensures EndsWithDot(c.WithDomain(d))
    ensures EndsWithDot(d) ==> c.WithDomain(d) == d
    ensures !EndsWithDot(d) ==> c.WithDomain(d) == d + "." + c.domain
  {
    EndsWithDotAppend(d, c.domain);
  }

  /** Qualifying a name twice is qualifying it once. */
  lemma WithDomainIdempotent(c: ZoneContext, d: string)
    requires EndsWithDot(c.domain)
    ensures c.WithDomain(c.WithDomain(d)) == c.WithDomain(d)
  {
    WithDomainSpec(c, d);
  }

  /** Every zone context built from a configuration qualifies names to ones ending in a dot. */
  lemma ZoneWithDomainQualifies(z: Zone, d: string)
    ensures EndsWithDot(ZoneContext.New(z).WithDomain(d))
    ensures ZoneContext.New(z).WithDomain(ZoneContext.New(z).WithDomain(d)) == ZoneContext.New(z).WithDomain(d)
  {
    ZoneContextDefaults(z);
    WithDomainSpec(ZoneContext.New(z), d);
    WithDomainIdempotent(ZoneContext.New(z), d);
  }

  /** The owner a subdomain's records get: kept if qualified, the zone's domain for `@`, else qualified. */
  function SubDomainOwner(declared: string, zoneDomain: string): string
  {
    if EndsWithDot(declared) then declared
    else if declared == "@" then zoneDomain
    else declared + "." + zoneDomain
  }

  datatype SubDomainContext = SubDomainContext(name: string, domain: string, reverse: bool)
  {
    /** `SubDomainContext::new`: the reverse flag is inherited from the zone unless the subdomain sets one. */
    static function New(zone: ZoneContext, sub: SubDomain): SubDomainContext
    {
      SubDomainContext(
        sub.name,
        SubDomainOwner(sub.domain.GetOr(sub.name), zone.domain),
        ReverseOr(sub.reverse, zone.reverse))
    }
  }

  /**
   * A subdomain's owner name is its declared domain, or else its name: kept
   * when it ends in a dot, exactly the zone's domain for `@`, and qualified
   * with the zone's domain otherwise, so it always ends in a dot. Its
   * reverse flag is its own if given and the zone's otherwise.
   */
  lemma SubDomainContextSpec(zone: ZoneContext, sub: SubDomain)
    requires EndsWithDot(zone.domain)
    ensures var c := SubDomainContext.New(zone, sub);
      var declared := if sub.domain.Some? then sub.domain.value else sub.name;
      EndsWithDot(c.domain)
      && (EndsWithDot(declared) ==> c.domain == declared)
      && (declared == "@" ==> c.domain == zone.domain)
      && (!EndsWithDot(declared) && declared != "@" ==> c.domain == declared + "." + zone.domain)
      && (c.reverse <==> if sub.reverse.Some? then GetReverse(sub.reverse.value) else zone.reverse)
  {
    var declared := if sub.domain.Some? then sub.domain.value else sub.name;
    EndsWithDotAppend(declared, zone.domain);
  }
}
