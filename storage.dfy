/**
 * `ZoneStorage` of src/dns/mod.rs: the zones of one configuration file keyed
 * by name, a "current" cursor and one designated reverse zone per address
 * family. The cursors only ever name stored zones, which is what makes the
 * `unwrap()` calls of the record-adding methods safe.
 *
 * `Store` is the registry as a value, with one function per method; the
 * class `ZoneStorage` holds the same fields and its methods are proved to
 * change them exactly as those functions say.
 */
module DnsStorage {
  import opened Wrappers
  import opened DnsRecord
  import opened DnsZone

  /** A cursor that is unset or names a stored zone. */
  predicate Names(cursor: Option<string>, zones: map<string, ZoneValue>)
  {
    cursor.Some? ==> cursor.value in zones
  }

  datatype Store = Store(
    zones: map<string, ZoneValue>,
    current: Option<string>,
    reverseV4: Option<string>,
    reverseV6: Option<string>)
  {
    /** Every zone is stored under its own name, and every cursor names a stored zone. */
    predicate Consistent()
    {
      (forall k :: k in zones ==> zones[k].name == k)
      && Names(current, zones) && Names(reverseV4, zones) && Names(reverseV6, zones)
    }

    /** The zone stored under `name` gains r at its end. */
    function AppendTo(name: string, r: Record): Store
      requires name in zones
    {
      this.(zones := zones[name := WithRecord(zones[name], r)])
    }

    /** `set_current` */
    function SetCurrent(name: string): (bool, Store)
    {
      if name in zones then (true, this.(current := Some(name))) else (false, this)
    }

    /** `set_rv4` */
    function SetRv4(name: string): (bool, Store)
    {
      if name in zones then (true, this.(reverseV4 := Some(name))) else (false, this)
    }

    /** `set_rv6` */
    function SetRv6(name: string): (bool, Store)
    {
      if name in zones then (true, this.(reverseV6 := Some(name))) else (false, this)
    }

    /** `add_zone`: a new name is stored and becomes current; a taken name is refused. */
    function AddZone(z: ZoneValue): (bool, Store)
    {
      if z.name in zones then (false, this)
      else (true, this.(zones := zones[z.name := z], current := Some(z.name)))
    }

    /** `has_zone` */
    predicate HasZone(name: string)
    {
      name in zones
    }

    /** `add_record`: to the current zone, if there is one. */
    function AddRecord(r: Record): (bool, Store)
      requires Names(current, zones)
    {
      if current.Some? then (true, AppendTo(current.value, r)) else (false, this)
    }

    /** `zone_add_record`: to the named zone, if it is stored. */
    function ZoneAddRecord(name: string, r: Record): (bool, Store)
    {
      if name in zones then (true, AppendTo(name, r)) else (false, this)
    }

    /** `rv4_add_record`: to the IPv4 reverse zone, if one is designated. */
    function Rv4AddRecord(r: Record): (bool, Store)
      requires Names(reverseV4, zones)
    {
      if reverseV4.Some? then (true, AppendTo(reverseV4.value, r)) else (false, this)
    }

    /** `rv6_add_record`: to the IPv6 reverse zone, if one is designated. */
    function Rv6AddRecord(r: Record): (bool, Store)
      requires Names(reverseV6, zones)
    {
      if reverseV6.Some? then (true, AppendTo(reverseV6.value, r)) else (false, this)
    }
  }

  /** `ZoneStorage::new` */
  function EmptyStore(): Store
  {
    Store(map[], None, None, None)
  }

  /**
   * t is s with r appended to the zone `name` and nothing else changed: the
   * same zone names, the same cursors, every other zone as it was.
   */
  predicate AppendedTo(s: Store, t: Store, name: string, r: Record)
  {
    name in s.zones
    && t.zones.Keys == s.zones.Keys
    && t.zones[name] == WithRecord(s.zones[name], r)
    && (forall k :: k in s.zones && k != name ==> t.zones[k] == s.zones[k])
    && t.current == s.current && t.reverseV4 == s.reverseV4 && t.reverseV6 == s.reverseV6
  }

  /**
   * t extends s: no zone is lost or renamed, names and origins stay, and
   * every zone's records are a prefix of what it holds in t.
   */
  predicate Grows(s: Store, t: Store)
  {
    s.zones.Keys <= t.zones.Keys
    && forall k :: k in s.zones ==>
         t.zones[k].name == s.zones[k].name && t.zones[k].origin == s.zones[k].origin
         && s.zones[k].records <= t.zones[k].records
  }

  lemma GrowsReflexive(s: Store)
    ensures Grows(s, s)
  {
  }

  lemma GrowsTransitive(s: Store, t: Store, u: Store)
    requires Grows(s, t) && Grows(t, u)
    ensures Grows(s, u)
  {
    forall k | k in s.zones
      ensures s.zones[k].records <= u.zones[k].records
    {
      var a, b, c := s.zones[k].records, t.zones[k].records, u.zones[k].records;
      assert a == b[..|a|] && b == c[..|b|];
      assert c[..|b|][..|a|] == c[..|a|];
    }
  }

  /** Appending to one stored zone keeps consistency, grows the store, and changes nothing else. */
  lemma AppendToSpec(s: Store, name: string, r: Record)
    requires s.Consistent() && name in s.zones
    ensures AppendedTo(s, s.AppendTo(name, r), name, r)
    ensures s.AppendTo(name, r).Consistent() && Grows(s, s.AppendTo(name, r))
  {
    var t := s.AppendTo(name, r);
    forall k | k in t.zones
      ensures t.zones[k].name == k
    {
      if k == name {
        assert t.zones[k].name == s.zones[k].name;
      }
    }
  }

  /** A new registry is consistent: no zones, no cursors. */
  lemma EmptyStoreSpec()
    ensures EmptyStore().Consistent() && EmptyStore().zones == map[]
    ensures EmptyStore().current.None? && EmptyStore().reverseV4.None? && EmptyStore().reverseV6.None?
  {
  }

  /**
   * `set_current`, `set_rv4` and `set_rv6` succeed exactly for stored names,
   * move only their own cursor, leave the zones alone, and change nothing
   * at all when they fail; so they keep the cursors pointing at zones.
   */
  lemma SetCursorSpec(s: Store, name: string)
    requires s.Consistent()
    ensures var (ok, t) := s.SetCurrent(name);
      (ok <==> name in s.zones) && t.Consistent() && t.zones == s.zones
      && t.current == (if ok then Some(name) else s.current)
      && t.reverseV4 == s.reverseV4 && t.reverseV6 == s.reverseV6
    ensures var (ok, t) := s.SetRv4(name);
      (ok <==> name in s.zones) && t.Consistent() && t.zones == s.zones
      && t.reverseV4 == (if ok then Some(name) else s.reverseV4)
      && t.current == s.current && t.reverseV6 == s.reverseV6
    ensures var (ok, t) := s.SetRv6(name);
      (ok <==> name in s.zones) && t.Consistent() && t.zones == s.zones
      && t.reverseV6 == (if ok then Some(name) else s.reverseV6)
      && t.current == s.current && t.reverseV4 == s.reverseV4
  {
  }

  /**
   * `add_zone` refuses a taken name and then changes nothing, so the first
   * zone stored under a name stays; otherwise it stores the zone under its
   * name, keeps every other zone, makes it current and leaves the reverse
   * cursors alone.
   */
  lemma AddZoneSpec(s: Store, z: ZoneValue)
    requires s.Consistent()
    ensures var (ok, t) := s.AddZone(z);
      (ok <==> z.name !in s.zones) && t.Consistent() && Grows(s, t)
      && (!ok ==> t == s)
      && (ok ==> t.zones.Keys == s.zones.Keys + {z.name} && t.zones[z.name] == z
                 && t.current == Some(z.name)
                 && t.reverseV4 == s.reverseV4 && t.reverseV6 == s.reverseV6)
  {
    var (ok, t) := s.AddZone(z);
    if ok {
      forall k | k in s.zones
        ensures t.zones[k] == s.zones[k]
      {
        assert k != z.name;
      }
    }
  }

  /**
   * `add_record` succeeds exactly when a zone is current, appends r to that
   * zone alone, and changes nothing when it fails.
   */
  lemma AddRecordSpec(s: Store, r: Record)
    requires s.Consistent()
    ensures var (ok, t) := s.AddRecord(r);
      (ok <==> s.current.Some?) && t.Consistent() && Grows(s, t)
      && (ok ==> AppendedTo(s, t, s.current.value, r)) && (!ok ==> t == s)
  {
    if s.current.Some? {
      AppendToSpec(s, s.current.value, r);
    }
  }

  /** `zone_add_record` succeeds exactly for a stored name and appends r to that zone alone. */
  lemma ZoneAddRecordSpec(s: Store, name: string, r: Record)
    requires s.Consistent()
    ensures var (ok, t) := s.ZoneAddRecord(name, r);
      (ok <==> name in s.zones) && t.Consistent() && Grows(s, t)
      && (ok ==> AppendedTo(s, t, name, r)) && (!ok ==> t == s)
  {
    if name in s.zones {
      AppendToSpec(s, name, r);
    }
  }

  /**
   * `rv4_add_record` and `rv6_add_record` succeed exactly when their family
   * has a reverse zone, append r to that zone alone, and change nothing when
   * there is none. No address is compared with the zone: the record goes to
   * the designated zone, whatever the address.
   */
  lemma ReverseAddRecordSpec(s: Store, r: Record)
    requires s.Consistent()
    ensures var (ok, t) := s.Rv4AddRecord(r);
      (ok <==> s.reverseV4.Some?) && t.Consistent() && Grows(s, t)
      && (ok ==> AppendedTo(s, t, s.reverseV4.value, r)) && (!ok ==> t == s)
    ensures var (ok, t) := s.Rv6AddRecord(r);
      (ok <==> s.reverseV6.Some?) && t.Consistent() && Grows(s, t)
      && (ok ==> AppendedTo(s, t, s.reverseV6.value, r)) && (!ok ==> t == s)
  {
    if s.reverseV4.Some? {
      AppendToSpec(s, s.reverseV4.value, r);
    }
    if s.reverseV6.Some? {
      AppendToSpec(s, s.reverseV6.value, r);
    }
  }

  class ZoneStorage {
    var zones: map<string, ZoneValue>
    var current: Option<string>
    var reverseV4: Option<string>
    var reverseV6: Option<string>

    /** The registry as a value. */
    function View(): Store
      reads this
    {
      Store(zones, current, reverseV4, reverseV6)
    }

    predicate Valid()
      reads this
    {
      View().Consistent()
    }

    /** `ZoneStorage::new` */
    constructor ()
      ensures View() == EmptyStore() && Valid()
    {
      zones := map[];
      current := None;
      reverseV4 := None;
      reverseV6 := None;
    }

    method SetCurrent(name: string) returns (ok: bool)
      requires Valid()
      modifies this
      ensures (ok, View()) == old(View()).SetCurrent(name) && Valid()
    {
      if name in zones {
        current := Some(name);
        ok := true;
      } else {
        ok := false;
      }
      SetCursorSpec(old(View()), name);
    }

    method SetRv4(name: string) returns (ok: bool)
      requires Valid()
      modifies this
      ensures (ok, View()) == old(View()).SetRv4(name) && Valid()
    {
      if name in zones {
        reverseV4 := Some(name);
        ok := true;
      } else {
        ok := false;
      }
      SetCursorSpec(old(View()), name);
    }

    method SetRv6(name: string) returns (ok: bool)
      requires Valid()
      modifies this
      ensures (ok, View()) == old(View()).SetRv6(name) && Valid()
    {
      if name in zones {
        reverseV6 := Some(name);
        ok := true;
      } else {
        ok := false;
      }
      SetCursorSpec(old(View()), name);
    }

    method AddZone(z: ZoneValue) returns (ok: bool)
      requires Valid()
      modifies this
      ensures (ok, View()) == old(View()).AddZone(z) && Valid()
    {
      if z.name in zones {
        ok := false;
      } else {
        current := Some(z.name);
        zones := zones[z.name := z];
        ok := true;
      }
      AddZoneSpec(old(View()), z);
    }

    /** `has_zone` */
    function HasZone(name: string): (b: bool)
      reads this
      ensures b <==> View().HasZone(name)
    {
      name in zones
    }

    method AddRecord(r: Record) returns (ok: bool)
      requires Valid()
      modifies this
      ensures (ok, View()) == old(View()).AddRecord(r) && Valid()
    {
      if current.Some? {
        var name := current.value;
        zones := zones[name := WithRecord(zones[name], r)];
        ok := true;
      } else {
        ok := false;
      }
      AddRecordSpec(old(View()), r);
    }

    method ZoneAddRecord(name: string, r: Record) returns (ok: bool)
      requires Valid()
      modifies this
      ensures (ok, View()) == old(View()).ZoneAddRecord(name, r) && Valid()
    {
      if name in zones {
        zones := zones[name := WithRecord(zones[name], r)];
        ok := true;
      } else {
        ok := false;
      }
      ZoneAddRecordSpec(old(View()), name, r);
    }

    method Rv4AddRecord(r: Record) returns (ok: bool)
      requires Valid()
      modifies this
      ensures (ok, View()) == old(View()).Rv4AddRecord(r) && Valid()
    {
      if reverseV4.Some? {
        var name := reverseV4.value;
        zones := zones[name := WithRecord(zones[name], r)];
        ok := true;
      } else {
        ok := false;
      }
      ReverseAddRecordSpec(old(View()), r);
    }

    method Rv6AddRecord(r: Record) returns (ok: bool)
      requires Valid()
      modifies this
      ensures (ok, View()) == old(View()).Rv6AddRecord(r) && Valid()
    {
      if reverseV6.Some? {
        var name := reverseV6.value;
        zones := zones[name := WithRecord(zones[name], r)];
        ok := true;
      } else {
        ok := false;
      }
      ReverseAddRecordSpec(old(View()), r);
    }

    /** `into_inner`: the zones keyed by name, each stored under its own name. */
    function IntoInner(): (m: map<string, ZoneValue>)
      reads this
      requires Valid()
      ensures m == View().zones && forall k :: k in m ==> m[k].name == k
    {
      zones
    }
  }
}
