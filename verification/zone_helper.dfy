/**
 * `ZoneHelper`, the concern shared by zones, patterns and displays: turning a
 * mixed list of zone references into names of current zones, the turn-off
 * message built from them, and the attribute-derived zone uuid.
 */
module ZoneHelper {
  import opened Wrappers
  import opened Ruby
  import opened Catalog
  import opened Controller
  import opened ZoneTable
  import opened Lists

  /** The symbol `:all`. */
  const All: Value := VSym("all")

  /** A string looked up as a uuid: 36 characters that split on '-' into five fields. */
  predicate UuidShaped(s: string) {
    |s| == 36 && |Split(s, '-')| == 5
  }

  /** The lookup `parameterize_zones` runs for one entry; entries of any other kind have none. */
  function QueryFor(v: Value): (r: Option<Query>)
    ensures r.None? <==> !(v.VInt? || v.VZone? || v.VStr?)
    ensures v.VStr? ==> r.Some? && (r.value.ByUuid? <==> UuidShaped(v.s)) && (r.value.ByUuid? || r.value.ByName?)
    ensures v.VStr? ==> (r.value.ByUuid? && r.value.uuid == v.s) || (r.value.ByName? && r.value.name == v.s)
    ensures v.VInt? ==> r == Some(ById(Some(v.i)))
    ensures v.VZone? ==> r == Some(ById(v.zoneId))
  {
    match v
    case VInt(i) => Some(ById(Some(i)))
    case VZone(id) => Some(ById(id))
    case VStr(s) => if UuidShaped(s) then Some(ByUuid(s)) else Some(ByName(s))
    case _ => None
  }

  /** The name one entry resolves to (`...&.name`), or nil. */
  function ResolveOne(v: Value, zones: seq<Zone>): (r: Option<string>)
    ensures r.Some? ==> IsCurrentName(zones, r.value)
    ensures r.Some? ==> QueryFor(v).Some? && exists i :: 0 <= i < |zones| && IsCurrent(zones[i]) && zones[i].key == r.value && Matches(zones[i], QueryFor(v).value)
    ensures QueryFor(v).Some? && (exists i :: 0 <= i < |zones| && IsCurrent(zones[i]) && Matches(zones[i], QueryFor(v).value)) ==> r.Some?
  {
    match QueryFor(v)
    case None => None
    case Some(q) =>
      match FindCurrent(zones, q)
      case None => None
      case Some(z) => Some(z.key)
  }

  /** The per-entry resolution, as the block passed to `map`. */
  function Resolver(zones: seq<Zone>): Value -> Option<string> {
    v => ResolveOne(v, zones)
  }

  /** What `parameterize_zones` maps over: every zone's name for `:all`, else `Array.wrap(zones)`. */
  function Entries(arg: Value, zones: seq<Zone>): (r: seq<Value>)
    ensures arg == All ==> |r| == |zones| && forall i :: 0 <= i < |zones| ==> r[i] == VStr(zones[i].key)
    ensures arg != All ==> r == ArrayWrap(arg)
  {
    if arg == All then seq(|zones|, i requires 0 <= i < |zones| => VStr(zones[i].key))
    else ArrayWrap(arg)
  }

  /**
   * `parameterize_zones(zones)`: resolve every entry and drop the nils. Only
   * names of current zones come out, at most one per entry.
   */
  function ParameterizeZones(arg: Value, zones: seq<Zone>): (r: seq<string>)
    ensures |r| <= |Entries(arg, zones)|
    ensures forall n :: n in r ==> IsCurrentName(zones, n)
  {
    var entries := Entries(arg, zones);
    var r := FilterMap(entries, Resolver(zones));
    assert forall n :: n in r ==> IsCurrentName(zones, n) by {
      forall n | n in r ensures IsCurrentName(zones, n) {
        var i :| 0 <= i < |entries| && Resolver(zones)(entries[i]) == Some(n);
        assert ResolveOne(entries[i], zones) == Some(n);
      }
    }
    r
  }

  /** Resolving a list resolves its parts in order: nothing is reordered or deduplicated. */
  lemma ParameterizeZonesAppend(a: seq<Value>, b: seq<Value>, zones: seq<Zone>)
    ensures ParameterizeZones(VArray(a + b), zones) == ParameterizeZones(VArray(a), zones) + ParameterizeZones(VArray(b), zones)
  {
    FilterMapAppend(a, b, Resolver(zones));
  }

  /** Reference reading of the `map`/`- [nil]` pair: walk the entries front to back, keeping each name found. */
  function ResolveAll(vs: seq<Value>, zones: seq<Zone>): seq<string>
    decreases |vs|
  {
    if |vs| == 0 then []
    else
      (match ResolveOne(vs[0], zones) case None => [] case Some(n) => [n]) + ResolveAll(vs[1..], zones)
  }

  /** The `map` over the entries keeps each resolved name at its entry's position, in entry order. */
  lemma {:induction false} FilterMapIsResolveAll(vs: seq<Value>, zones: seq<Zone>)
    ensures FilterMap(vs, Resolver(zones)) == ResolveAll(vs, zones)
    decreases |vs|
  {
    if |vs| > 0 {
      assert vs == [vs[0]] + vs[1..];
      FilterMapAppend([vs[0]], vs[1..], Resolver(zones));
      FilterMapIsResolveAll(vs[1..], zones);
      FilterMapOne(vs[0], Resolver(zones));
      assert Resolver(zones)(vs[0]) == ResolveOne(vs[0], zones);
    }
  }

  /** `parameterize_zones` lists the resolved names in the order of the entries they came from. */
  lemma ParameterizeZonesInOrder(arg: Value, zones: seq<Zone>)
    ensures ParameterizeZones(arg, zones) == ResolveAll(Entries(arg, zones), zones)
  {
    FilterMapIsResolveAll(Entries(arg, zones), zones);
  }

  /** Every entry that resolves contributes its name; every name comes from an entry that resolves to it. */
  lemma ParameterizeZonesMembers(arg: Value, zones: seq<Zone>, n: string)
    ensures n in ParameterizeZones(arg, zones) <==>
            exists i :: 0 <= i < |Entries(arg, zones)| && ResolveOne(Entries(arg, zones)[i], zones) == Some(n)
  {
    var entries := Entries(arg, zones);
    if exists i :: 0 <= i < |entries| && ResolveOne(entries[i], zones) == Some(n) {
      var i :| 0 <= i < |entries| && ResolveOne(entries[i], zones) == Some(n);
      FilterMapKeeps(entries, Resolver(zones), i);
    }
    if n in ParameterizeZones(arg, zones) {
      var i :| 0 <= i < |entries| && Resolver(zones)(entries[i]) == Some(n);
      assert ResolveOne(entries[i], zones) == Some(n);
    }
  }

  /** `ParameterizeZonesMembers` for every name at once. */
  lemma ParameterizeZonesExactly(arg: Value, zones: seq<Zone>)
    ensures forall n :: n in ParameterizeZones(arg, zones) <==>
              exists i :: 0 <= i < |Entries(arg, zones)| && ResolveOne(Entries(arg, zones)[i], zones) == Some(n)
  {
    forall n ensures n in ParameterizeZones(arg, zones) <==>
                     exists i :: 0 <= i < |Entries(arg, zones)| && ResolveOne(Entries(arg, zones)[i], zones) == Some(n)
    {
      ParameterizeZonesMembers(arg, zones, n);
    }
  }

  /**
   * With `:all`, the result holds exactly the names of the current zones,
   * provided no zone is named like a uuid (such a name is looked up by uuid).
   */
  lemma AllIsCurrentNames(zones: seq<Zone>, n: string)
    requires forall i :: 0 <= i < |zones| ==> !UuidShaped(zones[i].key)
    ensures n in ParameterizeZones(All, zones) <==> IsCurrentName(zones, n)
  {
    var entries := Entries(All, zones);
    ParameterizeZonesMembers(All, zones, n);
    if IsCurrentName(zones, n) {
      var i :| 0 <= i < |zones| && IsCurrent(zones[i]) && zones[i].key == n;
      assert entries[i] == VStr(n);
      assert FindCurrent(zones, ByName(n)).Some? by {
        assert IsCurrent(zones[i]) && Matches(zones[i], ByName(n));
      }
      assert ResolveOne(entries[i], zones) == Some(n);
    }
  }

  /**
   * `:all` walks the names of EVERY zone, zone-set snapshots included, so a
   * snapshot sharing a current zone's name makes that name appear twice.
   */
  lemma AllRepeatsSharedNames(current: Zone, snapshot: Zone)
    requires IsCurrent(current) && !IsCurrent(snapshot)
    requires current.key == snapshot.key && !UuidShaped(current.key)
    ensures ParameterizeZones(All, [current, snapshot]) == [current.key, current.key]
  {
    var zones := [current, snapshot];
    var e := VStr(current.key);
    assert Entries(All, zones) == [e] + [e];
    assert FindCurrent(zones, ByName(current.key)) == Some(current) by {
      assert FirstCurrentMatch(zones, ByName(current.key)) == Some(0);
    }
    assert Resolver(zones)(e) == Some(current.key);
    FilterMapAppend([e], [e], Resolver(zones));
    assert FilterMap([e], Resolver(zones)) == [current.key] by {
      assert [e][..0] == [];
    }
  }

  /** A zone named like a uuid cannot be reached by its name: the entry goes to the uuid lookup. */
  lemma UuidShapedNameUnreachable(zones: seq<Zone>, s: string)
    requires UuidShaped(s)
    requires forall i :: 0 <= i < |zones| ==> zones[i].attrs.uuid != Some(s)
    ensures ResolveOne(VStr(s), zones).None?
  {
    assert FindCurrent(zones, ByUuid(s)).None?;
  }

  /** Every uuid in the canonical 8-4-4-4-12 layout takes the uuid lookup. */
  lemma CanonicalUuidIsUuidShaped(a: string, b: string, c: string, d: string, e: string)
    requires |a| == 8 && |b| == 4 && |c| == 4 && |d| == 4 && |e| == 12
    requires '-' !in a && '-' !in b && '-' !in c && '-' !in d && '-' !in e
    ensures UuidShaped(a + "-" + b + "-" + c + "-" + d + "-" + e)
  {
    var t3 := d + ['-'] + e;
    var t2 := c + ['-'] + t3;
    var t1 := b + ['-'] + t2;
    var t0 := a + ['-'] + t1;
    assert a + "-" + b + "-" + c + "-" + d + "-" + e == t0;
    FieldsOfUnseparated(e, '-');
    FieldsOfSeparated(d, '-', e);
    FieldsOfSeparated(c, '-', t3);
    FieldsOfSeparated(b, '-', t2);
    FieldsOfSeparated(a, '-', t1);
    assert Fields(t0, '-') == [a, b, c, d, e];
    assert e != "";
  }

  /**
   * `turn_off(zones)`: a `runPattern` with state 0 and empty file, data and
   * id, aimed at exactly the names the entries resolve to, in entry order.
   */
  function TurnOff(arg: Value, zones: seq<Zone>): (r: Command)
    ensures r.SetRunPattern? && r.runPattern.state == 0
    ensures r.runPattern.file == "" && r.runPattern.data == "" && r.runPattern.id == ""
    ensures forall n :: n in r.runPattern.zoneName ==> IsCurrentName(zones, n)
    ensures |r.runPattern.zoneName| <= |Entries(arg, zones)|
    ensures forall n :: n in r.runPattern.zoneName <==>
              exists i :: 0 <= i < |Entries(arg, zones)| && ResolveOne(Entries(arg, zones)[i], zones) == Some(n)
    ensures r.runPattern.zoneName == ResolveAll(Entries(arg, zones), zones)
  {
    ParameterizeZonesExactly(arg, zones);
    ParameterizeZonesInOrder(arg, zones);
    SetRunPattern(RunPattern("", 0, ParameterizeZones(arg, zones), "", ""))
  }

  /** Turning off a list of references targets the first part's names, then the second part's. */
  lemma TurnOffAppend(a: seq<Value>, b: seq<Value>, zones: seq<Zone>)
    ensures TurnOff(VArray(a + b), zones).runPattern.zoneName ==
            TurnOff(VArray(a), zones).runPattern.zoneName + TurnOff(VArray(b), zones).runPattern.zoneName
  {
    ParameterizeZonesAppend(a, b, zones);
  }

  /** The class-level `turn_off` with its default argument `:all`. */
  function TurnOffAll(zones: seq<Zone>): (r: Command)
    ensures r.SetRunPattern? && r.runPattern.state == 0
    ensures (forall i :: 0 <= i < |zones| ==> !UuidShaped(zones[i].key)) ==>
              forall n :: n in r.runPattern.zoneName <==> IsCurrentName(zones, n)
  {
    var r := TurnOff(All, zones);
    if forall i :: 0 <= i < |zones| ==> !UuidShaped(zones[i].key) then
      assert forall n :: n in r.runPattern.zoneName <==> IsCurrentName(zones, n) by {
        forall n ensures n in r.runPattern.zoneName <==> IsCurrentName(zones, n) {
          AllIsCurrentNames(zones, n);
        }
      }
      r
    else r
  }

  /** What `uuid_from_attributes` hashes: `{pixel_count:, port_map:}.to_json`. */
  datatype Fingerprint = Fingerprint(pixelCount: Option<int>, portMap: Option<seq<Segment>>)

  /** `uuid_from_attributes`, with the SHA-1 name-based uuid under namespace "ZoneHash" as the parameter `digest`. */
  function UuidFromAttributes(z: Zone, digest: Fingerprint -> string): string {
    digest(Fingerprint(z.value, z.attrs.portMap))
  }

  /** `uuid_from_json`: the uuid of an unsaved zone built from a controller description. */
  function UuidFromJson(config: ZoneConfig, digest: Fingerprint -> string): string {
    UuidFromAttributes(Row(0, "", config.numPixels, ZoneAttrs(config.portMap, None, None)), digest)
  }

  /**
   * The uuid depends on pixel count and port map only: a controller
   * description and any zone with the same two values get the same uuid,
   * whatever the zone's id, name, stored uuid or zone set.
   */
  lemma UuidFromJsonAgrees(config: ZoneConfig, z: Zone, digest: Fingerprint -> string)
    requires z.value == config.numPixels && z.attrs.portMap == config.portMap
    ensures UuidFromJson(config, digest) == UuidFromAttributes(z, digest)
  {
  }

  /**
   * A reported zone is found by its uuid: when a current zone stores the
   * uuid its own pixel count and port map give, a controller description
   * with that pixel count and port map resolves, through its uuid, to the
   * name of a current zone storing that uuid.
   */
  lemma UuidLookupFindsZone(config: ZoneConfig, zones: seq<Zone>, k: nat, digest: Fingerprint -> string)
    requires k < |zones| && IsCurrent(zones[k])
    requires zones[k].attrs.uuid == Some(UuidFromAttributes(zones[k], digest))
    requires zones[k].value == config.numPixels && zones[k].attrs.portMap == config.portMap
    requires UuidShaped(UuidFromJson(config, digest))
    ensures ResolveOne(VStr(UuidFromJson(config, digest)), zones).Some?
    ensures exists i :: 0 <= i < |zones| && IsCurrent(zones[i]) && zones[i].attrs.uuid == Some(UuidFromJson(config, digest)) &&
                        ResolveOne(VStr(UuidFromJson(config, digest)), zones) == Some(zones[i].key)
  {
    var u := UuidFromJson(config, digest);
    UuidFromJsonAgrees(config, zones[k], digest);
    assert Matches(zones[k], ByUuid(u));
    var i := FirstCurrentMatch(zones, ByUuid(u)).value;
    assert ResolveOne(VStr(u), zones) == Some(zones[i].key);
  }

  /** Two zones that differ only in id, name, stored uuid or zone set get the same uuid. */
  lemma UuidIgnoresIdentity(z1: Zone, z2: Zone, digest: Fingerprint -> string)
    requires z1.value == z2.value && z1.attrs.portMap == z2.attrs.portMap
    ensures UuidFromAttributes(z1, digest) == UuidFromAttributes(z2, digest)
  {
  }
}
