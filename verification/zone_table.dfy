/**
 * The `zones` table and the `Zone.current.find_by_*` lookups over it.
 * A zone is current when it belongs to no zone set; zone-set snapshots are
 * rows of the same table with a `zone_set_id`.
 */
module ZoneTable {
  import opened Wrappers
  import opened Catalog
  import opened Controller

  /** The columns of a zone row that a cache sync never writes. */
  datatype ZoneAttrs = ZoneAttrs(portMap: Option<seq<Segment>>, uuid: Option<string>, zoneSet: Option<nat>)

  /** A zone row: the cache sync looks zones up by `name` and writes only `pixel_count`. */
  type Zone = Row<string, Option<int>, ZoneAttrs>

  /** The columns `Zone.where(name: n).first_or_initialize` starts a new zone with. */
  const Unconfigured: ZoneAttrs := ZoneAttrs(None, None, None)

  /** `Zone.current`: the zone belongs to no zone set. */
  predicate IsCurrent(z: Zone) {
    z.attrs.zoneSet.None?
  }

  /** Some current zone of the table carries name `n`. */
  ghost predicate IsCurrentName(zones: seq<Zone>, n: string) {
    exists i :: 0 <= i < |zones| && IsCurrent(zones[i]) && zones[i].key == n
  }

  /** The three lookups: `find_by_id` (nil for an unsaved record), `find_by_uuid`, `find_by_name`. */
  datatype Query = ById(id: Option<int>) | ByUuid(uuid: string) | ByName(name: string)

  /** Zone `z` satisfies the lookup's `WHERE` clause. */
  predicate Matches(z: Zone, q: Query) {
    match q
    case ById(id) => id == Some(z.id)
    case ByUuid(u) => z.attrs.uuid == Some(u)
    case ByName(n) => z.key == n
  }

  /** The index of the lowest-id current zone that the lookup matches, or nil. */
  function FirstCurrentMatch(zones: seq<Zone>, q: Query): (r: Option<nat>)
    ensures r.Some? ==> r.value < |zones| && IsCurrent(zones[r.value]) && Matches(zones[r.value], q)
    ensures r.Some? ==> forall j :: 0 <= j < r.value ==> !(IsCurrent(zones[j]) && Matches(zones[j], q))
    ensures r.None? <==> forall i :: 0 <= i < |zones| ==> !(IsCurrent(zones[i]) && Matches(zones[i], q))
  {
    if |zones| == 0 then None
    else if IsCurrent(zones[0]) && Matches(zones[0], q) then Some(0)
    else
      match FirstCurrentMatch(zones[1..], q)
      case None =>
        assert forall i :: 1 <= i < |zones| ==> zones[i] == zones[1..][i - 1];
        None
      case Some(i) =>
        assert forall j :: 1 <= j < |zones| ==> zones[j] == zones[1..][j - 1];
        Some(i + 1)
  }

  /** `Zone.current.find_by_...`: the lowest-id current zone the lookup matches, or nil. */
  function FindCurrent(zones: seq<Zone>, q: Query): (r: Option<Zone>)
    ensures r.Some? ==> r.value in zones && IsCurrent(r.value) && Matches(r.value, q)
    ensures r.None? <==> forall i :: 0 <= i < |zones| ==> !(IsCurrent(zones[i]) && Matches(zones[i], q))
  {
    match FirstCurrentMatch(zones, q)
    case None => None
    case Some(i) => Some(zones[i])
  }

  /** With distinct ids, looking a current zone up by its own id finds that zone. */
  lemma FindOwnId(zones: seq<Zone>, i: int)
    requires IdsAscending(zones)
    requires 0 <= i < |zones| && IsCurrent(zones[i])
    ensures FindCurrent(zones, ById(Some(zones[i].id))) == Some(zones[i])
  {
    var q := ById(Some(zones[i].id));
    var m := FirstCurrentMatch(zones, q);
    assert m.Some? by {
      assert IsCurrent(zones[i]) && Matches(zones[i], q);
    }
    assert m.value == i;
  }

  /** `Zone.where(zone_set_id: s)`: the zones of one set (`Zone.current` for nil), in id order. */
  function ZonesWhere(zones: seq<Zone>, setId: Option<nat>): (r: seq<Zone>)
    ensures |r| <= |zones|
    ensures forall z :: z in r <==> z in zones && z.attrs.zoneSet == setId
    ensures IdsAscending(zones) ==> IdsAscending(r)
  {
    if |zones| == 0 then []
    else
      var rest := ZonesWhere(zones[1..], setId);
      assert forall i :: 1 <= i < |zones| ==> zones[i] == zones[1..][i - 1];
      if zones[0].attrs.zoneSet == setId then [zones[0]] + rest else rest
  }

  /** A zone added at the end of the table comes last among its set's zones. */
  lemma {:induction false} ZonesWhereAppend(zones: seq<Zone>, z: Zone, setId: Option<nat>)
    ensures ZonesWhere(zones + [z], setId) == ZonesWhere(zones, setId) + (if z.attrs.zoneSet == setId then [z] else [])
    decreases |zones|
  {
    if |zones| > 0 {
      assert (zones + [z])[1..] == zones[1..] + [z];
      ZonesWhereAppend(zones[1..], z, setId);
    }
  }
}
