/**
 * `Zone`: refreshing the zone cache from the controller's report, and
 * turning a zone off. The refresh runs the upsert-then-sweep pass of
 * `Catalog` keyed by zone NAME over every zone row, zone-set snapshots
 * included, and writes only `pixel_count`.
 */
module Zones {
  import opened Wrappers
  import opened Ruby
  import opened Catalog
  import opened Controller
  import opened ZoneTable
  import ZoneHelper

  /** The request `update_cached` sends: `{cmd: 'toCtlrGet', get: [['zones']]}`. */
  const ZonesRequest: Command := Get("zones")

  /** The reply's `zones` Hash reduced to what the pass reads: each name and its `numPixels`. */
  function PixelCounts(reported: seq<(string, ZoneConfig)>): (r: seq<(string, Option<int>)>)
    ensures |r| == |reported|
    ensures forall i :: 0 <= i < |r| ==> r[i].0 == reported[i].0 && r[i].1 == reported[i].1.numPixels
  {
    seq(|reported|, i requires 0 <= i < |reported| => (reported[i].0, reported[i].1.numPixels))
  }

  /** The last pixel count reported for a name is the `numPixels` of the last description of that name. */
  lemma {:induction false} PixelCountsLast(reported: seq<(string, ZoneConfig)>, n: string)
    ensures LastValueFor(PixelCounts(reported), n).Some? <==> LastValueFor(reported, n).Some?
    ensures LastValueFor(reported, n).Some? ==> LastValueFor(PixelCounts(reported), n).value == LastValueFor(reported, n).value.numPixels
    decreases |reported|
  {
    if |reported| > 0 {
      var init := reported[..|reported| - 1];
      assert PixelCounts(reported)[..|reported| - 1] == PixelCounts(init);
      PixelCountsLast(init, n);
    }
  }

  /**
   * `Zone.update_cached`: ask for the zones, then for each reported name
   * update (or create) the lowest-id zone of that name with the reported
   * pixel count, and destroy every zone that was not touched. A nil reply
   * raises.
   */
  function UpdateCached(zones: seq<Zone>, reply: Option<seq<(string, ZoneConfig)>>): (r: Step<seq<Zone>>)
    requires IdsAscending(zones)
    ensures r.sent == [ZonesRequest]
    ensures r.outcome.Failure? <==> reply.None?
    ensures r.outcome.Success? ==> IdsAscending(r.outcome.value) && KeysUnique(r.outcome.value)
    ensures r.outcome.Success? ==> forall i :: 0 <= i < |r.outcome.value| ==>
              && LastValueFor(reply.value, r.outcome.value[i].key).Some?
              && r.outcome.value[i].value == LastValueFor(reply.value, r.outcome.value[i].key).value.numPixels
    ensures r.outcome.Success? ==> forall n :: n in Keys(reply.value) ==> n in KeysOf(r.outcome.value)
  {
    match reply
    case None => Step([ZonesRequest], Failure(NilReply))
    case Some(reported) =>
      var counts := PixelCounts(reported);
      var t := Sync(zones, counts, Unconfigured);
      SyncOneRowPerKey(zones, counts, Unconfigured);
      assert forall i :: 0 <= i < |t| ==> LastValueFor(reported, t[i].key).Some? && t[i].value == LastValueFor(reported, t[i].key).value.numPixels by {
        forall i | 0 <= i < |t|
          ensures LastValueFor(reported, t[i].key).Some? && t[i].value == LastValueFor(reported, t[i].key).value.numPixels
        {
          PixelCountsLast(reported, t[i].key);
        }
      }
      assert forall n :: n in Keys(reported) ==> n in KeysOf(t) by {
        forall n | n in Keys(reported) ensures n in KeysOf(t) {
          LastValueForPresent(reported, n);
          PixelCountsLast(reported, n);
        }
      }
      Step([ZonesRequest], Success(t))
  }

  /**
   * Zone identity across a refresh: the lowest-id zone of a reported name
   * keeps its id, port map, uuid and zone set; every other surviving old id
   * is such a zone; a zone with a new id is a current zone with no port map
   * or uuid, created for a name no zone had.
   */
  lemma UpdateCachedKeepsIdentity(zones: seq<Zone>, reported: seq<(string, ZoneConfig)>)
    requires IdsAscending(zones)
    ensures var t := UpdateCached(zones, Some(reported)).outcome.value;
      && (forall i :: 0 <= i < |zones| && IsFirst(zones, i) && zones[i].key in Keys(reported) ==>
            zones[i].(value := LastValueFor(reported, zones[i].key).value.numPixels) in t)
      && (forall i, j :: 0 <= i < |zones| && 0 <= j < |t| && t[j].id == zones[i].id ==>
            IsFirst(zones, i) && t[j].key == zones[i].key && t[j].attrs == zones[i].attrs)
      && (forall j :: 0 <= j < |t| && t[j].id !in IdsOf(zones) ==>
            t[j].attrs == Unconfigured && IsCurrent(t[j]) && t[j].key !in KeysOf(zones))
  {
    var counts := PixelCounts(reported);
    SyncKeepsIdentity(zones, counts, Unconfigured);
    forall i | 0 <= i < |zones| && IsFirst(zones, i) && zones[i].key in Keys(reported)
      ensures LastValueFor(reported, zones[i].key).Some? && LastValueFor(counts, zones[i].key).Some?
      ensures LastValueFor(counts, zones[i].key).value == LastValueFor(reported, zones[i].key).value.numPixels
    {
      LastValueForPresent(reported, zones[i].key);
      PixelCountsLast(reported, zones[i].key);
    }
  }

  /**
   * The zones the refresh destroys: every zone that is not the lowest-id zone
   * of its name, and every zone whose name was not reported. Zone-set
   * snapshots are rows of the same table, so they fall under both rules.
   */
  lemma UpdateCachedDestroys(zones: seq<Zone>, reported: seq<(string, ZoneConfig)>)
    requires IdsAscending(zones)
    ensures var t := UpdateCached(zones, Some(reported)).outcome.value;
      forall i :: 0 <= i < |zones| && (!IsFirst(zones, i) || zones[i].key !in Keys(reported)) ==>
        zones[i].id !in IdsOf(t)
  {
    var t := UpdateCached(zones, Some(reported)).outcome.value;
    UpdateCachedKeepsIdentity(zones, reported);
    forall i | 0 <= i < |zones| && (!IsFirst(zones, i) || zones[i].key !in Keys(reported))
      ensures zones[i].id !in IdsOf(t)
    {
      if zones[i].id in IdsOf(t) {
        var j :| 0 <= j < |t| && IdsOf(t)[j] == zones[i].id;
        assert t[j].key == zones[i].key;
        LastValueForPresent(reported, zones[i].key);
      }
    }
  }

  /**
   * A snapshot of a current zone, taken into a zone set, does not survive the
   * next refresh that reports the zone: the name matches the current zone
   * first and the snapshot is swept away.
   */
  lemma SnapshotLostOnRefresh(current: Zone, snapshot: Zone, config: ZoneConfig)
    requires current.id < snapshot.id && current.key == snapshot.key
    requires IsCurrent(current) && !IsCurrent(snapshot)
    ensures UpdateCached([current, snapshot], Some([(current.key, config)])).outcome
         == Success([current.(value := config.numPixels)])
  {
    var zones := [current, snapshot];
    var reported := [(current.key, config)];
    var t := UpdateCached(zones, Some(reported)).outcome.value;
    UpdateCachedKeepsIdentity(zones, reported);
    UpdateCachedDestroys(zones, reported);
    assert Keys(reported) == [current.key];
    assert zones[0].key == zones[1].key;
    assert !IsFirst(zones, 1);
    assert IsFirst(zones, 0);
    assert LastValueFor(reported, current.key) == Some(config);
    assert current.(value := config.numPixels) in t;
    assert |t| == 1 by {
      if |t| > 1 {
        LastValueForPresent(reported, t[0].key);
        LastValueForPresent(reported, t[1].key);
        assert false;
      }
    }
    assert t[0] == current.(value := config.numPixels);
    assert t == [current.(value := config.numPixels)];
  }

  /**
   * Zones are matched by name only: a zone the controller now reports under a
   * new name loses its row, and a fresh, unconfigured row with a new id takes
   * its place.
   */
  lemma RenameReplacesZone(z: Zone, newName: string, config: ZoneConfig)
    requires IsCurrent(z) && z.key != newName
    ensures var t := UpdateCached([z], Some([(newName, config)])).outcome.value;
      && |t| == 1 && t[0].id != z.id
      && t[0] == Row(t[0].id, newName, config.numPixels, Unconfigured)
  {
    var zones := [z];
    var reported := [(newName, config)];
    var t := UpdateCached(zones, Some(reported)).outcome.value;
    UpdateCachedKeepsIdentity(zones, reported);
    UpdateCachedDestroys(zones, reported);
    assert Keys(reported) == [newName];
    assert zones[0].key !in Keys(reported);
    assert zones[0].id !in IdsOf(t);
    assert newName in Keys(reported);
    var j :| 0 <= j < |t| && t[j].key == newName;
    forall i | 0 <= i < |t| ensures t[i].key == newName {
      LastValueForPresent(reported, t[i].key);
    }
    assert KeysUnique(t) && t[j].key == newName;
    assert t[0].key == newName && t[|t| - 1].key == newName;
    assert |t| == 1;
    assert t[0].id !in IdsOf(zones) by {
      assert IdsOf(zones) == [z.id];
      assert t[0].id != z.id by {
        assert t[0].id in IdsOf(t);
      }
    }
  }

  /** Refreshing twice from the same report leaves the table as the first refresh left it. */
  lemma UpdateCachedIdempotent(zones: seq<Zone>, reported: seq<(string, ZoneConfig)>)
    requires IdsAscending(zones)
    ensures var once := UpdateCached(zones, Some(reported)).outcome.value;
      UpdateCached(once, Some(reported)).outcome == Success(once)
  {
    SyncIdempotent(zones, PixelCounts(reported), Unconfigured);
  }

  /** `zones ||= self`: a nil or false argument means the zone itself. */
  function DefaultTarget(arg: Value, self: Option<int>): (r: Value)
    ensures Truthy(arg) ==> r == arg
    ensures !Truthy(arg) ==> r == VZone(self)
  {
    if Truthy(arg) then arg else VZone(self)
  }

  /** `Zone#turn_off(zones = nil)`: with no target, the zone turns itself off if it is current. */
  function TurnOff(self: Zone, arg: Value, zones: seq<Zone>): (r: Command)
    requires IdsAscending(zones)
    ensures r.SetRunPattern? && r.runPattern.state == 0
    ensures Truthy(arg) ==> r == ZoneHelper.TurnOff(arg, zones)
    ensures !Truthy(arg) && self in zones && IsCurrent(self) ==> r.runPattern.zoneName == [self.key]
    ensures !Truthy(arg) && self in zones && !IsCurrent(self) ==> r.runPattern.zoneName == []
  {
    var target := DefaultTarget(arg, Some(self.id));
    if !Truthy(arg) && self in zones && IsCurrent(self) then
      var i :| 0 <= i < |zones| && zones[i] == self;
      FindOwnId(zones, i);
      assert ZoneHelper.Entries(target, zones) == [target];
      assert [target][..0] == [];
      ZoneHelper.TurnOff(target, zones)
    else if !Truthy(arg) && self in zones && !IsCurrent(self) then
      var k :| 0 <= k < |zones| && zones[k] == self;
      assert ZoneHelper.Entries(target, zones) == [target];
      assert [target][..0] == [];
      assert FindCurrent(zones, ById(Some(self.id))).None? by {
        forall i | 0 <= i < |zones| && IsCurrent(zones[i]) ensures !Matches(zones[i], ById(Some(self.id))) {
          assert i != k;
        }
      }
      ZoneHelper.TurnOff(target, zones)
    else
      ZoneHelper.TurnOff(target, zones)
  }
}
