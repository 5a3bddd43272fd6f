/**
 * `ZoneSet`: named snapshots of the current zones, at most one of them the
 * default, and pushing a set's zones to the controller.
 */
module ZoneSets {
  import opened Wrappers
  import opened Ruby
  import opened Catalog
  import opened Controller
  import opened ZoneTable
  import opened Validation
  import Zones

  /** A zone-set row; `default_zone_set` defaults to false. */
  datatype ZoneSet = ZoneSet(id: nat, name: Option<string>, isDefault: bool)

  /** Zone sets are stored in ascending primary-key order. */
  predicate SetIdsAscending(sets: seq<ZoneSet>) {
    forall i, j :: 0 <= i < j < |sets| ==> sets[i].id < sets[j].id
  }

  /** The invariant the `after_save` hook keeps: no two sets are flagged default. */
  predicate AtMostOneDefault(sets: seq<ZoneSet>) {
    forall i, j :: 0 <= i < j < |sets| ==> !(sets[i].isDefault && sets[j].isDefault)
  }

  /** The names of the sets other than the one with id `id`. */
  function OtherNames(sets: seq<ZoneSet>, id: int): (r: seq<Option<string>>)
    ensures forall n :: n in r <==> exists i :: 0 <= i < |sets| && sets[i].id != id && sets[i].name == n
    decreases |sets|
  {
    if |sets| == 0 then []
    else
      var rest := OtherNames(sets[1..], id);
      assert forall i :: 1 <= i < |sets| ==> sets[i] == sets[1..][i - 1];
      if sets[0].id != id then [sets[0].name] + rest else rest
  }

  /** `validates :name, presence: true, uniqueness: { case_sensitive: false }`. */
  predicate Valid(sets: seq<ZoneSet>, s: ZoneSet) {
    Present(s.name) && NameFree(OtherNames(sets, s.id), s.name)
  }

  /** `ZoneSet.default`: the first set flagged default, or nil. */
  function Default(sets: seq<ZoneSet>): (r: Option<ZoneSet>)
    ensures r.Some? ==> exists i :: 0 <= i < |sets| && sets[i] == r.value && r.value.isDefault &&
                          forall j :: 0 <= j < i ==> !sets[j].isDefault
    ensures r.None? <==> forall i :: 0 <= i < |sets| ==> !sets[i].isDefault
  {
    if |sets| == 0 then None
    else if sets[0].isDefault then Some(sets[0])
    else
      var r := Default(sets[1..]);
      assert forall i :: 1 <= i < |sets| ==> sets[i] == sets[1..][i - 1];
      if r.Some? then
        var i :| 0 <= i < |sets[1..]| && sets[1..][i] == r.value && r.value.isDefault &&
                 forall j :: 0 <= j < i ==> !sets[1..][j].isDefault;
        assert sets[i + 1] == r.value;
        r
      else r
  }

  /** The id the database gives a new set: above every existing id. */
  function NextSetId(sets: seq<ZoneSet>): (n: nat)
    ensures forall i :: 0 <= i < |sets| ==> sets[i].id < n
  {
    if |sets| == 0 then 1
    else
      var m := NextSetId(sets[..|sets| - 1]);
      if m <= sets[|sets| - 1].id then sets[|sets| - 1].id + 1 else m
  }

  /** `update_default_zone_set`: when the saved set is the default, every other set stops being one. */
  function ClearOtherDefaults(sets: seq<ZoneSet>, saved: ZoneSet): (r: seq<ZoneSet>)
    ensures |r| == |sets|
    ensures forall i :: 0 <= i < |sets| ==> r[i] == if saved.isDefault && sets[i].id != saved.id then sets[i].(isDefault := false) else sets[i]
  {
    seq(|sets|, i requires 0 <= i < |sets| =>
      if saved.isDefault && sets[i].id != saved.id then sets[i].(isDefault := false) else sets[i])
  }

  /**
   * `save` of a new set (`at` nil) or of the set at index `at`: nothing
   * changes when validation fails; otherwise the set is stored and the
   * `after_save` hook runs.
   */
  function Save(sets: seq<ZoneSet>, at: Option<nat>, name: Option<string>, isDefault: bool): (r: Option<(seq<ZoneSet>, ZoneSet)>)
    requires at.Some? ==> at.value < |sets|
    ensures r.None? <==> !Valid(sets, ZoneSet(if at.Some? then sets[at.value].id else NextSetId(sets), name, isDefault))
    ensures r.Some? ==> r.value.1.name == name && r.value.1.isDefault == isDefault && r.value.1 in r.value.0
    ensures r.Some? && at.None? ==> |r.value.0| == |sets| + 1 && r.value.1 !in sets
    ensures r.Some? && at.Some? ==> |r.value.0| == |sets| && r.value.1.id == sets[at.value].id
  {
    var s := ZoneSet(if at.Some? then sets[at.value].id else NextSetId(sets), name, isDefault);
    if !Valid(sets, s) then None
    else
      var stored := Stored(sets, at, s);
      var r := ClearOtherDefaults(stored, s);
      assert at.Some? ==> r[at.value] == s;
      assert at.None? ==> r[|sets|] == s;
      Some((r, s))
  }

  /** The table with the saved set stored, before the hook runs. */
  function Stored(sets: seq<ZoneSet>, at: Option<nat>, s: ZoneSet): seq<ZoneSet>
    requires at.Some? ==> at.value < |sets|
  {
    if at.Some? then sets[at.value := s] else sets + [s]
  }

  /** Storing a set under its own id (or a fresh one) keeps ids ascending, and a non-default one adds no default. */
  lemma StoredKeepsOrder(sets: seq<ZoneSet>, at: Option<nat>, s: ZoneSet)
    requires at.Some? ==> at.value < |sets| && s.id == sets[at.value].id
    requires at.None? ==> s.id == NextSetId(sets)
    requires SetIdsAscending(sets) && AtMostOneDefault(sets)
    ensures SetIdsAscending(Stored(sets, at, s))
    ensures !s.isDefault ==> AtMostOneDefault(Stored(sets, at, s))
  {
  }

  /** After the hook, a default saved set is the only default; otherwise nothing changed. */
  lemma ClearLeavesOneDefault(stored: seq<ZoneSet>, s: ZoneSet, k: int)
    requires 0 <= k < |stored| && stored[k] == s
    requires SetIdsAscending(stored)
    requires !s.isDefault ==> AtMostOneDefault(stored)
    ensures SetIdsAscending(ClearOtherDefaults(stored, s))
    ensures AtMostOneDefault(ClearOtherDefaults(stored, s))
  {
    var t := ClearOtherDefaults(stored, s);
    if s.isDefault {
      assert forall i :: 0 <= i < |t| && t[i].isDefault ==> stored[i].id == s.id;
    } else {
      assert t == stored;
    }
  }

  /**
   * Saving keeps at most one default: a saved default set is the only default
   * afterwards, every other set is kept with only its default flag cleared,
   * and saving a set that is not the default changes no other set.
   */
  lemma SaveKeepsOneDefault(sets: seq<ZoneSet>, at: Option<nat>, name: Option<string>, isDefault: bool)
    requires at.Some? ==> at.value < |sets|
    requires SetIdsAscending(sets) && AtMostOneDefault(sets)
    ensures var r := Save(sets, at, name, isDefault);
      r.Some? ==> && SetIdsAscending(r.value.0)
                  && AtMostOneDefault(r.value.0)
                  && (isDefault ==> forall i :: 0 <= i < |r.value.0| && r.value.0[i].id != r.value.1.id ==> !r.value.0[i].isDefault)
                  && (isDefault ==> forall i :: 0 <= i < |sets| && (at.None? || i != at.value) ==> r.value.0[i] == sets[i].(isDefault := false))
                  && (!isDefault ==> forall i :: 0 <= i < |sets| && (at.None? || i != at.value) ==> r.value.0[i] == sets[i])
  {
    var r := Save(sets, at, name, isDefault);
    if r.Some? {
      var s := r.value.1;
      var stored := Stored(sets, at, s);
      assert r.value.0 == ClearOtherDefaults(stored, s);
      StoredKeepsOrder(sets, at, s);
      var k := if at.Some? then at.value else |sets|;
      ClearLeavesOneDefault(stored, s, k);
    }
  }

  /** After a set is saved as the default, `ZoneSet.default` returns it. */
  lemma SavedDefaultIsDefault(sets: seq<ZoneSet>, at: Option<nat>, name: Option<string>)
    requires at.Some? ==> at.value < |sets|
    requires SetIdsAscending(sets) && AtMostOneDefault(sets)
    requires Save(sets, at, name, true).Some?
    ensures Default(Save(sets, at, name, true).value.0) == Some(Save(sets, at, name, true).value.1)
  {
    var (t, s) := Save(sets, at, name, true).value;
    SaveKeepsOneDefault(sets, at, name, true);
    var k :| 0 <= k < |t| && t[k] == s;
    assert Default(t).Some?;
    var i :| 0 <= i < |t| && t[i] == Default(t).value && t[i].isDefault;
    assert t[i].id == s.id;
  }

  /** The names of a table's sets, in order. */
  function Names(sets: seq<ZoneSet>): (r: seq<Option<string>>)
    ensures |r| == |sets| && forall i :: 0 <= i < |sets| ==> r[i] == sets[i].name
  {
    seq(|sets|, i requires 0 <= i < |sets| => sets[i].name)
  }

  /** A table whose sets were all saved through validation never holds two names equal up to case. */
  lemma SaveKeepsNamesDistinct(sets: seq<ZoneSet>, at: Option<nat>, name: Option<string>, isDefault: bool)
    requires at.Some? ==> at.value < |sets|
    requires SetIdsAscending(sets) && NamesDistinct(Names(sets))
    requires Save(sets, at, name, isDefault).Some?
    ensures NamesDistinct(Names(Save(sets, at, name, isDefault).value.0))
  {
    var (t, s) := Save(sets, at, name, isDefault).value;
    var stored := Stored(sets, at, s);
    assert t == ClearOtherDefaults(stored, s);
    var k := if at.Some? then at.value else |sets|;
    assert forall i :: 0 <= i < |t| ==> t[i].name == stored[i].name;
    assert NameFree(OtherNames(sets, s.id), s.name);
    forall i | 0 <= i < |sets| && i != k ensures !SameIgnoringCase(sets[i].name, s.name) {
      assert sets[i].id != s.id;
      assert sets[i].name in OtherNames(sets, s.id);
    }
    forall i, j | 0 <= i < j < |t| ensures !SameIgnoringCase(Names(t)[i], Names(t)[j]) {
      if i == k {
        assert !SameIgnoringCase(sets[j].name, s.name);
      } else if j == k {
        assert !SameIgnoringCase(sets[i].name, s.name);
      } else {
        assert Names(t)[i] == Names(sets)[i] && Names(t)[j] == Names(sets)[j];
      }
    }
  }

  /**
   * `create_from_current(name)`: create the set, add a copy of every current
   * zone pointing at it, then reload it. When the name is invalid the set is
   * not created, the copies point at no set (so they are CURRENT zones), and
   * the reload raises.
   */
  function CreateFromCurrent(sets: seq<ZoneSet>, zones: seq<Zone>, name: Option<string>): (r: (seq<ZoneSet>, seq<Zone>, Result<ZoneSet, Error>))
    requires IdsAscending(zones)
    ensures r.2.Success? <==> Save(sets, None, name, false).Some?
    ensures r.2.Success? ==> r.0 == Save(sets, None, name, false).value.0 && r.2.value == Save(sets, None, name, false).value.1
    ensures r.2.Failure? ==> r.0 == sets && r.2.error == RecordNotFound
    ensures |r.1| == |zones| + |ZonesWhere(zones, None)| && r.1[..|zones|] == zones
    ensures IdsAscending(r.1)
    ensures forall k :: 0 <= k < |ZonesWhere(zones, None)| ==>
              IsCopy(r.1[|zones| + k], ZonesWhere(zones, None)[k], if r.2.Success? then Some(r.2.value.id) else None)
  {
    var created := Save(sets, None, name, false);
    var setId: Option<nat> := if created.Some? then Some(created.value.1.id) else None;
    var zones' := CopyAll(zones, ZonesWhere(zones, None), setId);
    if created.Some? then (created.value.0, zones', Success(created.value.1))
    else (sets, zones', Failure(RecordNotFound))
  }

  /** Zone `c` is `z.dup` with `zone_set_id` replaced: same name, pixel count, port map and uuid. */
  predicate IsCopy(c: Zone, z: Zone, setId: Option<nat>) {
    c.key == z.key && c.value == z.value && c.attrs == z.attrs.(zoneSet := setId)
  }

  /** `Zone.create` of a copy of each zone in `originals`, in order, each with a fresh id. */
  function CopyAll(zones: seq<Zone>, originals: seq<Zone>, setId: Option<nat>): (r: seq<Zone>)
    requires IdsAscending(zones)
    ensures |r| == |zones| + |originals| && r[..|zones|] == zones
    ensures IdsAscending(r)
    ensures forall k :: 0 <= k < |originals| ==> IsCopy(r[|zones| + k], originals[k], setId)
    decreases |originals|
  {
    if |originals| == 0 then zones
    else
      var z := originals[0];
      var c := Row(NextId(zones), z.key, z.value, z.attrs.(zoneSet := setId));
      var r := CopyAll(zones + [c], originals[1..], setId);
      assert (zones + [c])[..|zones|] == zones;
      assert r[..|zones|] == r[..|zones| + 1][..|zones|];
      assert r[|zones|] == c;
      r
  }

  /** The snapshot leaves the current zones, and every other zone, exactly as they were. */
  lemma CreateFromCurrentKeepsZones(sets: seq<ZoneSet>, zones: seq<Zone>, name: Option<string>)
    requires IdsAscending(zones)
    ensures forall i :: 0 <= i < |zones| ==> CreateFromCurrent(sets, zones, name).1[i] == zones[i]
  {
    var r := CreateFromCurrent(sets, zones, name).1;
    assert r[..|zones|] == zones;
    forall i | 0 <= i < |zones| ensures r[i] == zones[i] {
      assert r[..|zones|][i] == r[i];
    }
  }

  /** Every zone's `zone_set_id` names an existing set (`has_many :zones, dependent: :destroy`). */
  predicate SetsExist(sets: seq<ZoneSet>, zones: seq<Zone>) {
    forall i :: 0 <= i < |zones| && zones[i].attrs.zoneSet.Some? ==>
      exists j :: 0 <= j < |sets| && sets[j].id == zones[i].attrs.zoneSet.value
  }

  /** With a valid name, the new set holds one copy of each current zone, and nothing else. */
  lemma CreateFromCurrentFillsSet(sets: seq<ZoneSet>, zones: seq<Zone>, name: Option<string>)
    requires IdsAscending(zones) && SetsExist(sets, zones)
    requires Save(sets, None, name, false).Some?
    ensures var r := CreateFromCurrent(sets, zones, name);
      && r.2.Success?
      && |ZonesWhere(r.1, Some(r.2.value.id))| == |ZonesWhere(zones, None)|
      && forall c :: c in ZonesWhere(r.1, Some(r.2.value.id)) ==> exists z :: z in ZonesWhere(zones, None) && IsCopy(c, z, Some(r.2.value.id))
  {
    var r := CreateFromCurrent(sets, zones, name);
    var id := r.2.value.id;
    assert id == NextSetId(sets);
    assert forall i :: 0 <= i < |zones| ==> zones[i].attrs.zoneSet != Some(id);
    WhereAppendCopies(zones, ZonesWhere(zones, None), r.1, id);
  }

  /** The set's zones after the copies are appended: exactly the copies. */
  lemma {:induction false} WhereAppendCopies(zones: seq<Zone>, cur: seq<Zone>, all: seq<Zone>, id: nat)
    requires forall i :: 0 <= i < |zones| ==> zones[i].attrs.zoneSet != Some(id)
    requires |all| == |zones| + |cur| && all[..|zones|] == zones
    requires forall k :: 0 <= k < |cur| ==> IsCopy(all[|zones| + k], cur[k], Some(id))
    ensures |ZonesWhere(all, Some(id))| == |cur|
    ensures forall c :: c in ZonesWhere(all, Some(id)) ==> exists z :: z in cur && IsCopy(c, z, Some(id))
    decreases |zones|
  {
    if |zones| == 0 {
      CopiesAllInSet(all, cur, id);
    } else {
      assert all[0] == zones[0];
      assert all[1..][..|zones[1..]|] == zones[1..];
      assert forall k :: 0 <= k < |cur| ==> IsCopy(all[1..][|zones[1..]| + k], cur[k], Some(id)) by {
        forall k | 0 <= k < |cur| ensures IsCopy(all[1..][|zones[1..]| + k], cur[k], Some(id)) {
          assert all[1..][|zones[1..]| + k] == all[|zones| + k];
        }
      }
      WhereAppendCopies(zones[1..], cur, all[1..], id);
    }
  }

  /** A table made only of copies into set `id` is all in that set. */
  lemma {:induction false} CopiesAllInSet(all: seq<Zone>, cur: seq<Zone>, id: nat)
    requires |all| == |cur|
    requires forall k :: 0 <= k < |cur| ==> IsCopy(all[k], cur[k], Some(id))
    ensures |ZonesWhere(all, Some(id))| == |cur|
    ensures forall c :: c in ZonesWhere(all, Some(id)) ==> exists z :: z in cur && IsCopy(c, z, Some(id))
    decreases |all|
  {
    if |all| > 0 {
      assert forall k :: 0 <= k < |cur[1..]| ==> all[1..][k] == all[k + 1] && cur[1..][k] == cur[k + 1];
      CopiesAllInSet(all[1..], cur[1..], id);
      forall c | c in ZonesWhere(all, Some(id)) ensures exists z :: z in cur && IsCopy(c, z, Some(id)) {
        if c == all[0] {
          assert IsCopy(c, cur[0], Some(id));
        } else {
          assert c in ZonesWhere(all[1..], Some(id));
          var z :| z in cur[1..] && IsCopy(c, z, Some(id));
          assert z in cur;
        }
      }
    }
  }

  /** One zone of the set as the save message describes it: `name => {numPixels, portMap}`. */
  function Describe(z: Zone): (string, ZoneConfig) {
    (z.key, ZoneConfig(z.value, z.attrs.portMap))
  }

  /**
   * The `zones` Hash of the save message: built by `zone_hash[z.name] = ...`
   * over the set's zones, so names are distinct, in order of first
   * appearance, each with the description of the LAST zone of that name.
   */
  function SaveMessage(setZones: seq<Zone>): (r: Command)
    ensures r.SaveZones? && KeysDistinct(r.zones)
    ensures forall n :: HashGet(r.zones, n).Some? <==> exists i :: 0 <= i < |setZones| && setZones[i].key == n
    ensures forall i :: 0 <= i < |setZones| && (forall j :: i < j < |setZones| ==> setZones[j].key != setZones[i].key) ==>
              HashGet(r.zones, setZones[i].key) == Some(ZoneConfig(setZones[i].value, setZones[i].attrs.portMap))
  {
    var pairs := seq(|setZones|, i requires 0 <= i < |setZones| => Describe(setZones[i]));
    HashFromPairsSpec(pairs);
    forall n ensures HashGet(HashFromPairs(pairs), n).Some? <==> exists i :: 0 <= i < |setZones| && setZones[i].key == n {
      LastValueForPresent(pairs, n);
      if n in Keys(pairs) {
        var i :| 0 <= i < |pairs| && Keys(pairs)[i] == n;
        assert setZones[i].key == n;
      }
      if exists i :: 0 <= i < |setZones| && setZones[i].key == n {
        var i :| 0 <= i < |setZones| && setZones[i].key == n;
        assert Keys(pairs)[i] == n;
      }
    }
    forall i | 0 <= i < |setZones| && (forall j :: i < j < |setZones| ==> setZones[j].key != setZones[i].key)
      ensures HashGet(HashFromPairs(pairs), setZones[i].key) == Some(ZoneConfig(setZones[i].value, setZones[i].attrs.portMap))
    {
      LastPairWins(pairs, i);
    }
    SaveZones(HashFromPairs(pairs))
  }

  /** The pair at index `i` is the last for its key when no later pair shares the key. */
  lemma {:induction false} LastPairWins<K, V>(pairs: seq<(K, V)>, i: int)
    requires 0 <= i < |pairs|
    requires forall j :: i < j < |pairs| ==> pairs[j].0 != pairs[i].0
    ensures LastValueFor(pairs, pairs[i].0) == Some(pairs[i].1)
    decreases |pairs|
  {
    if i < |pairs| - 1 {
      var init := pairs[..|pairs| - 1];
      assert init[i] == pairs[i];
      LastPairWins(init, i);
    }
  }

  /**
   * `ZoneSet#activate`: push the set's zones to the controller with
   * `save: true`, then refresh the zone cache. The save's reply is ignored.
   */
  function Activate(zoneSet: ZoneSet, zones: seq<Zone>, reply: Option<seq<(string, ZoneConfig)>>): (r: Step<seq<Zone>>)
    requires IdsAscending(zones)
    ensures |r.sent| == 2 && r.sent[0] == SaveMessage(ZonesWhere(zones, Some(zoneSet.id))) && r.sent[1] == Zones.ZonesRequest
    ensures r.outcome == Zones.UpdateCached(zones, reply).outcome
  {
    var refresh := Zones.UpdateCached(zones, reply);
    Step([SaveMessage(ZonesWhere(zones, Some(zoneSet.id)))] + refresh.sent, refresh.outcome)
  }

  /**
   * The admin page always snapshots under the name 'Update Me', so once a set
   * of that name exists the next snapshot fails validation: it adds copies of
   * the current zones that belong to no set, and then raises.
   */
  lemma RepeatedSnapshotFails(sets: seq<ZoneSet>, zones: seq<Zone>, taken: int)
    requires IdsAscending(zones)
    requires 0 <= taken < |sets| && sets[taken].name == Some("Update Me")
    ensures var r := CreateFromCurrent(sets, zones, Some("Update Me"));
      && r.2 == Failure(RecordNotFound) && r.0 == sets
      && forall k :: |zones| <= k < |r.1| ==> IsCurrent(r.1[k])
  {
    var n := NextSetId(sets);
    assert sets[taken].id != n;
    assert sets[taken].name in OtherNames(sets, n);
    assert !NameFree(OtherNames(sets, n), Some("Update Me"));
    var r := CreateFromCurrent(sets, zones, Some("Update Me"));
    forall k | |zones| <= k < |r.1| ensures IsCurrent(r.1[k]) {
      assert IsCopy(r.1[|zones| + (k - |zones|)], ZonesWhere(zones, None)[k - |zones|], None);
    }
  }
}
