/**
 * `ZoneBuilder`: assembling a new zone's port map segment by segment from
 * 1-based light positions, numbering each segment's first RGB index by the
 * lights already added.
 */
module ZoneBuilder {
  import opened Wrappers
  import opened Ruby
  import opened Catalog
  import opened Controller
  import opened ZoneTable

  /**
   * A builder: the controller name read at construction, the segments so far,
   * the new zone's own attributes, and, once `@zone` has been saved, the row
   * it was inserted as.
   */
  datatype Builder = Builder(controllerName: string, ports: seq<Segment>, name: string, attrs: ZoneAttrs, saved: Option<Persisted>)

  /** The primary key `@zone` received on its first `save!`, and the segments its latest `save!` wrote. */
  datatype Persisted = Persisted(id: nat, ports: seq<Segment>)

  /** `Integer#abs`. */
  function Abs(x: int): nat {
    if x < 0 then -x else x
  }

  /** The lights one segment covers: `(phyEndIdx - phyStartIdx).abs + 1`. */
  function SegmentLength(s: Segment): nat {
    Abs(s.phyEndIdx - s.phyStartIdx) + 1
  }

  /** `rgb_count`: the segment lengths summed front to back, as `map { ... }.sum` does. */
  function RgbCount(ports: seq<Segment>): (r: nat)
    ensures r >= |ports|
    ensures forall k :: 0 <= k < |ports| ==> r >= SegmentLength(ports[k])
  {
    if |ports| == 0 then 0
    else
      assert forall k :: 1 <= k < |ports| ==> ports[k] == ports[1..][k - 1];
      SegmentLength(ports[0]) + RgbCount(ports[1..])
  }

  /** Adding a segment at the end adds its length to the count. */
  lemma {:induction false} RgbCountAppend(ports: seq<Segment>, s: Segment)
    ensures RgbCount(ports + [s]) == RgbCount(ports) + SegmentLength(s)
    decreases |ports|
  {
    if |ports| == 0 {
      assert [s][1..] == [];
    } else {
      assert (ports + [s])[1..] == ports[1..] + [s];
      RgbCountAppend(ports[1..], s);
    }
  }

  /**
   * `ZoneBuilder.new(attributes)`: the controller name is the `ctlrName` of
   * the first port-map segment of the first current zone (lowest id). When
   * that segment does not exist (no current zone, or a nil or empty port map)
   * the lookup calls a method on nil and raises `NoMethodError`; a blank name
   * raises the "add a zone and update cached" error.
   */
  function New(zones: seq<Zone>, name: string, attrs: ZoneAttrs): (r: Result<Builder, Error>)
    ensures var c := ZonesWhere(zones, None);
            r.Success? <==> |c| > 0 && c[0].attrs.portMap.Some? && |c[0].attrs.portMap.value| > 0 &&
                            !IsBlankString(c[0].attrs.portMap.value[0].ctlrName)
    ensures var c := ZonesWhere(zones, None);
            r.Success? ==> r.value == Builder(c[0].attrs.portMap.value[0].ctlrName, [], name, attrs, None)
    ensures r.Success? ==> exists z :: z in zones && IsCurrent(z) && z.attrs.portMap.Some? &&
                            |z.attrs.portMap.value| > 0 && z.attrs.portMap.value[0].ctlrName == r.value.controllerName
    ensures var c := ZonesWhere(zones, None);
            r == Failure(NoSegment) <==> |c| == 0 || c[0].attrs.portMap.None? || |c[0].attrs.portMap.value| == 0
    ensures r.Failure? ==> r.error == NoController || r.error == NoSegment
  {
    var current := ZonesWhere(zones, None);
    if |current| == 0 then Failure(NoSegment)
    else
      assert current[0] in zones && IsCurrent(current[0]);
      match current[0].attrs.portMap
      case None => Failure(NoSegment)
      case Some(segments) =>
        if |segments| == 0 then Failure(NoSegment)
        else if IsBlankString(segments[0].ctlrName) then Failure(NoController)
        else Success(Builder(segments[0].ctlrName, [], name, attrs, None))
  }

  /**
   * `add(port, start, end, reverse)`: append a segment with 0-based physical
   * indices (start and end swapped when reversed) whose RGB start index is the
   * count of lights before it.
   */
  function Add(b: Builder, port: int, start: int, end: int, reverse: bool): (r: Builder)
    ensures |r.ports| == |b.ports| + 1 && r.ports[..|b.ports|] == b.ports
    ensures r.controllerName == b.controllerName && r.name == b.name && r.attrs == b.attrs && r.saved == b.saved
    ensures r.ports[|b.ports|].ctlrName == b.controllerName && r.ports[|b.ports|].phyPort == port
    ensures r.ports[|b.ports|].phyStartIdx + 1 == (if reverse then end else start)
    ensures r.ports[|b.ports|].phyEndIdx + 1 == (if reverse then start else end)
    ensures r.ports[|b.ports|].zoneRGBStartIdx == RgbCount(b.ports)
    ensures RgbCount(r.ports) == RgbCount(b.ports) + Abs(end - start) + 1
  {
    var sl := (if reverse then end else start) - 1;
    var el := (if reverse then start else end) - 1;
    var s := Segment(b.controllerName, port, sl, el, RgbCount(b.ports));
    RgbCountAppend(b.ports, s);
    assert (b.ports + [s])[..|b.ports|] == b.ports;
    b.(ports := b.ports + [s])
  }

  /** The builder's invariant: every segment carries the controller name and starts where the previous ones end. */
  ghost predicate WellBuilt(b: Builder) {
    forall k :: 0 <= k < |b.ports| ==>
      b.ports[k].ctlrName == b.controllerName && b.ports[k].zoneRGBStartIdx == RgbCount(b.ports[..k])
  }

  /** A new builder is well built, and `add` keeps it so. */
  lemma AddKeepsWellBuilt(b: Builder, port: int, start: int, end: int, reverse: bool)
    requires WellBuilt(b)
    ensures WellBuilt(Add(b, port, start, end, reverse))
  {
    var r := Add(b, port, start, end, reverse);
    forall k | 0 <= k < |r.ports| ensures r.ports[k].ctlrName == r.controllerName && r.ports[k].zoneRGBStartIdx == RgbCount(r.ports[..k]) {
      if k < |b.ports| {
        assert r.ports[..k] == b.ports[..k];
        assert r.ports[k] == b.ports[k];
      } else {
        assert r.ports[..k] == b.ports;
      }
    }
  }

  /** The builder `New` returns is well built. */
  lemma NewIsWellBuilt(zones: seq<Zone>, name: string, attrs: ZoneAttrs)
    requires New(zones, name, attrs).Success?
    ensures WellBuilt(New(zones, name, attrs).value)
  {
  }

  /**
   * In a well-built builder the segments tile the zone's RGB indices: each
   * starts where the previous one ends, and the last ends at `rgb_count`.
   */
  lemma {:induction false} SegmentsTile(b: Builder)
    requires WellBuilt(b)
    ensures |b.ports| > 0 ==> b.ports[0].zoneRGBStartIdx == 0
    ensures forall k :: 0 <= k < |b.ports| - 1 ==>
              b.ports[k + 1].zoneRGBStartIdx == b.ports[k].zoneRGBStartIdx + SegmentLength(b.ports[k])
    ensures |b.ports| > 0 ==> b.ports[|b.ports| - 1].zoneRGBStartIdx + SegmentLength(b.ports[|b.ports| - 1]) == RgbCount(b.ports)
  {
    forall k | 0 <= k < |b.ports| - 1
      ensures b.ports[k + 1].zoneRGBStartIdx == b.ports[k].zoneRGBStartIdx + SegmentLength(b.ports[k])
    {
      assert b.ports[..k + 1] == b.ports[..k] + [b.ports[k]];
      RgbCountAppend(b.ports[..k], b.ports[k]);
    }
    if |b.ports| > 0 {
      var n := |b.ports| - 1;
      assert b.ports == b.ports[..n] + [b.ports[n]];
      RgbCountAppend(b.ports[..n], b.ports[n]);
    }
  }

  /** The reversal flag changes the direction of a segment, not how many lights it covers. */
  lemma ReverseKeepsCount(b: Builder, port: int, start: int, end: int)
    ensures RgbCount(Add(b, port, start, end, true).ports) == RgbCount(Add(b, port, start, end, false).ports)
  {
  }

  /**
   * `save!`. The first call inserts `@zone` with `pixel_count = rgb_count`
   * and `port_map` = the segments, under a fresh id. Every later call updates
   * that same row, writing only the columns whose value differs from what the
   * builder last saved; when the row has been destroyed meanwhile the update
   * matches nothing and the table is unchanged. Every other zone is untouched.
   */
  function Save(b: Builder, zones: seq<Zone>): (r: (seq<Zone>, Builder))
    requires IdsAscending(zones)
    ensures IdsAscending(r.0)
    ensures r.1.saved.Some? && r.1.saved.value.ports == b.ports && r.1.(saved := b.saved) == b
    ensures b.saved.None? ==>
              |r.0| == |zones| + 1 && r.0[..|zones|] == zones &&
              r.0[|zones|].id == r.1.saved.value.id && r.0[|zones|].id !in IdsOf(zones) && r.0[|zones|].key == b.name &&
              r.0[|zones|].value == Some(RgbCount(b.ports)) && r.0[|zones|].attrs.portMap == Some(b.ports) &&
              r.0[|zones|].attrs.uuid == b.attrs.uuid && r.0[|zones|].attrs.zoneSet == b.attrs.zoneSet
    ensures b.saved.Some? ==>
              r.1.saved.value.id == b.saved.value.id && |r.0| == |zones| && IdsOf(r.0) == IdsOf(zones) &&
              forall i :: 0 <= i < |zones| ==>
                r.0[i].key == zones[i].key && r.0[i].attrs.uuid == zones[i].attrs.uuid &&
                r.0[i].attrs.zoneSet == zones[i].attrs.zoneSet &&
                (zones[i].id != b.saved.value.id ==> r.0[i] == zones[i])
    ensures b.saved.Some? ==>
              forall i :: 0 <= i < |zones| && zones[i].id == b.saved.value.id ==>
                r.0[i].value == (if RgbCount(b.ports) != RgbCount(b.saved.value.ports) then Some(RgbCount(b.ports)) else zones[i].value) &&
                r.0[i].attrs.portMap == (if b.ports != b.saved.value.ports then Some(b.ports) else zones[i].attrs.portMap)
    ensures b.saved.Some? && b.saved.value.id !in IdsOf(zones) ==> r.0 == zones
  {
    match b.saved
    case None =>
      var z := Row(NextId(zones), b.name, Some(RgbCount(b.ports)), b.attrs.(portMap := Some(b.ports)));
      assert (zones + [z])[..|zones|] == zones;
      (zones + [z], b.(saved := Some(Persisted(z.id, b.ports))))
    case Some(p) =>
      var t := seq(|zones|, i requires 0 <= i < |zones| =>
                 if zones[i].id == p.id then Written(zones[i], p.ports, b.ports) else zones[i]);
      assert IdsOf(t) == IdsOf(zones);
      (t, b.(saved := Some(Persisted(p.id, b.ports))))
  }

  /**
   * The row a repeated `save!` leaves behind: ActiveRecord's dirty tracking
   * writes `pixel_count` and `port_map` only when they differ from the values
   * of the previous save.
   */
  function Written(z: Zone, last: seq<Segment>, ports: seq<Segment>): (r: Zone)
    ensures r.id == z.id && r.key == z.key && r.attrs.uuid == z.attrs.uuid && r.attrs.zoneSet == z.attrs.zoneSet
  {
    var count := if RgbCount(ports) != RgbCount(last) then Some(RgbCount(ports)) else z.value;
    var map_ := if ports != last then Some(ports) else z.attrs.portMap;
    z.(value := count, attrs := z.attrs.(portMap := map_))
  }

  /**
   * A builder's first `save!`, another `add`, and a second `save!` leave one
   * zone, not two: the second call rewrites the row the first inserted with
   * the new pixel count and port map, and the rest of the table is as before.
   */
  lemma SaveAgainUpdates(b: Builder, zones: seq<Zone>, port: int, start: int, end: int, reverse: bool)
    requires IdsAscending(zones) && b.saved.None?
    ensures var first := Save(b, zones);
            var again := Add(first.1, port, start, end, reverse);
            var second := Save(again, first.0);
            |second.0| == |zones| + 1 && second.0[..|zones|] == zones &&
            second.0[|zones|].id == first.0[|zones|].id && second.0[|zones|].key == b.name &&
            second.0[|zones|].value == Some(RgbCount(again.ports)) &&
            second.0[|zones|].attrs.portMap == Some(again.ports) &&
            second.1.saved == Some(Persisted(first.0[|zones|].id, again.ports))
  {
    var first := Save(b, zones);
    var again := Add(first.1, port, start, end, reverse);
    var second := Save(again, first.0);
    var n := |zones|;
    assert first.0[n].id !in IdsOf(zones);
    forall i | 0 <= i < n ensures second.0[i] == zones[i] {
      assert first.0[i] == zones[i] && zones[i].id == IdsOf(zones)[i];
    }
    assert second.0[..n] == zones;
    assert |again.ports| != |b.ports|;
  }

  /**
   * Saving a zone never changes the controller later builders read while an
   * older current zone exists: the saved zone has the highest id.
   */
  lemma SaveKeepsController(b: Builder, zones: seq<Zone>, name: string, attrs: ZoneAttrs)
    requires IdsAscending(zones) && ZonesWhere(zones, None) != [] && b.saved.None?
    ensures New(Save(b, zones).0, name, attrs) == New(zones, name, attrs)
  {
    var t := Save(b, zones).0;
    var z := t[|zones|];
    assert t == zones + [z];
    ZonesWhereAppend(zones, z, None);
    assert ZonesWhere(t, None)[0] == ZonesWhere(zones, None)[0];
  }

  /**
   * The first current zone, saved from a builder with at least one segment,
   * supplies its own controller name to the next builder: `save!` then
   * `new` round-trips the controller name.
   */
  lemma FirstZoneProvidesController(b: Builder, zones: seq<Zone>, name: string, attrs: ZoneAttrs)
    requires IdsAscending(zones) && ZonesWhere(zones, None) == []
    requires WellBuilt(b) && |b.ports| > 0 && b.attrs.zoneSet.None? && b.saved.None?
    ensures !IsBlankString(b.controllerName) ==> New(Save(b, zones).0, name, attrs) == Success(Builder(b.controllerName, [], name, attrs, None))
    ensures IsBlankString(b.controllerName) ==> New(Save(b, zones).0, name, attrs) == Failure(NoController)
  {
    var t := Save(b, zones).0;
    assert t == zones + [t[|zones|]];
    ZonesWhereAppend(zones, t[|zones|], None);
    assert ZonesWhere(t, None) == [t[|zones|]];
    assert b.ports[0].ctlrName == b.controllerName;
  }

  /** The saved zone's pixel count is the number of lights its segments cover. */
  lemma {:induction false} SavedCountCoversSegments(b: Builder, zones: seq<Zone>)
    requires IdsAscending(zones) && WellBuilt(b) && b.saved.None?
    ensures |b.ports| > 0 ==>
              Save(b, zones).0[|zones|].value == Some(b.ports[|b.ports| - 1].zoneRGBStartIdx + SegmentLength(b.ports[|b.ports| - 1]))
    ensures |b.ports| == 0 ==> Save(b, zones).0[|zones|].value == Some(0)
  {
    SegmentsTile(b);
  }
}
