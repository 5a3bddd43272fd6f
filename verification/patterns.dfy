/**
 * `Pattern`: refreshing the pattern cache from the controller's file list,
 * the path a pattern is run by, and the message `activate` builds.
 */
module Patterns {
  import opened Wrappers
  import opened Lists
  import opened Ruby
  import opened Catalog
  import opened Controller
  import opened ZoneTable
  import ZoneHelper

  /** What the refresh looks a pattern up by: `where(name:, folder:)`. */
  datatype PatternKey = PatternKey(name: Option<string>, folder: Option<string>)

  /** A pattern row: looked up by (name, folder); the refresh writes only `custom`. */
  type Pattern = Row<PatternKey, bool, ()>

  /** One entry of the controller's `patternFileList`: `name`, `folders` and `readOnly`. */
  datatype ReportedPattern = ReportedPattern(name: Option<string>, folders: Option<string>, readOnly: Value)

  /** The request `update_cached` sends: `{cmd: 'toCtlrGet', get: [['patternFileList']]}`. */
  const PatternsRequest: Command := Get("patternFileList")

  /** The key and `custom` flag one entry would write: `custom = !readOnly`. */
  function Describe(p: ReportedPattern): (PatternKey, bool) {
    (PatternKey(p.name, p.folders), !Truthy(p.readOnly))
  }

  /** Every entry described, blank names included. */
  function Described(reported: seq<ReportedPattern>): (r: seq<(PatternKey, bool)>)
    ensures |r| == |reported|
    ensures forall i :: 0 <= i < |r| ==> r[i] == Describe(reported[i])
  {
    seq(|reported|, i requires 0 <= i < |reported| => Describe(reported[i]))
  }

  /** What one entry contributes to the refresh: `next if pattern['name'].blank?`, else its key and flag. */
  function UpsertEntry(p: ReportedPattern): Option<(PatternKey, bool)> {
    if IsBlankName(p.name) then None else Some(Describe(p))
  }

  /** The entries the refresh upserts, in the order reported. */
  function Upserted(reported: seq<ReportedPattern>): (r: seq<(PatternKey, bool)>)
    ensures |r| <= |reported|
    ensures forall i :: 0 <= i < |r| ==> !IsBlankName(r[i].0.name)
  {
    var r := FilterMap(reported, UpsertEntry);
    assert forall i :: 0 <= i < |r| ==> !IsBlankName(r[i].0.name) by {
      forall i | 0 <= i < |r| ensures !IsBlankName(r[i].0.name) {
        assert r[i] in r;
        var j :| 0 <= j < |reported| && UpsertEntry(reported[j]) == Some(r[i]);
      }
    }
    r
  }

  /**
   * Skipping blank names changes nothing for any other key: the last `custom`
   * written for a key with a non-blank name is the negated `readOnly` of the
   * last entry reporting that key, and a blank-named key is never written.
   */
  lemma {:induction false} UpsertedLast(reported: seq<ReportedPattern>, k: PatternKey)
    ensures !IsBlankName(k.name) ==> LastValueFor(Upserted(reported), k) == LastValueFor(Described(reported), k)
    ensures IsBlankName(k.name) ==> LastValueFor(Upserted(reported), k).None?
    decreases |reported|
  {
    if |reported| > 0 {
      var init := reported[..|reported| - 1];
      UpsertedLast(init, k);
      assert Described(reported)[..|reported| - 1] == Described(init);
    }
  }

  /**
   * `Pattern.update_cached`: ask for the file list, upsert every entry with a
   * non-blank name by (name, folder) with `custom = !readOnly`, then destroy
   * every pattern not touched. A nil reply raises.
   */
  function UpdateCached(patterns: seq<Pattern>, reply: Option<seq<ReportedPattern>>): (r: Step<seq<Pattern>>)
    requires IdsAscending(patterns)
    ensures r.sent == [PatternsRequest]
    ensures r.outcome.Failure? <==> reply.None?
    ensures r.outcome.Success? ==> IdsAscending(r.outcome.value) && KeysUnique(r.outcome.value)
    ensures r.outcome.Success? ==> forall i :: 0 <= i < |r.outcome.value| ==>
              && !IsBlankName(r.outcome.value[i].key.name)
              && LastValueFor(Described(reply.value), r.outcome.value[i].key) == Some(r.outcome.value[i].value)
    ensures r.outcome.Success? ==> forall j :: 0 <= j < |reply.value| && !IsBlankName(reply.value[j].name) ==>
              Describe(reply.value[j]).0 in KeysOf(r.outcome.value)
  {
    match reply
    case None => Step([PatternsRequest], Failure(NilReply))
    case Some(reported) =>
      var entries := Upserted(reported);
      var t := Sync(patterns, entries, ());
      SyncOneRowPerKey(patterns, entries, ());
      assert forall i :: 0 <= i < |t| ==> !IsBlankName(t[i].key.name) && LastValueFor(Described(reported), t[i].key) == Some(t[i].value) by {
        forall i | 0 <= i < |t|
          ensures !IsBlankName(t[i].key.name) && LastValueFor(Described(reported), t[i].key) == Some(t[i].value)
        {
          UpsertedLast(reported, t[i].key);
        }
      }
      assert forall j :: 0 <= j < |reported| && !IsBlankName(reported[j].name) ==> Describe(reported[j]).0 in KeysOf(t) by {
        forall j | 0 <= j < |reported| && !IsBlankName(reported[j].name) ensures Describe(reported[j]).0 in KeysOf(t) {
          var k := Describe(reported[j]).0;
          assert Described(reported)[j].0 == k;
          LastValueForPresent(Described(reported), k);
          UpsertedLast(reported, k);
        }
      }
      Step([PatternsRequest], Success(t))
  }

  /**
   * Pattern identity across a refresh: a pattern that survives with an old id
   * is the lowest-id pattern of its (name, folder); a pattern with a new id
   * was created for a (name, folder) no pattern had.
   */
  lemma UpdateCachedKeepsIdentity(patterns: seq<Pattern>, reported: seq<ReportedPattern>)
    requires IdsAscending(patterns)
    ensures var t := UpdateCached(patterns, Some(reported)).outcome.value;
      && (forall i :: 0 <= i < |patterns| && IsFirst(patterns, i) && !IsBlankName(patterns[i].key.name) && patterns[i].key in Keys(Described(reported)) ==>
            patterns[i].(value := LastValueFor(Described(reported), patterns[i].key).value) in t)
      && (forall i, j :: 0 <= i < |patterns| && 0 <= j < |t| && t[j].id == patterns[i].id ==>
            IsFirst(patterns, i) && t[j].key == patterns[i].key)
      && (forall j :: 0 <= j < |t| && t[j].id !in IdsOf(patterns) ==> t[j].key !in KeysOf(patterns))
  {
    var entries := Upserted(reported);
    SyncKeepsIdentity(patterns, entries, ());
    forall i | 0 <= i < |patterns| && IsFirst(patterns, i) && !IsBlankName(patterns[i].key.name) && patterns[i].key in Keys(Described(reported))
      ensures LastValueFor(Described(reported), patterns[i].key).Some?
      ensures LastValueFor(entries, patterns[i].key) == LastValueFor(Described(reported), patterns[i].key)
    {
      LastValueForPresent(Described(reported), patterns[i].key);
      UpsertedLast(reported, patterns[i].key);
    }
  }

  /**
   * A pattern whose (name, folder) the file list no longer reports, or whose
   * name is blank, is destroyed by the refresh: no row keeps its id.
   */
  lemma UpdateCachedDropsUnreported(patterns: seq<Pattern>, reported: seq<ReportedPattern>, i: nat)
    requires IdsAscending(patterns) && i < |patterns|
    requires IsBlankName(patterns[i].key.name) || patterns[i].key !in Keys(Described(reported))
    ensures patterns[i].id !in IdsOf(UpdateCached(patterns, Some(reported)).outcome.value)
  {
    var t := UpdateCached(patterns, Some(reported)).outcome.value;
    UpdateCachedKeepsIdentity(patterns, reported);
    assert forall j :: 0 <= j < |t| && t[j].id == patterns[i].id ==> t[j].key == patterns[i].key;
    forall j | 0 <= j < |t| ensures t[j].key in Keys(Described(reported)) {
      LastValueForPresent(Described(reported), t[j].key);
    }
    assert forall j :: 0 <= j < |t| ==> !IsBlankName(t[j].key.name);
    assert forall j :: 0 <= j < |t| ==> t[j].id != patterns[i].id;
  }

  /** Refreshing twice from the same file list leaves the table as the first refresh left it. */
  lemma UpdateCachedIdempotent(patterns: seq<Pattern>, reported: seq<ReportedPattern>)
    requires IdsAscending(patterns)
    ensures var once := UpdateCached(patterns, Some(reported)).outcome.value;
      UpdateCached(once, Some(reported)).outcome == Success(once)
  {
    SyncIdempotent(patterns, Upserted(reported), ());
  }

  /** `full_path`: the non-nil parts of [folder, name], joined with '/'. */
  function FullPath(folder: Option<string>, name: Option<string>): string {
    match (folder, name)
    case (Some(f), Some(n)) => f + "/" + n
    case (Some(f), None) => f
    case (None, Some(n)) => n
    case (None, None) => ""
  }

  /** A pattern outside any folder runs by its bare name; a folder is the first '/'-field of the path. */
  lemma FullPathFields(folder: Option<string>, name: string)
    requires folder.Some? ==> '/' !in folder.value
    ensures folder.None? ==> FullPath(folder, Some(name)) == name
    ensures folder.Some? ==> Fields(FullPath(folder, Some(name)), '/') == [folder.value] + Fields(name, '/')
  {
    if folder.Some? {
      assert FullPath(folder, Some(name)) == folder.value + ['/'] + name;
      FieldsOfSeparated(folder.value, '/', name);
    }
  }

  /** For folders without '/', different (folder, name) pairs give different paths. */
  lemma FullPathInjective(f1: string, n1: string, f2: string, n2: string)
    requires '/' !in f1 && '/' !in f2
    requires FullPath(Some(f1), Some(n1)) == FullPath(Some(f2), Some(n2))
    ensures f1 == f2 && n1 == n2
  {
    FullPathFields(Some(f1), n1);
    FullPathFields(Some(f2), n2);
    var s := FullPath(Some(f1), Some(n1));
    assert Fields(s, '/')[0] == f1;
    assert Fields(s, '/')[0] == f2;
    assert s[|f1| + 1..] == n1;
    assert s[|f2| + 1..] == n2;
  }

  /**
   * `Pattern#activate(zones)`: nothing when no zone resolves; otherwise the
   * `runPattern` message with state 1 for the pattern's path. The message is
   * built but not sent: the send is commented out in the source.
   */
  function Activate(p: Pattern, arg: Value, zones: seq<Zone>): (r: Option<Command>)
    ensures r.None? <==> ZoneHelper.ParameterizeZones(arg, zones) == []
    ensures r.Some? ==> r.value.SetRunPattern? && r.value.runPattern.state == 1
    ensures r.Some? ==> r.value.runPattern.file == FullPath(p.key.folder, p.key.name)
    ensures r.Some? ==> r.value.runPattern.data == "" && r.value.runPattern.id == ""
    ensures r.Some? ==> r.value.runPattern.zoneName != []
    ensures r.Some? ==> forall n :: n in r.value.runPattern.zoneName ==> IsCurrentName(zones, n)
    ensures r.Some? ==> forall n :: n in r.value.runPattern.zoneName <==>
              exists i :: 0 <= i < |ZoneHelper.Entries(arg, zones)| && ZoneHelper.ResolveOne(ZoneHelper.Entries(arg, zones)[i], zones) == Some(n)
    ensures r.Some? ==> r.value.runPattern.zoneName == ZoneHelper.ResolveAll(ZoneHelper.Entries(arg, zones), zones)
    ensures r.None? <==> forall i :: 0 <= i < |ZoneHelper.Entries(arg, zones)| ==> ZoneHelper.ResolveOne(ZoneHelper.Entries(arg, zones)[i], zones).None?
  {
    ZoneHelper.ParameterizeZonesExactly(arg, zones);
    ZoneHelper.ParameterizeZonesInOrder(arg, zones);
    var names := ZoneHelper.ParameterizeZones(arg, zones);
    if names == [] then None
    else
      assert names[0] in names;
      Some(SetRunPattern(RunPattern(FullPath(p.key.folder, p.key.name), 1, names, "", "")))
  }
}
