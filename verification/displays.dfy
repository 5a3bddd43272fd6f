/**
 * `Display`: a named list of pattern/zones pairings, its workflow state with
 * the `active` scope, its name validations, and `activate`.
 */
module Displays {
  import opened Wrappers
  import opened Ruby
  import opened Lists
  import opened Catalog
  import opened Controller
  import opened ZoneTable
  import opened Validation
  import Patterns
  import ZoneHelper
  import ZoneSets

  /**
   * A `display_patterns` row: the primary key of the pattern to run
   * (`pattern_id`, which nothing keeps pointing at a stored pattern) and on
   * which zones (the normalised `zones` column).
   */
  datatype DisplayPattern = DisplayPattern(patternId: nat, zones: Value)

  /** A display: its name, workflow state, the zone set it belongs to (`zone_set_id`), and its pairings in stored order. */
  datatype Display = Display(name: Option<string>, workflowState: Option<string>, zoneSet: Option<nat>,
                             displayPatterns: seq<DisplayPattern>)

  /** The state `init_workflow_state` fills in and the `active` scope selects. */
  const ActiveState: string := "active"

  /** One `dp.pattern.activate(dp.zones)` call: the pattern, the argument it got, and the message it built. */
  datatype PatternRun = PatternRun(pattern: Patterns.Pattern, zones: Value, message: Option<Command>)

  /** What `activate` did: the calls it made, in order, and the error that stopped it, if one did. */
  datatype Activation = Activation(runs: seq<PatternRun>, raised: Option<Error>)

  /** The `before_validation` hook: `self.workflow_state ||= 'active'`, nothing else touched. */
  function InitWorkflowState(d: Display): (r: Display)
    ensures r.name == d.name && r.zoneSet == d.zoneSet && r.displayPatterns == d.displayPatterns
    ensures d.workflowState.None? ==> r.workflowState == Some(ActiveState)
    ensures d.workflowState.Some? ==> r.workflowState == d.workflowState
  {
    if d.workflowState.None? then d.(workflowState := Some(ActiveState)) else d
  }

  /** Filling in the default twice is filling it in once. */
  lemma InitWorkflowStateIdempotent(d: Display)
    ensures InitWorkflowState(InitWorkflowState(d)) == InitWorkflowState(d)
  {
  }

  /** The names of a list of displays, in order. */
  function DisplayNames(ds: seq<Display>): (r: seq<Option<string>>)
    ensures |r| == |ds|
    ensures forall i :: 0 <= i < |ds| ==> r[i] == ds[i].name
  {
    seq(|ds|, i requires 0 <= i < |ds| => ds[i].name)
  }

  /** `belongs_to :zone_set`, required: the display names a zone set that is stored. */
  predicate ZoneSetExists(sets: seq<ZoneSets.ZoneSet>, zoneSet: Option<nat>) {
    zoneSet.Some? && exists i :: 0 <= i < |sets| && sets[i].id == zoneSet.value
  }

  /**
   * The validations, given the stored zone sets and the OTHER displays of the
   * table: the zone set must exist, a workflow state and a name must be
   * present, and the name unique ignoring case.
   */
  predicate Valid(sets: seq<ZoneSets.ZoneSet>, others: seq<Display>, d: Display) {
    ZoneSetExists(sets, d.zoneSet) && Present(d.workflowState) && Present(d.name) && NameFree(DisplayNames(others), d.name)
  }

  /**
   * Saving a new display: the hook runs, then the validations; a valid
   * display is appended, an invalid one leaves the table as it was (None).
   */
  function Create(sets: seq<ZoneSets.ZoneSet>, ds: seq<Display>, d: Display): (r: Option<seq<Display>>)
    ensures r.None? <==> !Valid(sets, ds, InitWorkflowState(d))
    ensures r.Some? ==> |r.value| == |ds| + 1 && r.value[..|ds|] == ds
    ensures r.Some? ==> r.value[|ds|].name == d.name && r.value[|ds|].zoneSet == d.zoneSet && Present(r.value[|ds|].workflowState)
  {
    var d' := InitWorkflowState(d);
    if Valid(sets, ds, d') then Some(ds + [d']) else None
  }

  /**
   * A missing workflow state never fails validation: after the hook it is
   * 'active', so the zone set and the name alone decide. An explicitly blank
   * state is kept by `||=` and does fail.
   */
  lemma CreateDefaultsWorkflowState(sets: seq<ZoneSets.ZoneSet>, ds: seq<Display>, d: Display)
    requires d.workflowState.None?
    ensures Create(sets, ds, d).Some? <==> ZoneSetExists(sets, d.zoneSet) && Present(d.name) && NameFree(DisplayNames(ds), d.name)
    ensures Create(sets, ds, d).Some? ==> Create(sets, ds, d).value[|ds|].workflowState == Some(ActiveState)
  {
    assert !IsSpace(ActiveState[0]);
  }

  /** A display without a zone set, or naming one that is not stored, is rejected. */
  lemma MissingZoneSetRejected(sets: seq<ZoneSets.ZoneSet>, ds: seq<Display>, d: Display)
    requires d.zoneSet.None? || forall i :: 0 <= i < |sets| ==> sets[i].id != d.zoneSet.value
    ensures Create(sets, ds, d).None?
  {
  }

  /** A blank workflow state is not replaced by the hook, so the display is rejected. */
  lemma BlankWorkflowStateRejected(sets: seq<ZoneSets.ZoneSet>, ds: seq<Display>, d: Display)
    requires d.workflowState.Some? && IsBlankString(d.workflowState.value)
    ensures Create(sets, ds, d).None?
  {
  }

  /** Creating displays one by one keeps every pair of names distinct ignoring case. */
  lemma CreateKeepsNamesDistinct(sets: seq<ZoneSets.ZoneSet>, ds: seq<Display>, d: Display)
    requires NamesDistinct(DisplayNames(ds))
    requires Create(sets, ds, d).Some?
    ensures NamesDistinct(DisplayNames(Create(sets, ds, d).value))
  {
    var t := Create(sets, ds, d).value;
    var names := DisplayNames(t);
    forall i, j | 0 <= i < j < |names| ensures !SameIgnoringCase(names[i], names[j]) {
      if j == |ds| {
        assert names[i] == DisplayNames(ds)[i];
        assert names[j] == d.name;
        assert !SameIgnoringCase(DisplayNames(ds)[i], d.name);
        assert SameIgnoringCase(names[i], names[j]) <==> SameIgnoringCase(names[j], names[i]);
      } else {
        assert names[i] == DisplayNames(ds)[i] && names[j] == DisplayNames(ds)[j];
      }
    }
  }

  /** A name differing from a stored one only in ASCII case is rejected. */
  lemma CaseVariantNameRejected(sets: seq<ZoneSets.ZoneSet>, ds: seq<Display>, d: Display, k: nat, a: string, b: string)
    requires k < |ds| && ds[k].name == Some(a) && d.name == Some(b)
    requires |a| == |b| && forall i :: 0 <= i < |a| ==> DowncaseChar(a[i]) == DowncaseChar(b[i])
    ensures Create(sets, ds, d).None?
  {
    CaseVariantsCollide(a, b);
    assert DisplayNames(ds)[k] == Some(a);
    assert !NameFree(DisplayNames(ds), InitWorkflowState(d).name);
  }

  /** Whether a display is in the `active` scope: `where(workflow_state: 'active')`. */
  function SelectActive(d: Display): (r: Option<Display>)
    ensures r.Some? <==> d.workflowState == Some(ActiveState)
    ensures r.Some? ==> r.value == d
  {
    if d.workflowState == Some(ActiveState) then Some(d) else None
  }

  /** The `active` scope: exactly the displays whose workflow state is 'active', in table order. */
  function Active(ds: seq<Display>): (r: seq<Display>)
    ensures |r| <= |ds|
    ensures forall d :: d in r <==> d in ds && d.workflowState == Some(ActiveState)
  {
    var r := FilterMap(ds, SelectActive);
    forall d | d in ds && d.workflowState == Some(ActiveState) ensures d in r {
      var i :| 0 <= i < |ds| && ds[i] == d;
      FilterMapKeeps(ds, SelectActive, i);
    }
    r
  }

  /** The scope is a filter: it commutes with putting two tables side by side. */
  lemma ActiveAppend(a: seq<Display>, b: seq<Display>)
    ensures Active(a + b) == Active(a) + Active(b)
  {
    FilterMapAppend(a, b, SelectActive);
  }

  /** A freshly created display is in the `active` scope unless it was given another state. */
  lemma CreatedIsActive(sets: seq<ZoneSets.ZoneSet>, ds: seq<Display>, d: Display)
    requires d.workflowState.None? && Create(sets, ds, d).Some?
    ensures Create(sets, ds, d).value[|ds|] in Active(Create(sets, ds, d).value)
  {
  }

  /** `dp.pattern`: the stored pattern whose primary key the pairing holds, or nil once that row is gone. */
  function FindPattern(patterns: seq<Patterns.Pattern>, id: nat): (r: Option<Patterns.Pattern>)
    ensures r.Some? ==> r.value in patterns && r.value.id == id
    ensures r.None? <==> id !in IdsOf(patterns)
  {
    if |patterns| == 0 then None
    else if patterns[0].id == id then Some(patterns[0])
    else
      assert IdsOf(patterns) == [patterns[0].id] + IdsOf(patterns[1..]);
      FindPattern(patterns[1..], id)
  }

  /** The call `activate` makes for one pairing; `nil.activate` raises when the pattern is gone. */
  function Run(dp: DisplayPattern, patterns: seq<Patterns.Pattern>, zones: seq<Zone>): (r: Result<PatternRun, Error>)
    ensures r.Failure? <==> dp.patternId !in IdsOf(patterns)
    ensures r.Failure? ==> r.error == NoPattern
    ensures r.Success? ==> r.value.pattern in patterns && r.value.pattern.id == dp.patternId && r.value.zones == dp.zones
    ensures r.Success? ==> (r.value.message.None? <==> ZoneHelper.ParameterizeZones(dp.zones, zones) == [])
    ensures r.Success? && r.value.message.Some? ==> r.value.message.value.SetRunPattern? && r.value.message.value.runPattern.state == 1
  {
    match FindPattern(patterns, dp.patternId)
    case None => Failure(NoPattern)
    case Some(p) => Success(PatternRun(p, dp.zones, Patterns.Activate(p, dp.zones, zones)))
  }

  /** The `each` loop over the pairings: run them front to back until one raises. */
  function RunAll(dps: seq<DisplayPattern>, patterns: seq<Patterns.Pattern>, zones: seq<Zone>): Activation {
    if |dps| == 0 then Activation([], None)
    else
      match Run(dps[0], patterns, zones)
      case Failure(e) => Activation([], Some(e))
      case Success(run) =>
        var rest := RunAll(dps[1..], patterns, zones);
        Activation([run] + rest.runs, rest.raised)
  }

  /** Every pairing's pattern is still stored. */
  predicate AllStored(dps: seq<DisplayPattern>, patterns: seq<Patterns.Pattern>) {
    forall i :: 0 <= i < |dps| ==> dps[i].patternId in IdsOf(patterns)
  }

  /** The calls the loop made are the first pairings' calls, each completed. */
  lemma {:induction false} RunAllRuns(dps: seq<DisplayPattern>, patterns: seq<Patterns.Pattern>, zones: seq<Zone>)
    ensures |RunAll(dps, patterns, zones).runs| <= |dps|
    ensures forall i :: 0 <= i < |RunAll(dps, patterns, zones).runs| ==>
              Run(dps[i], patterns, zones) == Success(RunAll(dps, patterns, zones).runs[i])
    decreases |dps|
  {
    if |dps| > 0 && Run(dps[0], patterns, zones).Success? {
      var r := RunAll(dps, patterns, zones);
      var rest := RunAll(dps[1..], patterns, zones);
      RunAllRuns(dps[1..], patterns, zones);
      assert r.runs == [Run(dps[0], patterns, zones).value] + rest.runs;
      forall i | 1 <= i < |r.runs| ensures Run(dps[i], patterns, zones) == Success(r.runs[i]) {
        assert dps[i] == dps[1..][i - 1] && r.runs[i] == rest.runs[i - 1];
      }
    }
  }

  /** The loop completes exactly when every pattern is stored, and then has made one call per pairing. */
  lemma {:induction false} RunAllCompletes(dps: seq<DisplayPattern>, patterns: seq<Patterns.Pattern>, zones: seq<Zone>)
    ensures RunAll(dps, patterns, zones).raised.None? <==> AllStored(dps, patterns)
    ensures RunAll(dps, patterns, zones).raised.None? ==> |RunAll(dps, patterns, zones).runs| == |dps|
    decreases |dps|
  {
    if |dps| > 0 {
      RunAllCompletes(dps[1..], patterns, zones);
      assert AllStored(dps, patterns) <==> dps[0].patternId in IdsOf(patterns) && AllStored(dps[1..], patterns) by {
        assert forall i :: 1 <= i < |dps| ==> dps[i] == dps[1..][i - 1];
      }
    }
  }

  /** When the loop raises, it is at the first pairing whose pattern is gone. */
  lemma {:induction false} RunAllRaises(dps: seq<DisplayPattern>, patterns: seq<Patterns.Pattern>, zones: seq<Zone>)
    ensures var r := RunAll(dps, patterns, zones);
            r.raised.Some? ==> r.raised.value == NoPattern && |r.runs| < |dps| && dps[|r.runs|].patternId !in IdsOf(patterns)
    decreases |dps|
  {
    if |dps| > 0 && Run(dps[0], patterns, zones).Success? {
      var rest := RunAll(dps[1..], patterns, zones);
      RunAllRaises(dps[1..], patterns, zones);
      if rest.raised.Some? {
        assert dps[1 + |rest.runs|] == dps[1..][|rest.runs|];
      }
    }
  }

  /**
   * `Display#activate`: one `pattern.activate(dp.zones)` per pairing, in
   * stored order, with the stored zones unchanged, until a pairing whose
   * pattern was destroyed raises and ends the loop. Nothing else happens: no
   * zone is turned off and no zone set is pushed, so every message built runs
   * a pattern (state 1).
   */
  function Activate(d: Display, patterns: seq<Patterns.Pattern>, zones: seq<Zone>): (r: Activation)
    ensures |r.runs| <= |d.displayPatterns|
    ensures r.raised.None? <==> forall i :: 0 <= i < |d.displayPatterns| ==> d.displayPatterns[i].patternId in IdsOf(patterns)
    ensures r.raised.None? ==> |r.runs| == |d.displayPatterns|
    ensures r.raised.Some? ==> r.raised.value == NoPattern && |r.runs| < |d.displayPatterns| &&
                               d.displayPatterns[|r.runs|].patternId !in IdsOf(patterns)
    ensures forall i :: 0 <= i < |r.runs| ==> Run(d.displayPatterns[i], patterns, zones) == Success(r.runs[i])
    ensures forall i :: 0 <= i < |r.runs| && r.runs[i].message.Some? ==>
              r.runs[i].message.value.SetRunPattern? && r.runs[i].message.value.runPattern.state == 1
  {
    RunAllRuns(d.displayPatterns, patterns, zones);
    RunAllCompletes(d.displayPatterns, patterns, zones);
    RunAllRaises(d.displayPatterns, patterns, zones);
    RunAll(d.displayPatterns, patterns, zones)
  }

  /**
   * A pattern-list refresh that no longer reports a paired pattern destroys
   * its row, so the display's next `activate` raises `NoMethodError`.
   */
  lemma RefreshDroppingPatternFails(d: Display, patterns: seq<Patterns.Pattern>, reported: seq<Patterns.ReportedPattern>,
                                    zones: seq<Zone>, i: nat, k: nat)
    requires IdsAscending(patterns)
    requires i < |patterns| && k < |d.displayPatterns| && d.displayPatterns[k].patternId == patterns[i].id
    requires IsBlankName(patterns[i].key.name) || patterns[i].key !in Keys(Patterns.Described(reported))
    ensures var t := Patterns.UpdateCached(patterns, Some(reported)).outcome.value;
            FindPattern(t, d.displayPatterns[k].patternId).None? && Activate(d, t, zones).raised == Some(NoPattern)
  {
    var t := Patterns.UpdateCached(patterns, Some(reported)).outcome.value;
    Patterns.UpdateCachedDropsUnreported(patterns, reported, i);
    assert FindPattern(t, d.displayPatterns[k].patternId).None?;
  }

  /** The messages a series of calls built, in call order. */
  function Messages(runs: seq<PatternRun>): (r: seq<Command>)
    ensures |r| <= |runs|
  {
    FilterMap(runs, (p: PatternRun) => p.message)
  }

  /** Activating pairings `a` then `b`: `b`'s calls happen only when every call of `a` completed. */
  function Then(x: Activation, y: Activation): (r: Activation)
    ensures x.raised.Some? ==> r == x
    ensures x.raised.None? ==> |r.runs| == |x.runs| + |y.runs| && r.runs[..|x.runs|] == x.runs && r.runs[|x.runs|..] == y.runs && r.raised == y.raised
  {
    if x.raised.Some? then x else Activation(x.runs + y.runs, y.raised)
  }

  /** The loop over `a + b` is the loop over `a`, then, if nothing raised, the loop over `b`. */
  lemma {:induction false} RunAllAppend(a: seq<DisplayPattern>, b: seq<DisplayPattern>,
                                        patterns: seq<Patterns.Pattern>, zones: seq<Zone>)
    ensures RunAll(a + b, patterns, zones) == Then(RunAll(a, patterns, zones), RunAll(b, patterns, zones))
    decreases |a|
  {
    if |a| == 0 {
      assert a + b == b;
    } else {
      assert (a + b)[0] == a[0] && (a + b)[1..] == a[1..] + b;
      RunAllAppend(a[1..], b, patterns, zones);
      var tail := RunAll(a[1..], patterns, zones);
      var rb := RunAll(b, patterns, zones);
      match Run(a[0], patterns, zones)
      case Failure(e) =>
        assert RunAll(a + b, patterns, zones) == Activation([], Some(e)) == RunAll(a, patterns, zones);
      case Success(run) =>
        var both := RunAll(a[1..] + b, patterns, zones);
        assert RunAll(a + b, patterns, zones) == Activation([run] + both.runs, both.raised);
        assert RunAll(a, patterns, zones) == Activation([run] + tail.runs, tail.raised);
        if tail.raised.None? {
          assert [run] + (tail.runs + rb.runs) == ([run] + tail.runs) + rb.runs;
        }
    }
  }

  /** Activating pairings `a + b` is activating `a`, then, if nothing raised, `b`. */
  lemma ActivateAppend(d: Display, a: seq<DisplayPattern>, b: seq<DisplayPattern>,
                       patterns: seq<Patterns.Pattern>, zones: seq<Zone>)
    requires d.displayPatterns == a + b
    ensures Activate(d, patterns, zones) ==
            Then(Activate(d.(displayPatterns := a), patterns, zones), Activate(d.(displayPatterns := b), patterns, zones))
  {
    RunAllAppend(a, b, patterns, zones);
  }

  /** The messages of `a + b` are `a`'s, followed by `b`'s when nothing in `a` raised. */
  lemma ActivateAppendMessages(d: Display, a: seq<DisplayPattern>, b: seq<DisplayPattern>,
                               patterns: seq<Patterns.Pattern>, zones: seq<Zone>)
    requires d.displayPatterns == a + b
    ensures var ra := Activate(d.(displayPatterns := a), patterns, zones);
            Messages(Activate(d, patterns, zones).runs) ==
            Messages(ra.runs) + (if ra.raised.None? then Messages(Activate(d.(displayPatterns := b), patterns, zones).runs) else [])
  {
    var ra := Activate(d.(displayPatterns := a), patterns, zones);
    var rb := Activate(d.(displayPatterns := b), patterns, zones);
    ActivateAppend(d, a, b, patterns, zones);
    if ra.raised.None? {
      assert Activate(d, patterns, zones).runs == ra.runs + rb.runs;
      FilterMapAppend(ra.runs, rb.runs, (p: PatternRun) => p.message);
    } else {
      assert Messages(ra.runs) + [] == Messages(ra.runs);
    }
  }

  /**
   * A pairing whose zones resolve to nothing (an empty array among them) is
   * still called once the loop reaches it, with its zones as stored, and
   * builds no message; the loop reaches it when every earlier pattern exists.
   */
  lemma EmptyZonesBuildNothing(d: Display, patterns: seq<Patterns.Pattern>, zones: seq<Zone>, i: nat)
    requires i < |d.displayPatterns| && d.displayPatterns[i].zones == VArray([])
    ensures (forall j :: 0 <= j <= i ==> d.displayPatterns[j].patternId in IdsOf(patterns)) ==> i < |Activate(d, patterns, zones).runs|
    ensures i < |Activate(d, patterns, zones).runs| ==>
              Activate(d, patterns, zones).runs[i].zones == VArray([]) && Activate(d, patterns, zones).runs[i].message.None?
  {
    var r := Activate(d, patterns, zones);
    assert ZoneHelper.Entries(VArray([]), zones) == [];
    if r.raised.Some? && |r.runs| <= i {
      assert d.displayPatterns[|r.runs|].patternId !in IdsOf(patterns);
    }
  }

  /** Every message built is the one some pairing's stored pattern builds, and none but `runPattern` ones. */
  lemma MessagesRunPatterns(d: Display, patterns: seq<Patterns.Pattern>, zones: seq<Zone>)
    ensures forall c :: c in Messages(Activate(d, patterns, zones).runs) ==> c.SetRunPattern? && c.runPattern.state == 1
    ensures forall c :: c in Messages(Activate(d, patterns, zones).runs) ==>
              exists i, q :: 0 <= i < |d.displayPatterns| && q in patterns && q.id == d.displayPatterns[i].patternId &&
                             Patterns.Activate(q, d.displayPatterns[i].zones, zones) == Some(c)
  {
    var runs := Activate(d, patterns, zones).runs;
    forall c | c in Messages(runs)
      ensures c.SetRunPattern? && c.runPattern.state == 1
      ensures exists i, q :: 0 <= i < |d.displayPatterns| && q in patterns && q.id == d.displayPatterns[i].patternId &&
                             Patterns.Activate(q, d.displayPatterns[i].zones, zones) == Some(c)
    {
      var i :| 0 <= i < |runs| && runs[i].message == Some(c);
      assert Run(d.displayPatterns[i], patterns, zones) == Success(runs[i]);
      var q := runs[i].pattern;
      assert Patterns.Activate(q, d.displayPatterns[i].zones, zones) == Some(c);
    }
  }
}
