/**
 * `Tag`: a named group of displays, its presence-only validation, and
 * `activate_random_display`. The shuffle is a nondeterministic choice: the
 * caller supplies the order it produced, any permutation of the displays.
 */
module Tags {
  import opened Wrappers
  import opened Ruby
  import opened ZoneTable
  import opened Validation
  import opened Displays
  import Patterns

  /** A tag and the displays it groups (through `display_tags`). */
  datatype Tag = Tag(name: Option<string>, displays: seq<Display>)

  /** `validates_presence_of :name`: the only validation a tag has. */
  predicate Valid(t: Tag) {
    Present(t.name)
  }

  /**
   * `displays.shuffle&.first&.activate`: with `shuffled` the order the shuffle
   * produced, nothing happens when the tag has no display; otherwise exactly
   * one display, a member of the tag's, is activated.
   */
  function ActivateRandomDisplay(t: Tag, shuffled: seq<Display>, patterns: seq<Patterns.Pattern>, zones: seq<Zone>): (r: Option<(Display, Activation)>)
    requires multiset(shuffled) == multiset(t.displays)
    ensures r.None? <==> |t.displays| == 0
    ensures r.Some? ==> r.value.0 in t.displays
    ensures r.Some? ==> r.value.1 == Activate(r.value.0, patterns, zones)
  {
    if |shuffled| == 0 then
      assert |t.displays| == |multiset(t.displays)|;
      None
    else
      assert shuffled[0] in multiset(t.displays);
      Some((shuffled[0], Activate(shuffled[0], patterns, zones)))
  }

  /** A non-empty shuffle activates its first display. */
  lemma ShuffledFirstActivated(t: Tag, shuffled: seq<Display>, patterns: seq<Patterns.Pattern>, zones: seq<Zone>)
    requires multiset(shuffled) == multiset(t.displays) && |shuffled| > 0
    ensures ActivateRandomDisplay(t, shuffled, patterns, zones) == Some((shuffled[0], Activate(shuffled[0], patterns, zones)))
  {
  }

  /** Every display of the tag is activated by some outcome of the shuffle. */
  lemma AnyDisplayCanBeChosen(t: Tag, k: nat, patterns: seq<Patterns.Pattern>, zones: seq<Zone>)
    requires k < |t.displays|
    ensures exists shuffled :: multiset(shuffled) == multiset(t.displays) &&
                               ActivateRandomDisplay(t, shuffled, patterns, zones) == Some((t.displays[k], Activate(t.displays[k], patterns, zones)))
  {
    var ds := t.displays;
    var shuffled := [ds[k]] + ds[..k] + ds[k + 1..];
    MoveToFrontPermutes(ds, k);
    ShuffledFirstActivated(t, shuffled, patterns, zones);
    assert shuffled[0] == ds[k];
    assert multiset(shuffled) == multiset(t.displays) &&
           ActivateRandomDisplay(t, shuffled, patterns, zones) == Some((t.displays[k], Activate(t.displays[k], patterns, zones)));
  }

  /** Moving one element to the front is one of the orders a shuffle can produce. */
  lemma MoveToFrontPermutes(ds: seq<Display>, k: nat)
    requires k < |ds|
    ensures multiset([ds[k]] + ds[..k] + ds[k + 1..]) == multiset(ds)
  {
    assert ds == ds[..k] + [ds[k]] + ds[k + 1..];
  }

  /** Saving a new tag: a tag with a present name is appended, any other rejected (None). */
  function Create(ts: seq<Tag>, t: Tag): (r: Option<seq<Tag>>)
    ensures r.None? <==> !Present(t.name)
    ensures r.Some? ==> |r.value| == |ts| + 1 && r.value[..|ts|] == ts && r.value[|ts|] == t
  {
    if Valid(t) then Some(ts + [t]) else None
  }

  /**
   * With no uniqueness validation, a tag may repeat a stored tag's name, or
   * differ from it only in case, and is still saved.
   */
  lemma SharedNamesAllowed(ts: seq<Tag>, k: nat, t: Tag)
    requires k < |ts| && Valid(ts[k])
    requires SameIgnoringCase(ts[k].name, t.name) && t.name.Some?
    ensures Create(ts, t).Some?
  {
    var a := ts[k].name.value;
    var b := t.name.value;
    var p :| 0 <= p < |a| && !IsSpace(a[p]);
    assert Downcase(a) == Downcase(b);
    assert DowncaseChar(a[p]) == DowncaseChar(b[p]);
    assert !IsSpace(b[p]);
  }

  /** A tag whose name is nil, empty or whitespace only is rejected. */
  lemma BlankNameRejected(ts: seq<Tag>, t: Tag)
    requires t.name.None? || IsBlankString(t.name.value)
    ensures Create(ts, t).None?
  {
  }
}
