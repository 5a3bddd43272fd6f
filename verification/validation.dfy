/**
 * The two ActiveRecord validations the models use on names: presence, and
 * uniqueness ignoring case.
 */
module Validation {
  import opened Wrappers
  import opened Ruby

  /** `validates :name, presence: true`: the name is not blank. */
  predicate Present(name: Option<string>) {
    !IsBlankName(name)
  }

  /** Two names the case-insensitive uniqueness check treats as the same: both nil, or equal once downcased. */
  predicate SameIgnoringCase(a: Option<string>, b: Option<string>) {
    (a.None? && b.None?) || (a.Some? && b.Some? && Downcase(a.value) == Downcase(b.value))
  }

  /** `uniqueness: { case_sensitive: false }`: none of the OTHER records holds the same name. */
  predicate NameFree(others: seq<Option<string>>, name: Option<string>) {
    forall i :: 0 <= i < |others| ==> !SameIgnoringCase(others[i], name)
  }

  /** No two records of a table hold names the uniqueness check treats as the same. */
  predicate NamesDistinct(names: seq<Option<string>>) {
    forall i, j :: 0 <= i < j < |names| ==> !SameIgnoringCase(names[i], names[j])
  }

  /** Names that differ only in the case of ASCII letters collide. */
  lemma CaseVariantsCollide(a: string, b: string)
    requires |a| == |b|
    requires forall i :: 0 <= i < |a| ==> DowncaseChar(a[i]) == DowncaseChar(b[i])
    ensures SameIgnoringCase(Some(a), Some(b))
  {
    assert Downcase(a) == Downcase(b);
  }
}
