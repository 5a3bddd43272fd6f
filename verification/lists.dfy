/**
 * Ruby's `map { ... } - [nil]` (and `reject`, `select`): keep the entries a
 * function maps to something, in order, mapped.
 */
module Lists {
  import opened Wrappers

  /** Map every element with `f` and drop the nils, keeping order and duplicates. */
  function FilterMap<A, B>(xs: seq<A>, f: A -> Option<B>): (r: seq<B>)
    ensures |r| <= |xs|
    ensures forall y :: y in r ==> exists i :: 0 <= i < |xs| && f(xs[i]) == Some(y)
    decreases |xs|
  {
    if |xs| == 0 then []
    else
      var init := FilterMap(xs[..|xs| - 1], f);
      assert forall i :: 0 <= i < |xs| - 1 ==> xs[..|xs| - 1][i] == xs[i];
      match f(xs[|xs| - 1])
      case None => init
      case Some(y) => init + [y]
  }

  /** A one-element list keeps its element's image, if any. */
  lemma FilterMapOne<A, B>(x: A, f: A -> Option<B>)
    ensures FilterMap([x], f) == (match f(x) case None => [] case Some(y) => [y])
  {
    assert [x][..0] == [];
  }

  /** Filter-mapping distributes over concatenation. */
  lemma {:induction false} FilterMapAppend<A, B>(a: seq<A>, b: seq<A>, f: A -> Option<B>)
    ensures FilterMap(a + b, f) == FilterMap(a, f) + FilterMap(b, f)
    decreases |b|
  {
    if |b| == 0 {
      assert a + b == a;
    } else {
      var b' := b[..|b| - 1];
      assert (a + b)[..|a + b| - 1] == a + b';
      assert (a + b)[|a + b| - 1] == b[|b| - 1];
      FilterMapAppend(a, b', f);
    }
  }

  /** Every element `f` maps to something contributes that value. */
  lemma {:induction false} FilterMapKeeps<A, B>(xs: seq<A>, f: A -> Option<B>, i: int)
    requires 0 <= i < |xs| && f(xs[i]).Some?
    ensures f(xs[i]).value in FilterMap(xs, f)
    decreases |xs|
  {
    if i < |xs| - 1 {
      var init := xs[..|xs| - 1];
      assert init[i] == xs[i];
      FilterMapKeeps(init, f, i);
    }
  }

  /** Nothing is dropped, and nothing changed, where `f` keeps every element as it is. */
  lemma {:induction false} FilterMapIdentity<A>(xs: seq<A>, f: A -> Option<A>)
    requires forall i :: 0 <= i < |xs| ==> f(xs[i]) == Some(xs[i])
    ensures FilterMap(xs, f) == xs
    decreases |xs|
  {
    if |xs| > 0 {
      var init := xs[..|xs| - 1];
      assert forall i :: 0 <= i < |init| ==> init[i] == xs[i];
      FilterMapIdentity(init, f);
      assert xs == init + [xs[|xs| - 1]];
    }
  }
}
