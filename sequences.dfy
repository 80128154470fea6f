/** Keeping the elements of a sequence that something can be made of. */
module Sequences {
  import opened Wrappers

  /** The results `f` gives for the elements of `xs` that it maps to something, in order. */
  function FilterMap<T, U>(xs: seq<T>, f: T -> Option<U>): seq<U>
  {
    if xs == [] then []
    else FilterMap(xs[..|xs| - 1], f) + match f(xs[|xs| - 1]) { case Some(u) => [u] case None => [] }
  }

  lemma {:induction false} FilterMapAppend<T, U>(xs: seq<T>, ys: seq<T>, f: T -> Option<U>)
    ensures FilterMap(xs + ys, f) == FilterMap(xs, f) + FilterMap(ys, f)
    decreases |ys|
  {
    if ys == [] {
      assert xs + ys == xs;
    } else {
      var init := ys[..|ys| - 1];
      FilterMapAppend(xs, init, f);
      assert (xs + ys)[..|xs + ys| - 1] == xs + init;
      assert (xs + ys)[|xs + ys| - 1] == ys[|ys| - 1];
    }
  }

  /** Dropping an element `f` maps to nothing changes nothing. */
  lemma FilterMapSkips<T, U>(xs: seq<T>, x: T, ys: seq<T>, f: T -> Option<U>)
    requires f(x) == None
    ensures FilterMap(xs + [x] + ys, f) == FilterMap(xs + ys, f)
  {
    assert FilterMap([x], f) == [] by {
      assert [x][..0] == [];
    }
    FilterMapAppend(xs, [x], f);
    assert FilterMap(xs + [x], f) == FilterMap(xs, f);
    FilterMapAppend(xs + [x], ys, f);
    FilterMapAppend(xs, ys, f);
  }

  /** A result is kept exactly when some element maps to it. */
  lemma {:induction false} FilterMapMembers<T, U>(xs: seq<T>, f: T -> Option<U>, u: U)
    ensures u in FilterMap(xs, f) <==> exists i | 0 <= i < |xs| :: f(xs[i]) == Some(u)
    decreases |xs|
  {
    if xs != [] {
      var init := xs[..|xs| - 1];
      FilterMapMembers(init, f, u);
      if u in FilterMap(xs, f) {
        if u in FilterMap(init, f) {
          var i :| 0 <= i < |init| && f(init[i]) == Some(u);
          assert xs[i] == init[i];
        } else {
          assert f(xs[|xs| - 1]) == Some(u);
        }
      }
      if exists i | 0 <= i < |xs| :: f(xs[i]) == Some(u) {
        var i :| 0 <= i < |xs| && f(xs[i]) == Some(u);
        if i < |init| {
          assert f(init[i]) == Some(u);
        }
      }
    }
  }

  /** An element `f` maps to `u` puts `u` among the results. */
  lemma FilterMapHas<T, U>(xs: seq<T>, f: T -> Option<U>, x: T, u: U)
    requires x in xs && f(x) == Some(u)
    ensures u in FilterMap(xs, f)
  {
    FilterMapMembers(xs, f, u);
    var i :| 0 <= i < |xs| && xs[i] == x;
  }

  /** Every result comes from some element. */
  lemma FilterMapFrom<T, U>(xs: seq<T>, f: T -> Option<U>, u: U) returns (x: T)
    requires u in FilterMap(xs, f)
    ensures x in xs && f(x) == Some(u)
  {
    FilterMapMembers(xs, f, u);
    var i :| 0 <= i < |xs| && f(xs[i]) == Some(u);
    x := xs[i];
  }
}
