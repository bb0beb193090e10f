/** Keeping the present results of a partial function over a sequence: the
    shape of every "for line in lines: if match: append" loop. */
module Sequences {
  import opened Wrappers

  /** The values `f` yields on `xs`, in the order of `xs`. */
  function FilterMap<A, B>(xs: seq<A>, f: A -> Option<B>): (r: seq<B>)
    ensures |r| <= |xs|
  {
    if |xs| == 0 then []
    else
      var prev := FilterMap(xs[..|xs| - 1], f);
      var last := xs[|xs| - 1];
      prev + (match f(last) case Some(y) => [y] case None => [])
  }

  /** Strictly increasing indices. */
  predicate Increasing(o: seq<nat>) {
    forall i, j :: 0 <= i < j < |o| ==> o[i] < o[j]
  }

  /** The positions of the elements on which `f` yields a value. */
  ghost function Origins<A, B>(xs: seq<A>, f: A -> Option<B>): seq<nat>
  {
    if |xs| == 0 then []
    else Origins(xs[..|xs| - 1], f) + (if f(xs[|xs| - 1]).Some? then [|xs| - 1] else [])
  }

  /** Where each result of `FilterMap` comes from: the i-th result is what
      `f` yields on element `o[i]`, the positions increase, and every element
      on which `f` yields a value is one of them. */
  lemma FilterMapOrigins<A, B>(xs: seq<A>, f: A -> Option<B>)
    ensures var o := Origins(xs, f);
      && |o| == |FilterMap(xs, f)|
      && Increasing(o)
      && (forall i :: 0 <= i < |o| ==> o[i] < |xs| && f(xs[o[i]]) == Some(FilterMap(xs, f)[i]))
      && (forall j :: 0 <= j < |xs| && f(xs[j]).Some? ==> j in o)
  {
    OriginsSound(xs, f);
    OriginsIncreasing(xs, f);
    OriginsComplete(xs, f);
  }

  lemma {:induction false} OriginsSound<A, B>(xs: seq<A>, f: A -> Option<B>)
    ensures |Origins(xs, f)| == |FilterMap(xs, f)|
    ensures forall i :: 0 <= i < |Origins(xs, f)| ==>
      Origins(xs, f)[i] < |xs| && f(xs[Origins(xs, f)[i]]) == Some(FilterMap(xs, f)[i])
  {
    if |xs| > 0 {
      var init := xs[..|xs| - 1];
      var last := xs[|xs| - 1];
      OriginsSound(init, f);
      var prev := Origins(init, f);
      var before := FilterMap(init, f);
      var after := FilterMap(xs, f);
      var o := Origins(xs, f);
      assert o == prev + (if f(last).Some? then [|xs| - 1] else []);
      assert after == before + (match f(last) case Some(y) => [y] case None => []);
      forall i | 0 <= i < |o|
        ensures o[i] < |xs| && f(xs[o[i]]) == Some(after[i])
      {
        if i < |prev| {
          assert o[i] == prev[i] && after[i] == before[i];
          assert xs[prev[i]] == init[prev[i]];
        }
      }
    }
  }

  lemma {:induction false} OriginsIncreasing<A, B>(xs: seq<A>, f: A -> Option<B>)
    ensures forall i :: 0 <= i < |Origins(xs, f)| ==> Origins(xs, f)[i] < |xs|
    ensures Increasing(Origins(xs, f))
  {
    if |xs| > 0 {
      var init := xs[..|xs| - 1];
      OriginsIncreasing(init, f);
      var prev := Origins(init, f);
      var o := Origins(xs, f);
      forall i, j | 0 <= i < j < |o|
        ensures o[i] < o[j]
      {
        assert o[i] == prev[i] && prev[i] < |init|;
        if j < |prev| {
          assert o[j] == prev[j];
        }
      }
    }
  }

  lemma {:induction false} OriginsComplete<A, B>(xs: seq<A>, f: A -> Option<B>)
    ensures forall j :: 0 <= j < |xs| && f(xs[j]).Some? ==> j in Origins(xs, f)
  {
    if |xs| > 0 {
      var init := xs[..|xs| - 1];
      OriginsComplete(init, f);
      var prev := Origins(init, f);
      forall j | 0 <= j < |xs| && f(xs[j]).Some?
        ensures j in Origins(xs, f)
      {
        if j < |init| {
          assert init[j] == xs[j];
          assert j in prev;
        }
      }
    }
  }

  /** Some element of `xs` yields `y` exactly when `y` is among the
      results. */
  lemma FilterMapMembers<A, B>(xs: seq<A>, f: A -> Option<B>, y: B)
    ensures y in FilterMap(xs, f) <==> exists x :: x in xs && f(x) == Some(y)
  {
    FilterMapOrigins(xs, f);
    var o := Origins(xs, f);
    var r := FilterMap(xs, f);
    if y in r {
      var i :| 0 <= i < |r| && r[i] == y;
      assert xs[o[i]] in xs;
    }
    if exists x :: x in xs && f(x) == Some(y) {
      var x :| x in xs && f(x) == Some(y);
      var j :| 0 <= j < |xs| && xs[j] == x;
      var i :| 0 <= i < |o| && o[i] == j;
      assert r[i] == y;
    }
  }

  /** The results of `f` on each element of `xs`, one after another. */
  function ConcatMap<A, B>(xs: seq<A>, f: A -> seq<B>): seq<B>
  {
    if |xs| == 0 then [] else f(xs[0]) + ConcatMap(xs[1..], f)
  }

  lemma {:induction false} ConcatMapMembers<A, B>(xs: seq<A>, f: A -> seq<B>, y: B)
    ensures y in ConcatMap(xs, f) <==> exists x :: x in xs && y in f(x)
  {
    if |xs| > 0 {
      ConcatMapMembers(xs[1..], f, y);
      assert forall x :: x in xs <==> x == xs[0] || x in xs[1..];
    }
  }
}
