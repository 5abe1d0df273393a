/**
  The z-grid of a layer stack: the sorted, duplicate-free sequence of every
  layer's `zmin` and `zmin + thickness` (`sorted(set(zmins + zmaxs))`).
 */
module ZGrid {
  import opened Layers

  ghost predicate StrictlyIncreasing(s: seq<real>) {
    forall i, j :: 0 <= i < j < |s| ==> s[i] < s[j]
  }

  /** Adds `x` to a strictly increasing sequence, keeping it strictly increasing and dropping a duplicate. */
  function InsertUnique(x: real, s: seq<real>): (r: seq<real>)
    requires StrictlyIncreasing(s)
    ensures StrictlyIncreasing(r)
    ensures forall y :: y in r <==> y == x || y in s
    ensures |r| <= |s| + 1
  {
    if s == [] then [x]
    else if x == s[0] then s
    else if x < s[0] then [x] + s
    else
      var rest := InsertUnique(x, s[1..]);
      assert forall y :: y in s[1..] ==> s[0] < y;
      ConsIncreasing(s[0], rest);
      [s[0]] + rest
  }

  /** A value below every element of a strictly increasing sequence may go in front of it. */
  lemma ConsIncreasing(h: real, rest: seq<real>)
    requires StrictlyIncreasing(rest)
    requires forall y :: y in rest ==> h < y
    ensures StrictlyIncreasing([h] + rest)
  {
    forall i, j | 0 <= i < j < |[h] + rest|
      ensures ([h] + rest)[i] < ([h] + rest)[j]
    {
      if i == 0 {
        assert rest[j - 1] in rest;
      }
    }
  }

  /** `sorted(set(xs))`: the values of `xs` in strictly increasing order. */
  function SortedSet(xs: seq<real>): (r: seq<real>)
    ensures StrictlyIncreasing(r)
    ensures forall y :: y in r <==> y in xs
    ensures |r| <= |xs|
  {
    if xs == [] then [] else InsertUnique(xs[|xs| - 1], SortedSet(xs[..|xs| - 1]))
  }

  function Zmins(stack: seq<Layer>): (r: seq<real>)
    ensures |r| == |stack| && forall i :: 0 <= i < |stack| ==> r[i] == stack[i].zmin
  {
    if stack == [] then [] else [stack[0].zmin] + Zmins(stack[1..])
  }

  function Zmaxs(stack: seq<Layer>): (r: seq<real>)
    ensures |r| == |stack| && forall i :: 0 <= i < |stack| ==> r[i] == ZMax(stack[i])
  {
    if stack == [] then [] else [ZMax(stack[0])] + Zmaxs(stack[1..])
  }

  /**
    `list_unique_layerstack_z`: strictly increasing, holding exactly the boundaries
    of the stack, at most two per layer; empty exactly for the empty stack.
   */
  function ListUniqueZ(stack: seq<Layer>): (r: seq<real>)
    ensures StrictlyIncreasing(r)
    ensures forall z :: z in r <==> IsBoundary(stack, z)
    ensures |r| <= 2 * |stack|
    ensures r == [] <==> stack == []
  {
    var r := SortedSet(Zmins(stack) + Zmaxs(stack));
    assert forall z :: z in Zmins(stack) + Zmaxs(stack) <==> IsBoundary(stack, z) by {
      forall z
        ensures z in Zmins(stack) + Zmaxs(stack) <==> IsBoundary(stack, z)
      {
        if IsBoundary(stack, z) {
          var i :| 0 <= i < |stack| && (z == stack[i].zmin || z == ZMax(stack[i]));
          assert z == Zmins(stack)[i] || z == Zmaxs(stack)[i];
        }
      }
    }
    assert stack != [] ==> stack[0].zmin in Zmins(stack) + Zmaxs(stack);
    r
  }

  /** A strictly increasing sequence is determined by its elements: `sorted(set(...))` has one answer. */
  lemma {:induction false} StrictlyIncreasingUnique(a: seq<real>, b: seq<real>)
    requires StrictlyIncreasing(a) && StrictlyIncreasing(b)
    requires forall z :: z in a <==> z in b
    ensures a == b
  {
    if a != [] { assert a[0] in a; }
    if b != [] { assert b[0] in b; }
    if a != [] {
      // Both heads are the least element of the common set.
      assert a[0] == b[0];
      forall z
        ensures z in a[1..] <==> z in b[1..]
      {
        if z in a[1..] {
          var i :| 1 <= i < |a| && a[i] == z;
          assert a[0] < z && z in b;
          var k :| 0 <= k < |b| && b[k] == z;
          assert k != 0;
        }
        if z in b[1..] {
          var i :| 1 <= i < |b| && b[i] == z;
          assert b[0] < z && z in a;
          var k :| 0 <= k < |a| && a[k] == z;
          assert k != 0;
        }
      }
      StrictlyIncreasingUnique(a[1..], b[1..]);
      assert a == [a[0]] + a[1..] && b == [b[0]] + b[1..];
    }
  }

  /** The grid depends only on the set of boundaries, not on the order or repetition of the layers. */
  lemma SameBoundariesSameGrid(s: seq<Layer>, t: seq<Layer>)
    requires forall z :: IsBoundary(s, z) <==> IsBoundary(t, z)
    ensures ListUniqueZ(s) == ListUniqueZ(t)
  {
    StrictlyIncreasingUnique(ListUniqueZ(s), ListUniqueZ(t));
  }

  /** Each layer's normalised interval ends are grid values. */
  lemma SpanEndsOnGrid(stack: seq<Layer>, l: Layer)
    requires l in stack
    ensures Start(l) in ListUniqueZ(stack) && End(l) in ListUniqueZ(stack)
  {
  }
}
