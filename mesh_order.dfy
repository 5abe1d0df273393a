/**
  Layer ordering (`order_layerstack`): the layer names sorted by the pair
  `(mesh_order, name)`, so that equal mesh orders fall back to the names.
 */
module MeshOrder {
  import opened Layers

  /** `a` is a proper prefix of `b`. */
  ghost predicate ProperPrefix(a: string, b: string) {
    |a| < |b| && a == b[..|a|]
  }

  /** At the first position where `a` and `b` differ, `a` has the smaller character. */
  ghost predicate FirstDifferenceLess(a: string, b: string) {
    exists k :: 0 <= k < |a| && k < |b| && a[..k] == b[..k] && a[k] < b[k]
  }

  /**
    Python's `<` on strings: lexicographic by code point. It holds exactly when `a` is a
    proper prefix of `b`, or when `a` has the smaller character where they first differ.
   */
  predicate NameLess(a: string, b: string): (r: bool)
    ensures r <==> ProperPrefix(a, b) || FirstDifferenceLess(a, b)
  {
    if a == [] then b != []
    else if b == [] then false
    else if a[0] != b[0] then
      assert a[0] < b[0] ==> a[..0] == b[..0];
      assert !ProperPrefix(a, b);
      a[0] < b[0]
    else
      NameLessStep(a, b);
      NameLess(a[1..], b[1..])
  }

  /** Dropping a common first character preserves both ways of being smaller. */
  lemma NameLessStep(a: string, b: string)
    requires a != [] && b != [] && a[0] == b[0]
    ensures ProperPrefix(a, b) <==> ProperPrefix(a[1..], b[1..])
    ensures FirstDifferenceLess(a, b) <==> FirstDifferenceLess(a[1..], b[1..])
  {
    if ProperPrefix(a[1..], b[1..]) {
      assert a == [a[0]] + a[1..] && b[..|a|] == [b[0]] + b[1..][..|a| - 1];
    }
    if FirstDifferenceLess(a, b) {
      var k :| 0 <= k < |a| && k < |b| && a[..k] == b[..k] && a[k] < b[k];
      assert k != 0;
      assert a[1..][..k - 1] == a[..k][1..] == b[..k][1..] == b[1..][..k - 1];
      assert a[1..][k - 1] < b[1..][k - 1];
    }
    if FirstDifferenceLess(a[1..], b[1..]) {
      var k :| 0 <= k < |a[1..]| && k < |b[1..]| && a[1..][..k] == b[1..][..k] && a[1..][k] < b[1..][k];
      assert a[..k + 1] == [a[0]] + a[1..][..k] && b[..k + 1] == [b[0]] + b[1..][..k];
      assert a[k + 1] < b[k + 1];
    }
  }

  lemma {:induction false} NameLessIrreflexive(a: string)
    ensures !NameLess(a, a)
  {
    if a != [] {
      NameLessIrreflexive(a[1..]);
    }
  }

  lemma {:induction false} NameLessTransitive(a: string, b: string, c: string)
    requires NameLess(a, b) && NameLess(b, c)
    ensures NameLess(a, c)
  {
    if a != [] && a[0] == b[0] && b[0] == c[0] {
      NameLessTransitive(a[1..], b[1..], c[1..]);
    }
  }

  lemma {:induction false} NameLessTotal(a: string, b: string)
    requires a != b
    ensures NameLess(a, b) || NameLess(b, a)
  {
    if a != [] && b != [] && a[0] == b[0] {
      assert a == [a[0]] + a[1..] && b == [b[0]] + b[1..];
      NameLessTotal(a[1..], b[1..]);
    }
  }

  lemma {:induction false} NameLessAsymmetric(a: string, b: string)
    requires NameLess(a, b)
    ensures !NameLess(b, a)
  {
    if a != [] && b != [] && a[0] == b[0] {
      NameLessAsymmetric(a[1..], b[1..]);
    }
  }

  /**
    The tuple comparison `(mesh_order, name) < (mesh_order', name')`: a smaller mesh order
    comes first, and names decide only between equal mesh orders.
   */
  predicate KeyLess(x: Layer, y: Layer): (r: bool)
    ensures r ==> x.meshOrder <= y.meshOrder
    ensures x.meshOrder != y.meshOrder ==> (r <==> x.meshOrder < y.meshOrder)
    ensures x.meshOrder == y.meshOrder ==> (r <==> NameLess(x.name, y.name))
  {
    x.meshOrder < y.meshOrder || (x.meshOrder == y.meshOrder && NameLess(x.name, y.name))
  }

  lemma KeyLessTransitive(x: Layer, y: Layer, z: Layer)
    requires KeyLess(x, y) && KeyLess(y, z)
    ensures KeyLess(x, z)
  {
    if x.meshOrder == y.meshOrder == z.meshOrder {
      NameLessTransitive(x.name, y.name, z.name);
    }
  }

  lemma KeyLessTotal(x: Layer, y: Layer)
    requires x.name != y.name
    ensures KeyLess(x, y) || KeyLess(y, x)
  {
    NameLessTotal(x.name, y.name);
  }

  ghost predicate StrictlySorted(s: seq<Layer>) {
    forall i, j :: 0 <= i < j < |s| ==> KeyLess(s[i], s[j])
  }

  /** A layer below every element of a strictly sorted sequence may go in front of it. */
  lemma ConsSorted(h: Layer, rest: seq<Layer>)
    requires StrictlySorted(rest)
    requires forall y :: y in rest ==> KeyLess(h, y)
    ensures StrictlySorted([h] + rest)
  {
  }

  /** Inserts `x`, whose name the sorted `s` does not hold, at its place by `(mesh_order, name)`. */
  function Insert(x: Layer, s: seq<Layer>): (r: seq<Layer>)
    requires StrictlySorted(s)
    requires forall y :: y in s ==> y.name != x.name
    ensures StrictlySorted(r)
    ensures multiset(r) == multiset(s) + multiset{x}
  {
    if s == [] then [x]
    else if KeyLess(s[0], x) then
      var rest := Insert(x, s[1..]);
      InsertedAbove(x, s, rest);
      assert s == [s[0]] + s[1..];
      [s[0]] + rest
    else
      KeyLessTotal(x, s[0]);
      BelowHead(x, s);
      ConsSorted(x, s);
      [x] + s
  }

  lemma InsertedAbove(x: Layer, s: seq<Layer>, rest: seq<Layer>)
    requires s != [] && StrictlySorted(s) && KeyLess(s[0], x)
    requires StrictlySorted(rest) && multiset(rest) == multiset(s[1..]) + multiset{x}
    ensures StrictlySorted([s[0]] + rest)
  {
    forall y | y in rest
      ensures KeyLess(s[0], y)
    {
      assert y in multiset(rest);
      if y != x {
        assert y in multiset(s[1..]);
        var j :| 0 <= j < |s[1..]| && s[1..][j] == y;
        assert s[j + 1] == y;
      }
    }
    ConsSorted(s[0], rest);
  }

  lemma BelowHead(x: Layer, s: seq<Layer>)
    requires s != [] && StrictlySorted(s) && KeyLess(x, s[0])
    ensures forall y :: y in s ==> KeyLess(x, y)
  {
    forall y | y in s
      ensures KeyLess(x, y)
    {
      var j :| 0 <= j < |s| && s[j] == y;
      if j > 0 {
        KeyLessTransitive(x, s[0], s[j]);
      }
    }
  }

  /** `sorted(...)` of layers with distinct names: a strictly ordered permutation. */
  function SortLayers(s: seq<Layer>): (r: seq<Layer>)
    requires DistinctNames(s)
    ensures StrictlySorted(r)
    ensures multiset(r) == multiset(s)
  {
    if s == [] then []
    else
      var rest := SortLayers(s[1..]);
      HeadNameFresh(s, rest);
      assert s == [s[0]] + s[1..];
      Insert(s[0], rest)
  }

  lemma HeadNameFresh(s: seq<Layer>, rest: seq<Layer>)
    requires s != [] && DistinctNames(s) && multiset(rest) == multiset(s[1..])
    ensures forall y :: y in rest ==> y.name != s[0].name
  {
    forall y | y in rest
      ensures y.name != s[0].name
    {
      assert y in multiset(s[1..]);
      var j :| 0 <= j < |s[1..]| && s[1..][j] == y;
      assert s[j + 1] == y;
    }
  }

  /** The record the stack's dict holds under `n`, found by scanning the stack. */
  function LayerNamed(stack: seq<Layer>, n: string): (l: Layer)
    requires n in NameSet(stack)
    ensures l in stack && l.name == n
  {
    if stack[0].name == n then stack[0]
    else
      assert n in NameSet(stack[1..]) by {
        var l :| l in stack && l.name == n;
        assert l != stack[0];
      }
      LayerNamed(stack[1..], n)
  }

  lemma LayerNamedIsUnique(stack: seq<Layer>, l: Layer)
    requires DistinctNames(stack) && l in stack
    ensures LayerNamed(stack, l.name) == l
  {
  }

  /**
    `order_layerstack`: every name of the stack exactly once, in strictly increasing
    `(mesh_order, name)` order of the layers they name.
   */
  function OrderLayerstack(stack: seq<Layer>): (r: seq<string>)
    requires DistinctNames(stack)
    ensures |r| == |stack|
    ensures forall i :: 0 <= i < |r| ==> r[i] in NameSet(stack)
    ensures forall n :: n in NameSet(stack) ==> n in r
    ensures forall i, j :: 0 <= i < j < |r| ==> KeyLess(LayerNamed(stack, r[i]), LayerNamed(stack, r[j]))
  {
    var sorted := SortLayers(stack);
    forall i | 0 <= i < |sorted|
      ensures sorted[i] in stack && LayerNamed(stack, sorted[i].name) == sorted[i]
    {
      assert sorted[i] in multiset(stack);
      LayerNamedIsUnique(stack, sorted[i]);
    }
    var r := NamesOf(sorted);
    forall n | n in NameSet(stack)
      ensures n in r
    {
      var l :| l in stack && l.name == n;
      assert l in multiset(sorted);
      var i :| 0 <= i < |sorted| && sorted[i] == l;
      assert r[i] == n;
    }
    r
  }

  /** The ordered names are pairwise distinct: the order is strict. */
  lemma OrderedNamesDistinct(stack: seq<Layer>, i: nat, j: nat)
    requires DistinctNames(stack)
    requires i < j < |OrderLayerstack(stack)|
    ensures OrderLayerstack(stack)[i] != OrderLayerstack(stack)[j]
  {
    NameLessIrreflexive(OrderLayerstack(stack)[i]);
  }

  lemma KeyLessAsymmetric(x: Layer, y: Layer)
    requires KeyLess(x, y)
    ensures !KeyLess(y, x)
  {
    if x.meshOrder == y.meshOrder {
      NameLessAsymmetric(x.name, y.name);
    }
  }

  lemma HeadIsLeast(a: seq<Layer>, y: Layer)
    requires StrictlySorted(a) && y in a && y != a[0]
    ensures KeyLess(a[0], y)
  {
  }

  /** Two strictly sorted sequences holding the same layers are equal: the sort has one answer. */
  lemma {:induction false} StrictlySortedUnique(a: seq<Layer>, b: seq<Layer>)
    requires StrictlySorted(a) && StrictlySorted(b)
    requires multiset(a) == multiset(b)
    ensures a == b
    decreases |a|
  {
    assert |a| == |multiset(a)| == |multiset(b)| == |b|;
    if a != [] {
      assert a[0] in multiset(b) && b[0] in multiset(a);
      if a[0] != b[0] {
        HeadIsLeast(a, b[0]);
        HeadIsLeast(b, a[0]);
        KeyLessAsymmetric(a[0], b[0]);
      }
      assert a == [a[0]] + a[1..] && b == [b[0]] + b[1..];
      assert multiset(a[1..]) == multiset(a) - multiset{a[0]};
      assert multiset(b[1..]) == multiset(b) - multiset{b[0]};
      StrictlySortedUnique(a[1..], b[1..]);
    }
  }

  /**
    The order depends only on the layers, not on their order in the stack: ties on
    `mesh_order` are broken by name, not by position.
   */
  lemma OrderIgnoresStackOrder(s: seq<Layer>, t: seq<Layer>)
    requires DistinctNames(s) && DistinctNames(t)
    requires multiset(s) == multiset(t)
    ensures OrderLayerstack(s) == OrderLayerstack(t)
  {
    StrictlySortedUnique(SortLayers(s), SortLayers(t));
  }

  /** Two layers of equal `mesh_order` listed as "b" then "a" come out as "a" then "b". */
  lemma TieBrokenByName()
    ensures OrderLayerstack([Layer("b", 0.0, 1.0, 1), Layer("a", 0.0, 1.0, 1)]) == ["a", "b"]
  {
  }
}
