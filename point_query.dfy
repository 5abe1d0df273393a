/**
  The point query (`get_layers_at_z`): range-checks a height against the grid,
  then snaps it up to the first grid value at or above it and returns the
  closed-policy overlap entry there.
 */
module PointQuery {
  import opened Layers
  import opened ZGrid
  import opened Overlaps

  /** The outcomes of a query: the layer names found, or why there are none. */
  datatype QueryResult =
    | Found(names: set<string>)
    | EmptyStack   // the grid is empty, so its minimum is undefined
    | Below        // the height is under the lowest grid value
    | Above        // the height is over the highest grid value
    | NotFound     // the range check passed yet no grid value is at or above the height

  /** The minimum of a non-empty sequence (`np.min`). */
  function SeqMin(s: seq<real>): (r: real)
    requires s != []
    ensures r in s && forall x :: x in s ==> r <= x
  {
    if |s| == 1 then s[0]
    else
      var m := SeqMin(s[1..]);
      assert forall x :: x in s ==> x == s[0] || x in s[1..];
      if s[0] <= m then s[0] else m
  }

  /** The maximum of a non-empty sequence (`np.max`). */
  function SeqMax(s: seq<real>): (r: real)
    requires s != []
    ensures r in s && forall x :: x in s ==> x <= r
  {
    if |s| == 1 then s[0]
    else
      var m := SeqMax(s[1..]);
      assert forall x :: x in s ==> x == s[0] || x in s[1..];
      if m <= s[0] then s[0] else m
  }

  /** `c` is the least value of `grid` that is at least `z`: where the query snaps to. */
  ghost predicate IsLeastAtLeast(grid: seq<real>, z: real, c: real) {
    c in grid && z <= c && forall y :: y in grid && z <= y ==> c <= y
  }

  /**
    `get_layers_at_z`: an empty stack has no grid minimum; a height under the minimum
    or over the maximum is out of range; otherwise the answer is the set of layers
    present, top included, at the least grid value at or above the height. The
    fall-through after the scan is never reached.
   */
  method GetLayersAtZ(stack: seq<Layer>, z: real) returns (r: QueryResult)
    requires DistinctNames(stack)
    ensures r.EmptyStack? <==> stack == []
    ensures r.Below? <==> stack != [] && z < SeqMin(ListUniqueZ(stack))
    ensures r.Above? <==> stack != [] && SeqMin(ListUniqueZ(stack)) <= z && SeqMax(ListUniqueZ(stack)) < z
    ensures r.Found? <==> stack != [] && SeqMin(ListUniqueZ(stack)) <= z <= SeqMax(ListUniqueZ(stack))
    ensures !r.NotFound?
    ensures r.Found? ==>
              exists c :: IsLeastAtLeast(ListUniqueZ(stack), z, c) && r.names == Present(stack, c, true)
  {
    var intersection := GetLayerOverlapsZ(stack, true);
    var allZs := ListUniqueZ(stack);
    if allZs == [] {
      return EmptyStack;
    }
    if z < SeqMin(allZs) {
      return Below;
    } else if z > SeqMax(allZs) {
      return Above;
    }
    r := ScanKeys(intersection, z);
  }

  /**
    The scan of `get_layers_at_z`: walks the keys in insertion order and returns the
    entry of the first key at or above `z`, or `NotFound` when there is none.
   */
  method ScanKeys(index: ZIndex, z: real) returns (r: QueryResult)
    requires index.Valid() && StrictlyIncreasing(index.keys)
    ensures r.Found? || r.NotFound?
    ensures r.NotFound? <==> forall y :: y in index.keys ==> y < z
    ensures r.Found? ==> exists c :: IsLeastAtLeast(index.keys, z, c) && r.names == index.entries[c]
  {
    for k := 0 to |index.keys|
      invariant forall j :: 0 <= j < k ==> index.keys[j] < z
    {
      var zUnique := index.keys[k];
      if z <= zUnique {
        assert IsLeastAtLeast(index.keys, z, zUnique);
        return Found(index.entries[zUnique]);
      }
    }
    return NotFound;
  }

  /** On a strictly increasing grid the range bounds are its first and last values. */
  lemma {:induction false} GridBoundsAreEnds(grid: seq<real>)
    requires grid != [] && StrictlyIncreasing(grid)
    ensures SeqMin(grid) == grid[0] && SeqMax(grid) == grid[|grid| - 1]
  {
    assert grid[0] in grid && grid[|grid| - 1] in grid;
  }

  /** The valid range spans every layer: from the lowest layer boundary to the highest. */
  lemma RangeCoversLayers(stack: seq<Layer>, l: Layer)
    requires l in stack
    ensures SeqMin(ListUniqueZ(stack)) <= Start(l) && End(l) <= SeqMax(ListUniqueZ(stack))
  {
    SpanEndsOnGrid(stack, l);
  }

  /** A height inside the range always has a grid value to snap to, so the fall-through is unreachable. */
  lemma {:induction false} SnapExists(grid: seq<real>, z: real)
    requires grid != [] && z <= SeqMax(grid)
    ensures exists c :: IsLeastAtLeast(grid, z, c)
  {
    if |grid| == 1 {
      assert IsLeastAtLeast(grid, z, grid[0]);
    } else {
      var tail := grid[1..];
      assert forall x :: x in grid ==> x == grid[0] || x in tail;
      if z <= SeqMax(tail) {
        SnapExists(tail, z);
        var c' :| IsLeastAtLeast(tail, z, c');
        var c := if z <= grid[0] && grid[0] < c' then grid[0] else c';
        assert IsLeastAtLeast(grid, z, c);
      } else {
        assert IsLeastAtLeast(grid, z, grid[0]);
      }
    }
  }

  /** The snap target is unique, and a height that is itself a grid value snaps to itself. */
  lemma SnapIsUnique(grid: seq<real>, z: real, c: real, d: real)
    requires IsLeastAtLeast(grid, z, c) && IsLeastAtLeast(grid, z, d)
    ensures c == d
  {
  }

  lemma SnapAtGridValue(grid: seq<real>, z: real)
    requires z in grid
    ensures IsLeastAtLeast(grid, z, z)
  {
  }

  /** A height strictly between two neighbouring grid values snaps up to the upper one. */
  lemma SnapBetween(grid: seq<real>, k: nat, z: real)
    requires StrictlyIncreasing(grid) && 0 < k < |grid|
    requires grid[k - 1] < z <= grid[k]
    ensures IsLeastAtLeast(grid, z, grid[k])
  {
  }

  /**
    Snapping up under the closed policy reports a layer that starts at the upper grid
    value even though it does not reach down to the queried height.
   */
  lemma SnapReportsLayerAbove(stack: seq<Layer>, k: nat, z: real, l: Layer)
    requires l in stack
    requires 0 < k < |ListUniqueZ(stack)|
    requires ListUniqueZ(stack)[k - 1] < z < ListUniqueZ(stack)[k] == Start(l)
    ensures IsLeastAtLeast(ListUniqueZ(stack), z, Start(l))
    ensures l.name in Present(stack, Start(l), true) && !InSpan(l, z, true)
  {
  }

  /**
    Layer A spanning [0, 1] and layer B spanning [1, 3] give the grid [0, 1, 3];
    the height 0.5 snaps to 1, where both A and B are reported.
   */
  lemma SnapUpExample()
    ensures var stack := [Layer("A", 0.0, 1.0, 0), Layer("B", 1.0, 2.0, 0)];
            && ListUniqueZ(stack) == [0.0, 1.0, 3.0]
            && IsLeastAtLeast(ListUniqueZ(stack), 0.5, 1.0)
            && Present(stack, 1.0, true) == {"A", "B"}
  {
    var stack := [Layer("A", 0.0, 1.0, 0), Layer("B", 1.0, 2.0, 0)];
    forall z
      ensures z in ListUniqueZ(stack) <==> z in [0.0, 1.0, 3.0]
    {
      if z in [0.0, 1.0, 3.0] {
        assert IsBoundary(stack, z) by {
          if z == 0.0 { assert z == stack[0].zmin; }
          else if z == 1.0 { assert z == stack[1].zmin; }
          else { assert z == ZMax(stack[1]); }
        }
      }
    }
    StrictlyIncreasingUnique(ListUniqueZ(stack), [0.0, 1.0, 3.0]);
    assert stack[0].name in Present(stack, 1.0, true) && stack[1].name in Present(stack, 1.0, true);
  }
}
