/**
  Per-layer classification of the z-grid (`map_unique_layerstack_z`): for each
  layer, the grid values inside its normalised interval, with the top either
  included (closed interval) or excluded (half-open interval).
 */
module Classifier {
  import opened Layers
  import opened ZGrid

  /** The grid values at which layer `l` is present under the chosen boundary policy. */
  function SpanSet(grid: seq<real>, l: Layer, includeZmax: bool): set<real> {
    set z | z in grid && InSpan(l, z, includeZmax)
  }

  /**
    `map_unique_layerstack_z`: the grid of the stack, classified layer by layer.
   */
  method MapUniqueZ(stack: seq<Layer>, includeZmax: bool) returns (unique: map<string, set<real>>)
    requires DistinctNames(stack)
    ensures unique.Keys == NameSet(stack)
    ensures forall i :: 0 <= i < |stack| ==>
              unique[stack[i].name] == SpanSet(ListUniqueZ(stack), stack[i], includeZmax)
  {
    var zLevels := ListUniqueZ(stack);
    unique := ClassifyOnGrid(stack, zLevels, includeZmax);
  }

  /**
    The loop of `map_unique_layerstack_z`: fills a dictionary from layer name to the set
    of `zLevels` values inside that layer's normalised interval, one layer at a time.
   */
  method ClassifyOnGrid(stack: seq<Layer>, zLevels: seq<real>, includeZmax: bool)
    returns (unique: map<string, set<real>>)
    requires DistinctNames(stack)
    ensures unique.Keys == NameSet(stack)
    ensures forall i :: 0 <= i < |stack| ==> unique[stack[i].name] == SpanSet(zLevels, stack[i], includeZmax)
  {
    unique := map[];
    for i := 0 to |stack|
      invariant unique.Keys == NameSet(stack[..i])
      invariant forall j :: 0 <= j < i ==> unique[stack[j].name] == SpanSet(zLevels, stack[j], includeZmax)
    {
      var layer := stack[i];
      var zStart, zEnd := Start(layer), End(layer);
      var layerZs;
      if includeZmax {
        layerZs := set z | z in zLevels && z >= zStart && z <= zEnd;
      } else {
        layerZs := set z | z in zLevels && z >= zStart && z < zEnd;
      }
      LayerZsIsSpanSet(zLevels, layer, includeZmax, layerZs);
      NameSetSnoc(stack[..i], layer);
      assert stack[..i + 1] == stack[..i] + [layer];
      ghost var before := unique;
      unique := unique[layer.name := layerZs];
      forall j | 0 <= j < i
        ensures unique[stack[j].name] == SpanSet(zLevels, stack[j], includeZmax)
      {
        assert stack[j].name != layer.name;
        assert unique[stack[j].name] == before[stack[j].name];
      }
    }
    assert stack[..|stack|] == stack;
  }

  lemma LayerZsIsSpanSet(zLevels: seq<real>, l: Layer, includeZmax: bool, layerZs: set<real>)
    requires includeZmax ==> layerZs == set z | z in zLevels && z >= Start(l) && z <= End(l)
    requires !includeZmax ==> layerZs == set z | z in zLevels && z >= Start(l) && z < End(l)
    ensures layerZs == SpanSet(zLevels, l, includeZmax)
  {
  }

  lemma NameSetSnoc(s: seq<Layer>, l: Layer)
    ensures NameSet(s + [l]) == NameSet(s) + {l.name}
  {
  }

  /** The half-open policy never reports more than the closed one, and at most the single top `End(l)` less. */
  lemma PolicyDifference(grid: seq<real>, l: Layer)
    ensures SpanSet(grid, l, false) <= SpanSet(grid, l, true)
    ensures SpanSet(grid, l, true) - SpanSet(grid, l, false) == if End(l) in grid then {End(l)} else {}
  {
  }

  /** A zero-thickness layer is present only at its own `zmin` when the top counts, and nowhere otherwise. */
  lemma ZeroThickness(grid: seq<real>, l: Layer)
    requires l.thickness == 0.0 && l.zmin in grid
    ensures SpanSet(grid, l, true) == {l.zmin}
    ensures SpanSet(grid, l, false) == {}
  {
  }

  /** Under the closed policy every layer of the stack is present at both ends of its interval on the grid. */
  lemma ClosedSpanHoldsEnds(stack: seq<Layer>, l: Layer)
    requires l in stack
    ensures Start(l) in SpanSet(ListUniqueZ(stack), l, true)
    ensures End(l) in SpanSet(ListUniqueZ(stack), l, true)
  {
  }

  /** A layer of positive extent is present at its bottom under either policy, and absent at its top under the half-open one. */
  lemma HalfOpenExcludesTopOnly(stack: seq<Layer>, l: Layer)
    requires l in stack && l.thickness != 0.0
    ensures Start(l) in SpanSet(ListUniqueZ(stack), l, false)
    ensures End(l) !in SpanSet(ListUniqueZ(stack), l, false)
  {
  }
}
