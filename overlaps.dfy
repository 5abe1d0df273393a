/**
  The overlap index (`get_layer_overlaps_z`): the per-layer classification
  inverted into a dictionary from each grid value, in grid order, to the names
  of the layers present there.
 */
module Overlaps {
  import opened Layers
  import opened ZGrid
  import opened Classifier

  /** An insertion-ordered dictionary from grid value to layer names, as a Python `dict` keeps it. */
  datatype ZIndex = ZIndex(keys: seq<real>, entries: map<real, set<string>>) {

    ghost predicate Valid() {
      && (forall z :: z in keys <==> z in entries)
      && (forall i, j :: 0 <= i < j < |keys| ==> keys[i] != keys[j])
    }

    /** `d[z] = v`: a new key goes to the end of the order, an existing key keeps its place. */
    function Put(z: real, v: set<string>): (d: ZIndex)
      requires Valid()
      ensures d.Valid()
      ensures d.entries == entries[z := v]
      ensures d.keys == if z in entries then keys else keys + [z]
    {
      if z in entries then ZIndex(keys, entries[z := v]) else ZIndex(keys + [z], entries[z := v])
    }
  }

  /** The names whose classified set holds `z`: the comprehension over the classification's items. */
  function LayersWith(unique: map<string, set<real>>, z: real): (r: set<string>)
    ensures forall n :: n in r <==> n in unique && z in unique[n]
  {
    set n | n in unique && z in unique[n]
  }

  /**
    `get_layer_overlaps_z`: classifies the stack, then maps every grid value, in grid
    order, to the names of the layers present there under the chosen policy.
   */
  method GetLayerOverlapsZ(stack: seq<Layer>, includeZmax: bool) returns (index: ZIndex)
    requires DistinctNames(stack)
    ensures index.Valid()
    ensures index.keys == ListUniqueZ(stack)
    ensures forall z :: z in index.keys ==> index.entries[z] == Present(stack, z, includeZmax)
  {
    var zGrid := ListUniqueZ(stack);
    var unique := MapUniqueZ(stack, includeZmax);
    index := InvertOnGrid(zGrid, unique);
    forall z | z in index.keys
      ensures index.entries[z] == Present(stack, z, includeZmax)
    {
      ClassifiedLayersArePresent(stack, zGrid, unique, z, includeZmax);
    }
  }

  /** The loop of `get_layer_overlaps_z`: one dictionary entry per grid value, in grid order. */
  method InvertOnGrid(zGrid: seq<real>, unique: map<string, set<real>>) returns (index: ZIndex)
    requires StrictlyIncreasing(zGrid)
    ensures index.Valid()
    ensures index.keys == zGrid
    ensures forall z :: z in zGrid ==> index.entries[z] == LayersWith(unique, z)
  {
    index := ZIndex([], map[]);
    for k := 0 to |zGrid|
      invariant index.Valid()
      invariant index.keys == zGrid[..k]
      invariant forall z :: z in zGrid[..k] ==> index.entries[z] == LayersWith(unique, z)
    {
      var z := zGrid[k];
      var currentLayers := set n | n in unique && z in unique[n];
      assert z !in zGrid[..k];
      index := index.Put(z, currentLayers);
      assert zGrid[..k + 1] == zGrid[..k] + [z];
    }
    assert zGrid[..|zGrid|] == zGrid;
  }

  /** On the grid, inverting the classification gives exactly the layers present at each value. */
  lemma ClassifiedLayersArePresent(stack: seq<Layer>, grid: seq<real>, unique: map<string, set<real>>,
                                   z: real, includeZmax: bool)
    requires DistinctNames(stack)
    requires unique.Keys == NameSet(stack)
    requires forall i :: 0 <= i < |stack| ==> unique[stack[i].name] == SpanSet(grid, stack[i], includeZmax)
    requires z in grid
    ensures LayersWith(unique, z) == Present(stack, z, includeZmax)
  {
  }

  /**
    Under the closed policy no grid value has an empty entry: every grid value is a
    boundary of some layer, and a closed interval holds both its ends.
   */
  lemma ClosedEntriesNonEmpty(stack: seq<Layer>, z: real)
    requires z in ListUniqueZ(stack)
    ensures Present(stack, z, true) != {}
  {
    var i :| 0 <= i < |stack| && (z == stack[i].zmin || z == ZMax(stack[i]));
    assert InSpan(stack[i], z, true);
    assert stack[i].name in Present(stack, z, true);
  }
}
