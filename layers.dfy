/**
  The layer records a layer stack is made of, as the z-axis index reads them:
  a unique name, the bottom coordinate `zmin`, a `thickness` (whose sign is not
  constrained) and the `meshOrder` priority. Coordinates are exact reals.
 */
module Layers {

  datatype Layer = Layer(name: string, zmin: real, thickness: real, meshOrder: int)

  /** The second boundary of a layer, `zmin + thickness`; below `zmin` when the thickness is negative. */
  function ZMax(l: Layer): real {
    l.zmin + l.thickness
  }

  /** Lower end of the layer's normalised interval, the first element of `sorted([zmin, zmax])`. */
  function Start(l: Layer): (r: real)
    ensures r <= l.zmin && r <= ZMax(l)
    ensures r == l.zmin || r == ZMax(l)
  {
    if ZMax(l) < l.zmin then ZMax(l) else l.zmin
  }

  /** Upper end of the layer's normalised interval, the second element of `sorted([zmin, zmax])`. */
  function End(l: Layer): (r: real)
    ensures l.zmin <= r && ZMax(l) <= r
    ensures r == l.zmin || r == ZMax(l)
  {
    if ZMax(l) < l.zmin then l.zmin else ZMax(l)
  }

  /** A layer stack is keyed by layer name, so no two of its layers share a name. */
  ghost predicate DistinctNames(stack: seq<Layer>) {
    forall i, j :: 0 <= i < j < |stack| ==> stack[i].name != stack[j].name
  }

  function NameSet(stack: seq<Layer>): set<string> {
    set l | l in stack :: l.name
  }

  /** The names of the layers, in stack order. */
  function NamesOf(stack: seq<Layer>): (r: seq<string>)
    ensures |r| == |stack|
    ensures forall i :: 0 <= i < |stack| ==> r[i] == stack[i].name
  {
    if stack == [] then [] else [stack[0].name] + NamesOf(stack[1..])
  }

  /** `z` is one of the boundaries some layer of the stack contributes. */
  ghost predicate IsBoundary(stack: seq<Layer>, z: real) {
    exists i :: 0 <= i < |stack| && (z == stack[i].zmin || z == ZMax(stack[i]))
  }

  /** The layer is present at height `z`: closed interval when `includeZmax`, top excluded otherwise. */
  predicate InSpan(l: Layer, z: real, includeZmax: bool) {
    Start(l) <= z && (if includeZmax then z <= End(l) else z < End(l))
  }

  /** The names of the layers present at height `z` under the chosen boundary policy. */
  function Present(stack: seq<Layer>, z: real, includeZmax: bool): set<string> {
    set l | l in stack && InSpan(l, z, includeZmax) :: l.name
  }

  /** With distinct names, a layer's name is present exactly when that layer spans `z`. */
  lemma PresentMembership(stack: seq<Layer>, i: nat, z: real, includeZmax: bool)
    requires DistinctNames(stack) && i < |stack|
    ensures stack[i].name in Present(stack, z, includeZmax) <==> InSpan(stack[i], z, includeZmax)
  {
  }

  /** A negative thickness is normalised away: the layer reflected about its two boundaries spans the same heights. */
  lemma ReflectedLayerSpansSame(l: Layer, z: real, includeZmax: bool)
    ensures var flipped := Layer(l.name, ZMax(l), -l.thickness, l.meshOrder);
            ZMax(flipped) == l.zmin && (InSpan(flipped, z, includeZmax) <==> InSpan(l, z, includeZmax))
  {
  }
}
