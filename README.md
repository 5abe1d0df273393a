# Layer stack z-axis index

A Dafny model of the z-axis preprocessing in `gplugins/common/utils/parse_layerstack.py`.
A layer stack is a sequence of layers. Each layer has a unique name, a bottom coordinate
`zmin`, a `thickness` (which may be negative) and a `mesh_order` priority. The module:

- builds the **z-grid**: the sorted, duplicate-free list of every `zmin` and every
  `zmin + thickness` (`list_unique_layerstack_z`);
- **classifies** the grid per layer: the grid values inside the layer's normalised interval
  `sorted([zmin, zmax])`. The interval is closed (`include_zmax`) or excludes the top
  (`map_unique_layerstack_z`);
- **inverts** that classification into an insertion-ordered dictionary. It maps each grid
  value to the names of the layers present there (`get_layer_overlaps_z`);
- answers **point queries** (`get_layers_at_z`). A height below the grid minimum or above
  its maximum is an error. Otherwise the height snaps up to the first grid value at or
  above it, and the query returns the closed-policy entry there;
- **orders** the layer names by the pair `(mesh_order, name)` (`order_layerstack`).

Modules, one per component, one file each:

- `layers.dfy` (`Layers`): the `Layer` record, the normalised interval `Start`/`End`, and the
  presence predicate `InSpan`. It also defines `Present`, the set of names present at a height.
  `InSpan` is what the classifier is proved against; `Present` is what the overlap index and the
  point query are proved against.
- `zgrid.dfy` (`ZGrid`): the grid as a pure function (`sorted(set(...))` as insertion into a
  strictly increasing sequence).
- `classifier.dfy` (`Classifier`): the classification loop as a method, plus the boundary-policy lemmas.
- `overlaps.dfy` (`Overlaps`): the overlap index as a method. The insertion-ordered
  dictionary is the datatype `ZIndex`.
- `point_query.dfy` (`PointQuery`): the range check and the linear scan with its
  fall-through. The outcomes are `Found`, `EmptyStack`, `Below`, `Above` and `NotFound`.
- `mesh_order.dfy` (`MeshOrder`): Python's string `<` written out, tuple comparison, and an
  insertion sort proved to give a strictly ordered permutation.

Heights are exact `real` numbers and `mesh_order` is an `int`. A stack is a `seq<Layer>`
whose names are distinct, as the keys of the dictionary that holds a layer stack are.

### Behaviours of the code worth knowing

- Ties on `mesh_order` are broken by layer name, not by position in the stack: the code sorts
  `(mesh_order, name)` tuples (`parse_layerstack.py:110`). `MeshOrder.OrderIgnoresStackOrder`
  and `MeshOrder.TieBrokenByName` state this.
- A height strictly between two grid values snaps up to the upper value. Under the closed policy
  the answer there includes layers that only start at that value: with A on [0, 1] and B on
  [1, 3], height 0.5 gives {A, B} (`parse_layerstack.py:87`, `:93-95`). `PointQuery.SnapUpExample`
  and `PointQuery.SnapReportsLayerAbove` state this.
- An empty stack has an empty grid, and the query fails inside `np.min`
  (`parse_layerstack.py:89`). The model calls this outcome `EmptyStack`.
- The query scans the grid linearly with an early return, followed by a fall-through error
  (`parse_layerstack.py:93-96`). The model keeps the scan, and `PointQuery.SnapExists` proves
  the fall-through unreachable.

## Model

| member | source | states |
|---|---|---|
| `Layers.Start` | gplugins/common/utils/parse_layerstack.py:41-43 | the lower end of `sorted([zmin, zmax])` is the smaller of `zmin` and `zmin + thickness` |
| `Layers.End` | gplugins/common/utils/parse_layerstack.py:41-43 | the upper end of `sorted([zmin, zmax])` is the larger of the two, so every interval is normalised even for negative thickness |
| `Layers.PresentMembership` | gplugins/common/utils/parse_layerstack.py:71-73 | with unique names, a layer's name is in the present set at `z` exactly when that layer spans `z` |
| `Layers.ReflectedLayerSpansSame` | gplugins/common/utils/parse_layerstack.py:41-43 | a layer and its reflection (bottom at `zmin + thickness`, thickness negated) span the same heights: the sign of the thickness does not matter |
| `Layers.NamesOf` | gplugins/common/utils/parse_layerstack.py:110 | the comprehension `[x for _, x in ...]` keeps one name per layer, in order: position `i` holds the name of layer `i` |
| `ZGrid.Zmins` | gplugins/common/utils/parse_layerstack.py:19 | the list of `zmin` values, one per layer, in stack order |
| `ZGrid.Zmaxs` | gplugins/common/utils/parse_layerstack.py:20 | the list of `zmin + thickness` values, one per layer, in stack order |
| `ZGrid.InsertUnique` | gplugins/common/utils/parse_layerstack.py:22 | adding a value to a strictly increasing sequence keeps it strictly increasing, holds exactly the old values and the new one, and grows by at most one |
| `ZGrid.SortedSet` | gplugins/common/utils/parse_layerstack.py:22 | `sorted(set(xs))` is strictly increasing, has exactly the values of `xs`, and is no longer than `xs` |
| `ZGrid.ListUniqueZ` | gplugins/common/utils/parse_layerstack.py:8-22 | the grid is strictly ascending and holds exactly the `zmin` and `zmin + thickness` values of the layers. It has at most two values per layer and is empty exactly for the empty stack |
| `ZGrid.StrictlyIncreasingUnique` | gplugins/common/utils/parse_layerstack.py:22 | two strictly increasing sequences with the same values are equal, so the grid is the one sorted duplicate-free listing of the boundaries |
| `ZGrid.SameBoundariesSameGrid` | gplugins/common/utils/parse_layerstack.py:18-22 | two stacks with the same boundary values have the same grid, whatever the layer order or repetition |
| `ZGrid.SpanEndsOnGrid` | gplugins/common/utils/parse_layerstack.py:18-22 | both ends of every layer's normalised interval are grid values |
| `Classifier.MapUniqueZ` | gplugins/common/utils/parse_layerstack.py:25-53 | the result has exactly the layer names as keys. Each layer maps to the grid values inside its interval: closed when `include_zmax` holds, top excluded otherwise |
| `Classifier.ClassifyOnGrid` | gplugins/common/utils/parse_layerstack.py:39-51 | the loop fills, for each layer name, the given grid values between `z_start` and `z_end`, with `<=` or `<` at the top by the flag, and no other keys |
| `Classifier.PolicyDifference` | gplugins/common/utils/parse_layerstack.py:44-51 | the half-open set is a subset of the closed set. The two differ exactly by `z_end`, when it is a grid value |
| `Classifier.ZeroThickness` | gplugins/common/utils/parse_layerstack.py:44-51 | a zero-thickness layer gets `{zmin}` under the closed policy and the empty set under the half-open one |
| `Classifier.ClosedSpanHoldsEnds` | gplugins/common/utils/parse_layerstack.py:44-47 | under the closed policy every layer is classified at both ends of its interval |
| `Classifier.HalfOpenExcludesTopOnly` | gplugins/common/utils/parse_layerstack.py:48-51 | under the half-open policy a layer of non-zero thickness keeps its bottom and loses its top |
| `Overlaps.ZIndex.Put` | gplugins/common/utils/parse_layerstack.py:74 | `intersection_z_dict[z] = ...` sets the entry for `z`. A new key goes to the end of the insertion order, and an existing key keeps its place. Keys stay unique and match the entries |
| `Overlaps.GetLayerOverlapsZ` | gplugins/common/utils/parse_layerstack.py:56-76 | the keys are exactly the grid, in grid order. Each key maps to exactly the names of the layers present there under the chosen policy |
| `Overlaps.LayersWith` | gplugins/common/utils/parse_layerstack.py:71-72 | a name is in the result exactly when it is a key whose classified set holds z |
| `Overlaps.InvertOnGrid` | gplugins/common/utils/parse_layerstack.py:69-74 | the loop inserts one key per grid value, in grid order. Each key holds the names whose classified set contains it |
| `Overlaps.ClassifiedLayersArePresent` | gplugins/common/utils/parse_layerstack.py:71-73 | on the grid, inverting the classification gives exactly the present set: a name is listed at `z` iff `z` is in that layer's classified set |
| `Overlaps.ClosedEntriesNonEmpty` | gplugins/common/utils/parse_layerstack.py:67-74 | under the closed policy no grid value has an empty layer set |
| `PointQuery.SeqMin` | gplugins/common/utils/parse_layerstack.py:89 | `np.min` of a non-empty grid is one of its values and no greater than any of them |
| `PointQuery.SeqMax` | gplugins/common/utils/parse_layerstack.py:91 | `np.max` of a non-empty grid is one of its values and no smaller than any of them |
| `PointQuery.GetLayersAtZ` | gplugins/common/utils/parse_layerstack.py:79-96 | an empty stack fails, a height below the grid minimum is `Below` and one above the maximum is `Above`. Every other height is found, never `NotFound`. It returns the closed-policy present set at the least grid value at or above the height |
| `PointQuery.ScanKeys` | gplugins/common/utils/parse_layerstack.py:93-96 | the scan returns the entry of the least key at or above `z`. It falls through to `NotFound` exactly when every key is below `z` |
| `PointQuery.GridBoundsAreEnds` | gplugins/common/utils/parse_layerstack.py:88-92 | on the strictly increasing grid, the range bounds are its first and last values |
| `PointQuery.RangeCoversLayers` | gplugins/common/utils/parse_layerstack.py:88-92 | the accepted range reaches from the lowest layer boundary to the highest |
| `PointQuery.SnapExists` | gplugins/common/utils/parse_layerstack.py:93-96 | every height not above the grid maximum has a grid value to snap to, so the `AssertionError` fall-through is unreachable |
| `PointQuery.SnapIsUnique` | gplugins/common/utils/parse_layerstack.py:93-95 | the grid value a height snaps to is unique |
| `PointQuery.SnapAtGridValue` | gplugins/common/utils/parse_layerstack.py:93-95 | a height that is itself a grid value snaps to itself, so the query returns that value's entry |
| `PointQuery.SnapBetween` | gplugins/common/utils/parse_layerstack.py:93-95 | a height above one grid value and at most the next one snaps up to the upper value |
| `PointQuery.SnapReportsLayerAbove` | gplugins/common/utils/parse_layerstack.py:87-95 | between two grid values, the query reports a layer that starts at the upper value, though that layer does not reach the queried height |
| `PointQuery.SnapUpExample` | gplugins/common/utils/parse_layerstack.py:87-95 | A on [0, 1] and B on [1, 3] give the grid [0, 1, 3]. Height 0.5 snaps to 1, where both A and B are present |
| `MeshOrder.NameLess` | gplugins/common/utils/parse_layerstack.py:110 | Python's string `<` compares by code point. It holds exactly when the first string is a proper prefix of the second, or has the smaller character where they first differ |
| `MeshOrder.KeyLess` | gplugins/common/utils/parse_layerstack.py:110 | the tuple `<` on `(mesh_order, name)`. A smaller `mesh_order` comes first whatever the names, and names decide only between equal `mesh_order`s |
| `MeshOrder.NameLessTransitive` | gplugins/common/utils/parse_layerstack.py:110 | Python's string `<` is transitive |
| `MeshOrder.NameLessTotal` | gplugins/common/utils/parse_layerstack.py:110 | of two different strings, one is less than the other |
| `MeshOrder.KeyLessTransitive` | gplugins/common/utils/parse_layerstack.py:110 | the `(mesh_order, name)` tuple comparison is transitive |
| `MeshOrder.KeyLessTotal` | gplugins/common/utils/parse_layerstack.py:110 | two layers with different names are ordered one way or the other by `(mesh_order, name)` |
| `MeshOrder.Insert` | gplugins/common/utils/parse_layerstack.py:110 | inserting a layer with a new name into a strictly sorted sequence keeps it strictly sorted and adds exactly that layer |
| `MeshOrder.SortLayers` | gplugins/common/utils/parse_layerstack.py:110 | `sorted` on layers with distinct names gives a strictly `(mesh_order, name)`-ordered permutation |
| `MeshOrder.LayerNamed` | gplugins/common/utils/parse_layerstack.py:108-109 | looking a name up in the stack yields a layer of the stack carrying that name |
| `MeshOrder.OrderLayerstack` | gplugins/common/utils/parse_layerstack.py:99-110 | the result lists every layer name of the stack and nothing else, one per layer. The layers they name are in strictly increasing `(mesh_order, name)` order, so `mesh_order` never decreases and ties go by name |
| `MeshOrder.OrderedNamesDistinct` | gplugins/common/utils/parse_layerstack.py:110 | no name appears twice in the ordered list |
| `MeshOrder.StrictlySortedUnique` | gplugins/common/utils/parse_layerstack.py:110 | two strictly sorted sequences of the same layers are equal, so the sort has one answer |
| `MeshOrder.OrderIgnoresStackOrder` | gplugins/common/utils/parse_layerstack.py:108-110 | reordering the stack does not change the result: ties are broken by name, not by stack position |
| `MeshOrder.TieBrokenByName` | gplugins/common/utils/parse_layerstack.py:110 | layers "b" then "a" with equal `mesh_order` come out as "a", "b" |

## Left out

- The `__main__` demonstration (`parse_layerstack.py:113-130`). It builds components, opens a viewer, looks up a process layer stack and prints: all I/O and calls into other libraries.
- The `LayerStack` class and its `layers` / `to_dict()` accessors are not part of this model. A stack is a plain sequence of layer records, and both accessors are taken to list the same layers in the same order.
- Floating point. Heights are exact reals: no rounding in `zmin + thickness`, no NaN, and `np.min`/`np.max` are the minimum and maximum of the sequence.
- The exception classes and messages. The outcomes `Below`, `Above`, `EmptyStack` and `NotFound` stand for the two `ValueError`s, the failure of `np.min` on an empty grid, and the `AssertionError`. The wording of the messages (including "above the minimum") is not modelled.
- `mesh_order` is modelled as an integer. A floating-point priority, or a comparison between mixed numeric types, is not modelled.
- The distinct-name precondition on every operation reflects that a stack is keyed by layer name. What a sequence with repeated names would do (later entries overwriting earlier ones) is not modelled.
- Default arguments: `include_zmax` is an explicit parameter. The point query always passes `true`, as the source's default does.
- The order of the classifier's keys. `MapUniqueZ` returns an unordered `map`, while the source's `unique_z_dict` (`parse_layerstack.py:39-51`) keeps layer names in stack order. Nothing downstream depends on that order, because the overlap index builds a set from it (`parse_layerstack.py:71-72`).
