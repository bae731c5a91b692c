# Region consolidation and interactive edits of a segmentation label grid

`seg_gpt5.py` segments a photo into regions, a grid of integer labels, and then lets a user edit that grid
before exporting layers. This project models the two integer-valued parts of it and proves their
properties.

- **Tiny-region consolidation** (`_adjacency_pairs`, `merge_tiny_regions_fast`).
  - The grid is relabelled sequentially: 0 stays 0 and the other labels present become 1..k, in order.
  - The adjacency pairs between 4-neighbouring pixels are collected, and a neighbour list is built per id.
  - Every id whose area is below `min_pixels` is attached, in ascending id order, to the root of its
    closest-coloured neighbour. The first neighbour wins a tie. The roots live in an array-backed union-find
    whose `find` uses path halving.
  - Every id is then sent to its root, and the grid is relabelled sequentially again.
- **The edit engine** of the interactive layer builder. It is a state machine over:
  - the label array;
  - the set of selected labels and the `sel_mask` overlay;
  - cut mode and the first cut point;
  - the last pointer position.

  A left-button release toggles the selection of the region under the pointer. In cut mode it instead sets
  the first point, or cuts the region along a line. The keys do the following:
  - `c` clears the selection;
  - `b` enters cut mode;
  - `x` splits the region under the pointer by a two-cluster colour clustering.

  Re-thresholding replaces the grid. Every change of the grid clears the selection.

Layout:

- `label_grid.dfy` (`LabelGrid`): the row-major flat grid and numpy's whole-array operations.
  - `max()`
  - pixel counts
  - masked assignment
  - position within `flatnonzero`
- `adjacency.dfy` (`Adjacency`): `_adjacency_pairs` and its characterisation.
- `relabel.dfy` (`Relabel`): sequential relabelling.
- `union_find.dfy` (`UnionFind`): the parent array, `find` with path halving, and linking of roots.
  - Acyclicity is witnessed by a ghost rank.
- `consolidate.dfy` (`Consolidate`): the merge pass.
  - It has a specification: `MergedRoots` folds the attach step over the small ids, and `Consolidated` is the
    result.
  - It has the methods that run the pass on arrays, proved equal to that specification.
  - It has the lemmas about the result.
- `edit_spec.dfy` (`EditSpec`): the edit session as a value, each user action as a function, and the lemmas
  about the actions.
- `editor.dfy` (`Editor`): the class `Engine`.
  - Its arrays and fields are updated in place by one method per handler.
  - Each method is proved to perform the `EditSpec` action on the session its fields hold.
  - Each method keeps `sel_mask` equal to the mask of the selected labels.

Colour, the line drawing, the component labelling and the clustering are inputs of the model, with the
following stated properties.

- **Colour distance** between two ids is an arbitrary `dist: (nat, nat) -> real`. Only its ordering is used:
  - comparison is by strict `<`;
  - the scan starts from `1e12`.
- **Adjacency pair order.** The iteration order of the adjacency pair set decides the order of every
  neighbour list. It is an input `order` that lists each pair of the set exactly once.
- **The cut line** is a boolean mask `line`.
- **The component labelling** is `comps`, with these properties:
  - it is 0 exactly off the anchor's region minus the line;
  - its ids 1..max leave no gap.
- **The clustering** is `Some(clusters)`, one cluster per pixel of the region in row-major order. It is `None`
  when clustering raises.

## Model

| member | source | states |
|---|---|---|
| `LabelGrid.MaxOf` | seg_gpt5.py:287 | `labels.max()` is a value of the grid and no pixel exceeds it |
| `LabelGrid.MaxPlusOneIsFresh` | seg_gpt5.py:455 | the id `max() + 1` minted by cut and split labels no pixel |
| `LabelGrid.Rank` | seg_gpt5.py:457-460 | the position of a region pixel among the region's pixels (`flatnonzero`) is below the region's size, so it indexes the cluster array |
| `LabelGrid.RankIncreasing` | seg_gpt5.py:457 | region pixels are numbered in row-major order, strictly increasing |
| `LabelGrid.AreaAtMostLength` | seg_gpt5.py:443 | a region has at most as many pixels as the grid |
| `LabelGrid.Paint` | seg_gpt5.py:289 | masked assignment (also line 460): unpicked pixels keep their label, and with a fresh id the pixels carrying it afterwards are exactly the picked ones |
| `Adjacency.HorizontalPairs` | seg_gpt5.py:87-92 | every pair found by the column shift is (lo, hi) with lo < hi, both labels of the grid |
| `Adjacency.VerticalPairs` | seg_gpt5.py:93-98 | every pair found by the row shift is (lo, hi) with lo < hi, both labels of the grid |
| `Adjacency.AdjacencyPairs` | seg_gpt5.py:84-99 | every returned pair is (lo, hi) with lo < hi, both labels of the grid |
| `Adjacency.HorizontalPairsSpec` | seg_gpt5.py:87-92 | a pair is found by the column shift from pixel i on iff some later pixel and its right neighbour carry those two different labels |
| `Adjacency.VerticalPairsSpec` | seg_gpt5.py:93-98 | a pair is found by the row shift from pixel i on iff some later pixel and the pixel below carry those two different labels |
| `Adjacency.PairHasWitness` | seg_gpt5.py:84-99 | every returned pair has a pixel of one label whose right or lower neighbour has the other |
| `Adjacency.WitnessGivesPair` | seg_gpt5.py:84-99 | two different labels meeting across a horizontal or vertical edge yield their ordered pair |
| `Adjacency.AdjacencyPairsSpec` | seg_gpt5.py:84-99 | (lo, hi) is returned iff lo < hi and the two labels touch horizontally or vertically, in either direction |
| `Adjacency.UniformGridHasNoPairs` | seg_gpt5.py:84-99 | a grid of one label (a 1x1 grid in particular) yields no pair |
| `Relabel.SequentialIdIncreasing` | seg_gpt5.py:104 | the renumbering is strictly increasing on the labels present |
| `Relabel.SequentialIdRange` | seg_gpt5.py:104 | a positive label present gets an id in 1..k, k the number of positive labels present |
| `Relabel.RelabelPreservesOrder` | seg_gpt5.py:104 | two pixels compare (`<`, `==`) as their new ids do; 0 stays exactly where it was; ids are at most k |
| `Relabel.RelabelBound` | seg_gpt5.py:104 | no new id exceeds the number of positive labels present |
| `Relabel.RelabelIsDense` | seg_gpt5.py:104 | every id in 1..k labels some pixel: the renumbering is onto 1..k |
| `Relabel.RelabelIdempotent` | seg_gpt5.py:156 | relabelling a sequentially labelled grid changes nothing |
| `Relabel.RelabelKeepsArea` | seg_gpt5.py:104-109 | a region keeps its pixel count under relabelling |
| `Relabel.SameCount` | seg_gpt5.py:109 | positions marked alike in two grids give equal counts (`bincount`) |
| `Relabel.RelabelSequential` | seg_gpt5.py:104 | one new id per pixel, and a pixel gets 0 exactly when its input label is 0 (also line 156) |
| `UnionFind.Root` | seg_gpt5.py:127-131 | following parent links from any id ends at an id that is its own parent |
| `UnionFind.RootRank` | seg_gpt5.py:127-131 | an id is its own root iff its parent is itself |
| `UnionFind.Halve` | seg_gpt5.py:129 | path halving (`parent[x] = parent[parent[x]]`) keeps an acyclic forest and every id's root |
| `UnionFind.HalveKeepsRoot` | seg_gpt5.py:129 | path halving at one node leaves the root of a given id unchanged |
| `UnionFind.Link` | seg_gpt5.py:143 | hanging a root below another root keeps an acyclic forest; the ids of the hung tree get the new root, all others keep theirs |
| `UnionFind.LinkRoot` | seg_gpt5.py:143 | linking moves the root of a given id iff that root was the hung one |
| `UnionFind.Find` | seg_gpt5.py:127-131 | `find` terminates and returns the root of x, an id that is its own parent; the forest and every id's root are unchanged |
| `Consolidate.FirstClosest` | seg_gpt5.py:137-142 | the chosen neighbour has a distance below 1e12, not above any other, and strictly below every earlier one; none is chosen iff every distance is at least 1e12 |
| `Consolidate.ClosestNeighbour` | seg_gpt5.py:137-142 | the `best` / `best_d` loop picks the first neighbour of strictly minimal distance, or none |
| `Consolidate.IncidentSpec` | seg_gpt5.py:116-119 | x is in the neighbour list of v iff (v, x) or (x, v) is an adjacency pair |
| `Consolidate.Incident` | seg_gpt5.py:116-119 | every entry of v's neighbour list is the other end of an adjacency pair containing v |
| `Consolidate.UntouchedIdHasNoNeighbours` | seg_gpt5.py:116-119 | an id that no adjacency pair mentions gets an empty neighbour list |
| `Consolidate.NeighbourIsOtherId` | seg_gpt5.py:115-119 | a listed neighbour of an id is a different id, and both are below n |
| `Consolidate.EmptyEnumeration` | seg_gpt5.py:115-119 | the pair iteration is empty exactly when the adjacency pair set is |
| `Consolidate.NeighboursAreIds` | seg_gpt5.py:116-119 | neighbour lists hold only ids below n |
| `Consolidate.Neighbours` | seg_gpt5.py:116-119 | the table has one list per id 0..n-1, holding ids below n |
| `Consolidate.BuildNeighbours` | seg_gpt5.py:116-119 | appending both ends of each pair in order builds exactly `Neighbours` |
| `Consolidate.NeighboursSymmetric` | seg_gpt5.py:116-119 | b lists a iff a lists b |
| `Consolidate.Areas` | seg_gpt5.py:109 | there is one pixel count per id 0..n-1 |
| `Consolidate.SmallIds` | seg_gpt5.py:121 | the small ids are exactly the ids whose area is below `min_pixels`, in ascending order |
| `Consolidate.IdCount` | seg_gpt5.py:105 | n exceeds every id of the relabelled grid, and is 0 for an empty grid |
| `Consolidate.PairsAreIds` | seg_gpt5.py:115 | every adjacency pair of the relabelled grid joins two ids below n |
| `Consolidate.ApplyMap` | seg_gpt5.py:155 | `map_ids[out]` has one entry per pixel |
| `Consolidate.MergedRoots` | seg_gpt5.py:133-144 | after the small ids are processed, every id has a root below n |
| `Consolidate.Attach` | seg_gpt5.py:144 | `parent[s] = find(best)` on a root s: s ends with the same root as best |
| `Consolidate.AttachKeepsRegions` | seg_gpt5.py:144 | attaching only coarsens: ids that shared a root still share one |
| `Consolidate.UnprocessedKeepsOwnRoot` | seg_gpt5.py:133-144 | a small id is still a root when its turn comes, since only processed ids are re-parented |
| `Consolidate.AttachedJoinsBest` | seg_gpt5.py:133-144 | a small id whose scan picks a neighbour ends with the same root as that neighbour, whatever is attached after it |
| `Consolidate.RootsAreRoots` | seg_gpt5.py:133-153 | every id's root is its own root, so roots name the merged regions |
| `Consolidate.IsolatedLabelStaysAlone` | seg_gpt5.py:134-136 | a small id with no neighbours is never merged: it is the root of itself and of nothing else |
| `Consolidate.AbsentIdHasNoNeighbours` | seg_gpt5.py:104-136 | an id no pixel carries (0 when the input has no 0) has an empty neighbour list and is skipped |
| `Consolidate.SilentSmallIdsKeepIdentity` | seg_gpt5.py:133-136 | when every small id has an empty neighbour list, every id stays its own root |
| `Consolidate.ConsolidationRoots` | seg_gpt5.py:102-153 | the final roots are ids below n |
| `Consolidate.Consolidated` | seg_gpt5.py:102-157 | the pass returns one label per pixel |
| `Consolidate.ConsolidatedIsSequential` | seg_gpt5.py:156 | the output is already sequential: relabelling it again changes nothing |
| `Consolidate.IdentityMapsNothing` | seg_gpt5.py:155 | `map_ids[out]` with `map_ids` the identity is `out` |
| `Consolidate.ConsolidatedPartition` | seg_gpt5.py:146-157 | two pixels share an output label iff their sequential ids have the same union-find root |
| `Consolidate.IsolatedRegionSurvives` | seg_gpt5.py:133-157 | a region no other region touches keeps exactly its own pixels in the output |
| `Consolidate.AttachedRegionJoinsBest` | seg_gpt5.py:121-157 | a small region and the neighbour its scan picks share their output label |
| `Consolidate.SilentSmallIdsKeepRoots` | seg_gpt5.py:133-136 | when no small id has a neighbour, every final root is the id itself |
| `Consolidate.SilentSmallIdsOnlyRelabel` | seg_gpt5.py:102-157 | when no small id has a neighbour, the output is the sequential relabel of the input |
| `Consolidate.LargeRegionsOnlyRelabel` | seg_gpt5.py:104-157 | when every input region has at least `min_pixels` pixels, the output is the sequential relabel of the input |
| `Consolidate.NoPairsOnlyRelabel` | seg_gpt5.py:104-157 | a grid without adjacency pairs comes back as its sequential relabel, even when id 0 is small and the union loop runs |
| `Consolidate.AttachRoot` | seg_gpt5.py:143 | `parent[s] = find(best)` for a root s moves every id rooted at s to best's root and no other |
| `Consolidate.UnionStep` | seg_gpt5.py:133-144 | one round of the union loop keeps an acyclic forest and extends `MergedRoots` by that small id |
| `Consolidate.UnionSmallLabels` | seg_gpt5.py:125-144 | the union loop leaves an acyclic parent forest whose roots are `MergedRoots` |
| `Consolidate.CompressPaths` | seg_gpt5.py:146-153 | `map_ids[i]` is the root of i for every id |
| `Consolidate.MergeTinyRegions` | seg_gpt5.py:102-157 | the pass returns `Consolidated`: the relabel when n <= 1 or nothing is small, else the relabel of `map_ids[out]` |
| `EditSpec.Pixel` | seg_gpt5.py:268 | a point inside the grid indexes a cell of the h*w grid |
| `EditSpec.Clamp` | seg_gpt5.py:249 | a pointer coordinate is pulled into 0..n-1, unchanged when already inside |
| `EditSpec.SelectionMask` | seg_gpt5.py:304-308 | the overlay is 255 exactly on pixels whose label is selected, 0 elsewhere, and so covers whole regions |
| `EditSpec.Hover` | seg_gpt5.py:248-258 | any pointer event keeps the session well formed |
| `EditSpec.Toggle` | seg_gpt5.py:301-309 | toggling keeps the session well formed |
| `EditSpec.ChosenComponent` | seg_gpt5.py:283-286 | the relabelled component is that of the second point, or 1 when that pixel is in none |
| `EditSpec.CutApplies` | seg_gpt5.py:270-281 | a cut applies iff the second point lies in the anchor's region and some pixel has component id 2 or more |
| `EditSpec.CutLabels` | seg_gpt5.py:283-289 | without a cut the grid is unchanged; otherwise a pixel either keeps its label or gets `max()+1`, and only pixels of the chosen component change |
| `EditSpec.FinishCut` | seg_gpt5.py:266-299 | finishing a cut always leaves cut mode with no first point |
| `EditSpec.Click` | seg_gpt5.py:259-309 | a click keeps the session well formed and leaves the pointer at the clamped position |
| `EditSpec.Clear` | seg_gpt5.py:421 | key `c` empties the selection and keeps the grid |
| `EditSpec.BeginCut` | seg_gpt5.py:466-469 | key `b` turns cut mode on with no first point |
| `EditSpec.Split` | seg_gpt5.py:434-465 | a split keeps the session well formed |
| `EditSpec.Replace` | seg_gpt5.py:404-406 | re-thresholding installs the new grid and empties the selection |
| `EditSpec.ClusterMask` | seg_gpt5.py:457-460 | only pixels of the target region are picked, and none when no cluster is 1 |
| `EditSpec.SplitApplies` | seg_gpt5.py:436-446 | a split needs colour data, a successful clustering, and a grid of at least 50 pixels |
| `EditSpec.ToggleMask` | seg_gpt5.py:302-308 | toggling label L rewrites the overlay exactly on L's pixels: 255 when L becomes selected, 0 when deselected |
| `EditSpec.ToggleOnlySelects` | seg_gpt5.py:300-309 | outside cut mode a click flips membership of the clicked label only, never touches the grid, and clicking again restores the selection |
| `EditSpec.FinishCutOutcome` | seg_gpt5.py:266-299 | `max()+1` is fresh. Without a cut, grid and selection stay. With one, the selection is cleared, and a pixel changes iff it is in the chosen component; it then lies in the anchor's region, off the line, and gets `max()+1` |
| `EditSpec.CutSplitsRegion` | seg_gpt5.py:280-289 | a cut that applies gives some pixel the new label and leaves some pixel of the region with the old one |
| `EditSpec.EndpointOnLineChoosesFirstComponent` | seg_gpt5.py:276-286 | when the line covers the second point, component 1 is the one relabelled |
| `EditSpec.SplitOutcome` | seg_gpt5.py:436-465 | without colour data, under 50 pixels or when clustering fails, nothing changes. Otherwise the selection is cleared, and a pixel changes iff it has the target label and cluster 1; it then gets the fresh `max()+1` |
| `EditSpec.LabelChangeClearsSelection` | seg_gpt5.py:292 | a click or split that changes the grid leaves the selection empty |
| `Editor.Engine.constructor` | seg_gpt5.py:176-183 | the session starts as a copy of the grid, nothing selected, cut mode off, overlay all 0 |
| `Editor.Engine.Hover` | seg_gpt5.py:248-258 | a pointer event performs `EditSpec.Hover` and keeps the overlay exact |
| `Editor.Engine.Click` | seg_gpt5.py:259-309 | a left-button release performs `EditSpec.Click` in place and keeps the overlay exact |
| `Editor.Engine.ToggleAt` | seg_gpt5.py:301-309 | the masked writes to `sel_mask` perform `EditSpec.Toggle` and keep the overlay exact |
| `Editor.Engine.FinishCut` | seg_gpt5.py:267-299 | the in-place cut performs `EditSpec.FinishCut` and keeps the overlay exact |
| `Editor.Engine.MintLabel` | seg_gpt5.py:289-292 | the masked write of the new id followed by the selection reset: the grid becomes the painted grid, the selection is empty, the overlay stays exact |
| `Editor.Engine.ClearSelection` | seg_gpt5.py:421 | clearing empties the selection and zeroes the overlay |
| `Editor.Engine.BeginCut` | seg_gpt5.py:466-469 | key `b` performs `EditSpec.BeginCut` |
| `Editor.Engine.Split` | seg_gpt5.py:434-465 | the flat in-place split performs `EditSpec.Split` and keeps the overlay exact |
| `Editor.Engine.Replace` | seg_gpt5.py:396-409 | re-thresholding installs a new grid, performs `EditSpec.Replace`, and zeroes the overlay |

## Left out

- Image loading, colour conversion and filtering, SLIC, the region adjacency graph, `cut_threshold`,
  `expand_labels` and `find_boundaries` are floating-point or library work.
  - Re-thresholding is modelled only as a new grid arriving, with the selection cleared.
- Mean colours and `np.linalg.norm` are floating point. The distance is an abstract `dist`.
  - NaN and rounding effects on the comparisons are not modelled.
- `min_pixels` is taken as an integer. Its computation from a float fraction is not modelled.
- The clustering, the line rasterisation and the connected-component labelling are inputs.
  - Of the labelling, only "0 exactly off the region" and "ids without gaps" are assumed.
  - Four-connectivity itself is not modelled.
- Polygon extraction, SVG assembly, PNG/TXT output, the `s`, `e`, `o` and `v` keys, Esc, the trackbars, the
  preview window and rendering are file output and UI.
- The mouse scale factor and rounding are not modelled; coordinates arrive already divided by the scale.
  - Double-click filtering and the 250 ms debounce depend on event kind and the clock.
  - An event that is not an accepted left-button release is modelled as `Hover`. It only moves the pointer,
    which is what such events do.
- The grid-bounds tests after clamping (lines 260 and 440) always pass, because coordinates are clamped. The
  model carries the bound as an invariant instead of a branch.
- The iteration order of the adjacency pair set is an input, not derived.
- The compression loop (lines 146-153) repeats the path-halving walk of `find`. It is modelled by calling
  `UnionFind.Find`.
- Grids of width 0 are not representable; a grid has at least one column.
- Integer widths (`int32` ids, `uint8` masks) are not modelled. Ids stay far below their limits.
- Consolidate.AttachedRegionJoinsBest: states that a small region and its chosen neighbour end up together, but
  not the converse. The converse would say that two regions share an output label only when a chain of
  chosen-neighbour links joins them. `ConsolidatedPartition` ties the output to the `MergedRoots` fold instead.
- `Relabel.RelabelSequential` covers the default offset 1 only. The forward and inverse maps that
  `relabel_sequential` also returns are unused here.

## Notes

- `cv2.line` always draws both end points. So the pixel under the second cut point is never in a component,
  and the fallback component 1 is always the one relabelled (`EditSpec.EndpointOnLineChoosesFirstComponent`).
  The comment at lines 282-285 suggests the component of the second point was meant. Which component 1 is
  depends on the labelling's scan order.
