# ResearchPowl layout core, modelled in Dafny

This project models the combinatorial core of the research-tree layout of
ResearchPowl, a RimWorld mod. Most of it is `Tree`, the static class that turns
the research project definitions into a layered drawing. Around it sit the
prerequisite walks on `ResearchProjectDef` and the ordering and ranking helpers
on `ResearchNode`.

- **Research records** (`ResearchDefs`): the definition database is a sequence
  of records. Each record has a prerequisite list, a tech level, an optional mod
  name, a finished flag, a label, a description and its vanilla view row. The
  prerequisite walks are `Ancestors` and `Descendants`.
- **Graph** (`Graph`): nodes are ids into a sequence. Each node is a research
  node (the index of its record) or a dummy node. It carries an integer layer
  `x` and a real row position `yf`. The model takes its row `Y` to be `yf`
  truncated toward zero, as a C# `(int)` cast would give, and writing `Y` to
  set `yf` to that row. Edges are an ordered sequence of `(src, dst)` id
  pairs. `Layer`, `Row` and `NodeAt` are the queries the layout uses.
- **Building the graph**:
  - `Builder`: `PopulateNodes` leaves out hidden and locked records. It also
    covers the record-to-node lookup and `CreateEdges`.
  - `PrereqCheck`: `CheckPrerequisites`. Its first pass removes redundant
    prerequisites. Its second pass raises tech levels.
- **Layers**:
  - `Layering`: `HorizontalPositionsByDensity` (longest prerequisite path, cut
    off at depth 101) and `Layering`.
  - `TechLayers`: `HorizontalPositionsByTechLevels` and its per-level bounds.
- **Dummy chains** (`Normalize`): `NormalizeEdges` replaces every edge that
  skips layers by a chain of dummy nodes. The dummies' rows are interpolated
  along the chain.
- **Singletons** (`Singletons`): `ProcessSingletons` and `PlaceSingletons` pack
  nodes that have no outgoing edge into a grid, one block per tech level.
- **Crossings**:
  - `Inversions`: the count of one boundary, as an inversion count of sorted
    row pairs.
  - `Crossings`: gathering a boundary's edges, and the per-layer and total
    counts.
  - `Greedy`: `Swap`, `GreedySweep_Layer` and `GreedySweep`.
  - `Barycentre`: `GetBarycentre`, `BarymetricSweep_Layer` and
    `BarymetricSweep`.
  - `Minimize`: the `MinimizeCrossings` driver. It seeds the rows by descendant
    count, then runs the two burnout-capped phases.
- **Compaction** (`Compaction`): `RemoveEmptyRows`, and `FitLayersInBounds`
  and `PositionAllLayers` over abstract blocks of layers.
- **Node helpers**:
  - `ResearchNodes`: `CompareTieBreaker`, the three priorities, `Matches`,
    `GetMissingRequiredRecursive`, and `Parents` and `Children` as written.
  - `ParentChains` and `ChainFacts`: the chain-following `Parents` and
    `Children` the code evidently intended, and how they relate to the code as
    written.

The mutable static state of `Tree` is replaced by values. Each operation takes
the node list, edge list and record database it reads, and returns the ones it
writes. A C# exception becomes a `Failure` of the `Result` type in `Wrappers`:
an index past the end, `Max` of an empty sequence, a division by zero or the
`Swap` guard. `Seqs` and `Sorting` hold the sequence helpers and the stable
insertion sort that stands for LINQ `OrderBy`.

Two walks end on every input, cyclic or not:

- The tech-level repair pass of `CheckPrerequisites`. Each re-queue follows a
  strict raise of a tech level, and tech levels are bounded by the highest
  level in the database. `PrereqCheck.FixTechLevels` proves this through a
  decreasing gap measure, with no acyclicity assumption.
- `Ancestors`. A record already listed is never pushed again.

`Descendants` is different. Its "already visited" test binds inside
`?? (false && …)`, so it never filters anything. The walk therefore ends only
when no cycle lies among the records that depend on the start record.
`ResearchDefs.Descendants` requires a rank on those dependants alone
(`DependantsRanked`): a cycle elsewhere in the database, such as a hidden
record that lists itself, does not stop the walk.

## Model

| member | source | states |
|---|---|---|
| ResearchDefs.Ancestors | Source/Extensions/ResearchProjectDef_Extensions.cs:51-76 | the ancestor list is duplicate-free, empty when the record has no prerequisites, and holds exactly the records reachable from the record by one or more prerequisite steps; the walk ends on every input, cyclic or not |
| ResearchDefs.DescendantsExact | Source/Extensions/ResearchProjectDef_Extensions.cs:16-42 | whenever the records depending on the given record hold no cycle (an unrelated self-listing record is allowed), the descendants are exactly the records from which the given record is reachable by prerequisite steps: every record listing it, and closed under "is a prerequisite of" |
| ResearchDefs.HiddenBesideDescendants | Source/Extensions/ResearchProjectDef_Extensions.cs:16-42 | in a database where record 1 lists record 0 and record 2 lists itself, the walk from record 0 is ranked and returns exactly record 1, although no rank of the whole prerequisite relation covers record 2 |
| Builder.PopulateNodes | Source/Graph/Tree.cs:812-832 | the node list holds, in database order and once each, a fresh node for exactly the records that neither list themselves (hidden) nor have a hidden ancestor (locked); no edges exist yet |
| Builder.LockedByAncestors | Source/Graph/Tree.cs:823 | a record is locked exactly when its ancestor list contains a hidden record |
| Builder.VisiblePrereqVisible | Source/Graph/Tree.cs:819-829 | every prerequisite of a visible record is itself visible and is not the record itself, so every prerequisite lookup from a node succeeds |
| Builder.NodeFor | Source/Extensions/ResearchProjectDef_Extensions.cs:131-137 | the lookup returns the first node whose record is the given one, and nothing exactly when no node has that record |
| Builder.NodeForVisible | Source/Extensions/ResearchProjectDef_Extensions.cs:131-137 | after population the lookup finds a node exactly for the visible records, and that node's record is the one asked for |
| Builder.CreateEdges | Source/Graph/Tree.cs:738-763 | existing edges are kept as a prefix, the nodes are unchanged, and every new edge runs from the node of a prerequisite to the node of a record that lists it |
| Builder.CreateEdgesComplete | Source/Graph/Tree.cs:745-759 | every prerequisite whose record has a node yields its edge |
| Builder.EdgesMirrorPrerequisites | Source/Graph/Tree.cs:738-763 | on a populated graph, an edge `p -> k` exists exactly when `p`'s record is a prerequisite of `k`'s record |
| PrereqCheck.AncestorsOfAll | Source/Graph/Tree.cs:779 | the union of the ancestor lists of all prerequisites holds exactly the records one of them reaches |
| PrereqCheck.CleanRecord | Source/Graph/Tree.cs:775-787 | one record's turn only shrinks that record's list; on acyclic input it keeps reachability and leaves a duplicate-free list with no prerequisite that another prerequisite reaches |
| PrereqCheck.RemoveKeepsReach | Source/Graph/Tree.cs:785-786 | removing a prerequisite that another prerequisite of the same record reaches keeps the reachability relation exactly, in both directions |
| PrereqCheck.RemoveRedundant | Source/Graph/Tree.cs:771-788 | the first pass touches only records with a node, only shrinks prerequisite lists, and on acyclic input keeps reachability and leaves every duplicate-free list irredundant |
| PrereqCheck.FixTechLevels | Source/Graph/Tree.cs:790-807 | the second pass only raises tech levels, never beyond the highest level in the database, and ends on every input; when the re-queued records include every dependant, no record with a node keeps a prerequisite of higher tech level |
| PrereqCheck.CheckPrerequisites | Source/Graph/Tree.cs:765-810 | both passes together: lists only shrink and levels only rise; on acyclic input reachability is kept and lists end irredundant; levels end settled when dependants are re-queued |
| Layering.SetDepth | Source/Graph/Tree.cs:652 | a node's layer becomes at least the given minimum and strictly beyond every in-neighbour's layer, one beyond the deepest in-neighbour unless the minimum is larger; nothing else changes |
| Layering.DensityDepth | Source/Graph/Tree.cs:675-693 | the walk over distinct in-neighbour levels, without the node itself, returns the node's depth `Depth`, between 1 and 101 |
| Layering.DepthIsLongestPath | Source/Graph/Tree.cs:675-693 | on acyclic input the depth is the node count of a longest in-edge path ending at the node, or 101 when such a path has 101 nodes or more |
| Layering.DepthOneIffRoot | Source/Graph/Tree.cs:679 | a node gets depth 1 exactly when it has no in-neighbour |
| Layering.DepthEdge | Source/Graph/Tree.cs:672-697 | on acyclic input the depth strictly grows along every edge, unless the cut-off applies |
| Layering.HorizontalPositionsByDensity | Source/Graph/Tree.cs:672-697 | only layers change; every node ends at or beyond its depth, roots in layer 1; on acyclic input within the cut-off, starting from layer 0, each node ends exactly at its depth and every edge runs to a higher layer |
| Layering.AddToLayer | Source/Graph/Tree.cs:98-103 | adding a node to layer `x` pads the list with empty layers up to `x` and appends the node to layer `x` only |
| Layering.LayeringOf | Source/Graph/Tree.cs:94-106 | a node at layer below 1 makes the indexing fail; otherwise list `i` holds the nodes of layer `i + 1` in node order, and the deepest node fixes the number of lists |
| TechLayers.RelevantTechLevels | Source/Graph/Tree.cs:632 | the tech levels in play are exactly those some record has, in ascending order |
| TechLayers.SetLevel | Source/Graph/Tree.cs:651-652 | setting the depth of every node of one tech level moves only those nodes, puts each at or beyond the minimum, reports a change exactly when the graph changed, and without a change every in-edge of those nodes rises |
| TechLayers.TechPass | Source/Graph/Tree.cs:641-657 | one round over the ascending tech levels puts every research node at layer 1 or beyond, each tech level strictly after the earlier ones; it reports a change exactly when something moved |
| TechLayers.TechLevelSweeps | Source/Graph/Tree.cs:638-660 | the rounds stop after at most fifty; afterwards tech levels occupy disjoint, ascending layer ranges; when the rounds stop by themselves, every in-edge of a research node rises |
| TechLayers.TechLevelBounds | Source/Graph/Tree.cs:663-669 | the bound map has an entry exactly for the tech levels that still have a node (corrected: levels left without nodes are skipped) |
| TechLayers.BoundsBracket | Source/Graph/Tree.cs:668 | every node of a tech level lies strictly above the level's lower bound and at most at its upper bound |
| TechLayers.BoundsOrdered | Source/Graph/Tree.cs:663-669 | after the sweeps the bounds of a lower tech level end at or before the start of a higher one's |
| TechLayers.TechLevelBoundsAsWritten | Source/Graph/Tree.cs:665-669 | the loop as written fails exactly when some tech level in play has no node, since `Min` of an empty sequence throws |
| TechLayers.HiddenLevelBreaksBounds | Source/Graph/Tree.cs:665-669 | a database whose only record is hidden populates no nodes, but its tech level is in play, so the loop as written fails |
| TechLayers.HorizontalPositionsByTechLevels | Source/Graph/Tree.cs:629-670 | (corrected) layers at least 1 for research nodes, at most fifty rounds, and bounds that exist exactly for levels with nodes, bracket those nodes and ascend with the tech level |
| Normalize.NormalizeEdge | Source/Graph/Tree.cs:707-733 | one long edge is replaced by a chain of `span` edges through `span - 1` appended dummy nodes, each spanning one layer; every other edge is kept |
| Normalize.DummiesInterpolate | Source/Graph/Tree.cs:712-719 | the dummy row positions interpolate linearly: step 0 is the start node's, step `span` lands on the end node's layer and row position |
| Normalize.ChainSpans | Source/Graph/Tree.cs:715-733 | every edge of a chain spans exactly one layer |
| Normalize.LongEdgesCount | Source/Graph/Tree.cs:703 | the loop walks a snapshot holding every copy of every long edge and nothing else |
| Normalize.NormalizeEdges | Source/Graph/Tree.cs:699-737 | afterwards no edge spans more than one layer; the original nodes keep their ids and every new node is a dummy; the long edges are replaced by their chains, and the edge count grows by one per dummy |
| Singletons.PlaceSingletons | Source/Graph/Tree.cs:131-139 | zero columns with a singleton fails on the division; otherwise the `t`-th singleton goes to column `t mod colNum + 1` and row `upper + t div colNum`, nothing else moves, and the new bound is the row after the last one used |
| Singletons.GridSpotsApart | Source/Graph/Tree.cs:133-137 | two singletons of one block never share a grid cell, and each lies in the rows the block reserves |
| Singletons.GroupByMultiset | Source/Graph/Tree.cs:124 | the tech-level groups together hold exactly the singletons, each as often as before |
| Singletons.GroupByKeysDistinct | Source/Graph/Tree.cs:124 | different groups carry different tech levels |
| Singletons.PlaceGroups | Source/Graph/Tree.cs:124-126 | the groups are packed one below the other into disjoint blocks of grid cells; the bound never decreases |
| Singletons.ProcessSingletons | Source/Graph/Tree.cs:114-129 | with tech levels separated nothing happens; no layers fails on `layers[0]`, and one layer with singletons on the division by zero columns; otherwise the singletons are exactly the research nodes of the first layer without out-edges, ascend in tech level, leave the first layer, and are packed into distinct cells below the old bound |
| Inversions.CountInversions | Source/Graph/Tree.cs:1221-1233 | the double loop counts the inversions of the sorted edge list |
| Inversions.CrossingsAreCrossPairs | Source/Graph/Tree.cs:1212-1234 | the inversion count equals the number of edge pairs that geometrically cross: one starts strictly higher and ends strictly lower than the other |
| Inversions.CrossingsOfPermutation | Source/Graph/Tree.cs:1215-1219 | the order in which the edges are gathered does not matter |
| Inversions.CrossingsZeroIff | Source/Graph/Tree.cs:1224-1233 | a boundary has no crossing exactly when, after sorting, the end rows never go down |
| Inversions.CrossingsBound | Source/Graph/Tree.cs:1224-1233 | a boundary with `n` edges has at most `n(n-1)/2` crossings |
| Crossings.GatherCount | Source/Graph/Tree.cs:1215-1216 | gathering the in- or out-edges of a duplicate-free node list yields every edge ending there, as often as it occurs, and no other |
| Crossings.BoundaryCrossingsMeaning | Source/Graph/Tree.cs:1212-1234 | the boundary count is the number of crossing edge pairs, at most `n(n-1)/2`, and zero with fewer than two edges |
| Crossings.OutIsNextIn | Source/Graph/Tree.cs:1193-1200 | on a graph whose edges span one layer, the edges out of layer `l` are those into layer `l + 1`, with the same count |
| Crossings.LayerSumCountsTwice | Source/Graph/Tree.cs:1193-1200 | on a graph whose edges span one layer, summing every layer's count over layers `0 .. size` counts each inner boundary twice: the sum is twice the total crossings of all in-boundaries |
| Crossings.TotalZeroIff | Source/Graph/Tree.cs:1179-1184 | (corrected) the tree is free of crossings exactly when every boundary from layer 1 to the last layer is |
| Crossings.LastBoundaryMissed | Source/Graph/Tree.cs:1179-1184 | a two-layer graph with one crossing: the total as written counts none of it |
| Greedy.Swap | Source/Graph/Tree.cs:1102-1111 | nodes on different layers fail; otherwise their rows are exchanged and nothing else changes |
| Greedy.SwapBack | Source/Graph/Tree.cs:1090-1097 | swapping back restores the rows of both nodes |
| Greedy.SwapPermutesRows | Source/Graph/Tree.cs:1090 | a swap permutes the rows of a layer |
| Greedy.GreedySweepLayer | Source/Graph/Tree.cs:1071-1100 | only rows of the layer move, as a permutation; the layer's count never grows; a layer without crossings is left alone |
| Greedy.LayerChangeIsTotalChange | Source/Graph/Tree.cs:1080-1099 | moving rows inside one layer changes the total by exactly as much as that layer's count changes |
| Greedy.GreedySweep | Source/Graph/Tree.cs:1046-1069 | on any graph whose edges join existing nodes a round only moves rows; on a graph whose edges all rise one layer and lie within `size` layers it never raises the full crossing total; it reports progress exactly when `Crossings()`, the total without the last layer's in-boundary, dropped |
| Barycentre.GetBarycentre | Source/Graph/Tree.cs:1171-1177 | without neighbours the node's own row position; otherwise the mean of the neighbours' row positions |
| Barycentre.BarycentreBetween | Source/Graph/Tree.cs:1171-1177 | the barycentre lies between the lowest and the highest neighbour |
| Barycentre.GroupMeansKeepsOrder | Source/Graph/Tree.cs:1145-1156 | grouping keeps every node once, in ascending-mean order, in non-empty groups |
| Barycentre.GroupKeysAscend | Source/Graph/Tree.cs:1145-1156 | with a non-negative epsilon and ascending means the group keys strictly ascend, so the dictionary never overwrites a group and enumerates the groups in the order they opened |
| Barycentre.SweepRows | Source/Graph/Tree.cs:1159-1168 | the rows handed out strictly increase and are at least 1; the first mean sitting within epsilon of the float minimum fails, because no group was opened |
| Barycentre.BarymetricSweepLayer | Source/Graph/Tree.cs:1138-1169 | fails exactly on a layer whose smallest mean is within epsilon of the float minimum |
| Barycentre.SweepLayerRowsDistinct | Source/Graph/Tree.cs:1159-1168 | after a layer's sweep its nodes occupy distinct rows, all at least 1 |
| Barycentre.SweepLayerFollowsMeans | Source/Graph/Tree.cs:1140-1167 | a node with a strictly smaller barycentre ends on a smaller row |
| Barycentre.BarymetricSweep | Source/Graph/Tree.cs:1113-1136 | a round only moves rows, leaves every swept layer with distinct rows, and reports progress exactly when it succeeded and lowered `Crossings()`, the total without the last layer's in-boundary |
| Minimize.StackLayerByDescendants | Source/Graph/Tree.cs:1018-1020 | in a seeded layer a node with fewer descendants sits on a smaller row |
| Minimize.StackLayerStacks | Source/Graph/Tree.cs:1016-1021 | seeding a layer moves only that layer and gives its `n` nodes the rows `1 .. n`, one each |
| Minimize.SeedRows | Source/Graph/Tree.cs:1016-1021 | after seeding, every layer `1 .. Size.x` is stacked by descendant count and only rows moved |
| Minimize.MinimizeCrossings | Source/Graph/Tree.cs:1010-1044 | each phase runs at most fifty and, if nothing fails, at least two rounds; a barycentric phase that stops before fifty has run at least three, since it stops only at a round with progress after two without; only rows move; on a graph whose edges all rise one layer and lie within `size` layers, the greedy phase never raises the full total it starts from |
| Compaction.MoveBack | Source/Graph/Tree.cs:228 | moving a block down and back up restores it |
| Compaction.FitLayersInBounds | Source/Graph/Tree.cs:223-232 | a block with more layers than bounds fails; otherwise it moves down so every layer starts at or below its bound, and the bounds only grow, the bound of each layer of the block ending at least one past that layer's new bottom |
| Compaction.FitIsTight | Source/Graph/Tree.cs:224-228 | unless the floor shift applies, some layer ends exactly at its bound, so the block moves no further than needed |
| Compaction.PositionAllLayers | Source/Graph/Tree.cs:234-243 | zero layer bounds (`Max` of an empty array) or a block with more layers than bounds fails; otherwise every block is its input moved by its shift, lies below the old bound and below every earlier block, and sits as high as that allows (unless the floor shift applied, one of its layers starts exactly at the old bound or one past an earlier block's bottom); the new bound lies below all blocks and is the old bound or one past some block's bottom, so it is the lowest such bound |
| Compaction.ShiftKeepsOrder | Source/Graph/Tree.cs:300-305 | closing an empty row keeps the vertical order of all nodes |
| Compaction.RemoveEmptyRows | Source/Graph/Tree.cs:293-312 | without nodes `Max` fails; otherwise only row positions change, the vertical order is kept, and no row from 1 to the lowest node stays empty |
| Graph.Layer | Source/Graph/Tree.cs:1251-1260 | the nodes at a given layer, exactly, in node order |
| Graph.Row | Source/Graph/Tree.cs:1262-1265 | the nodes on a given row, exactly, in node order |
| Graph.NodeAt | Source/Graph/Tree.cs:1005-1008 | the first node at the given layer and row, and nothing exactly when no node is there |
| ResearchNodes.CompareTieBreaker | Source/Graph/ResearchNode.cs:204-213 | against a dummy it always returns -1, putting the research node first; otherwise the lower tech level comes first, then the mod name compared character by character, a missing mod counting as the empty name; 0 exactly on equal level and name |
| ResearchNodes.TieBreakerAntisymmetric | Source/Graph/ResearchNode.cs:204-213 | between two research nodes the comparison is antisymmetric |
| ResearchNodes.PrioritiesSumToEdges | Source/Graph/ResearchNode.cs:191-202 | over all nodes the upper priorities and the lower priorities each add up to the number of edges, each edge counted once at either end |
| ResearchNodes.DefaultPriority | Source/Graph/ResearchNode.cs:191-194 | the default priority is the in-degree plus the out-degree |
| ResearchNodes.Matches | Source/Graph/ResearchNode.cs:125-138 | rank 1 when the lower-cased label contains the lower-cased query, else 2 when an unlock label does, else 3 when the description does, else 0 |
| ResearchNodes.EmptyQueryMatchesLabel | Source/Graph/ResearchNode.cs:125-131 | the empty query matches every label |
| ResearchNodes.MissingRequired | Source/Graph/ResearchNode.cs:392-402 | whenever the unfinished prerequisites below the record are acyclic, the recursion ends and the missing list is duplicate-free, empty without prerequisites, and holds unfinished records only |
| ResearchNodes.MissingRequiredExact | Source/Graph/ResearchNode.cs:392-402 | whenever the unfinished prerequisites below the record are acyclic, the missing list holds exactly the records reachable by a chain of unfinished prerequisites |
| ResearchNodes.FinishedCycleMissesNothing | Source/Graph/ResearchNode.cs:394-400 | a cycle among finished prerequisites does not stop the recursion: an unfinished record whose only prerequisite is finished but on such a cycle misses nothing |
| ResearchNodes.Parents | Source/Graph/ResearchNode.cs:33-41 | as written: exactly the research nodes with an edge into the node |
| ResearchNodes.Children | Source/Graph/ResearchNode.cs:71-79 | as written: exactly the research nodes the node has an edge to |
| ChainFacts.ParentBehindDummyDropped | Source/Graph/ResearchNode.cs:37-39 | a research parent reached only through a dummy is missing from `Parents` as written but present in the intended parents |
| ChainFacts.ChildBehindDummyDropped | Source/Graph/ResearchNode.cs:75-77 | a research child reached only through a dummy is missing from `Children` as written but present in the intended children |
| ChainFacts.ChainExampleDrops | Source/Graph/ResearchNode.cs:37-39 | the graph `0 -> dummy 1 -> 2` is such a case in both directions |
| ChainFacts.ParentsIntendedExact | Source/Graph/ResearchNode.cs:33-41 | (corrected) the parents following dummy chains are exactly the research nodes that reach the node through a chain of at most `|nodes|` dummies |
| ChainFacts.ChildrenIntendedExact | Source/Graph/ResearchNode.cs:71-79 | (corrected) the children following dummy chains are exactly the research nodes the node reaches through a chain of at most `|nodes|` dummies |

## Left out

- Drawing, input handling, tooltips, colours, the main tab window, settings persistence, mod lifecycle and `Log`/`Profiler` calls are outside the layout core.
- `BuildingPresent`, `MissingFacilities`, `TechprintAvailable` and the unlock queries read game state that is not visible. A record's finished flag is a plain field.
- `Initialize`, `MainAlgorithm`, `LegacyPreprocessing`, `OrgainzeLayers` and the `HorizontalPositions` dispatch hand work to `NodeLayers` or sequence other steps. Each step is modelled on its own; the pipeline and the `shouldSeparateByTechLevels` switch between the two layerings are not.
- `NodeLayers`, `Node`, `Edge` and `DummyNode` are not part of this model. Blocks of layers are abstract top and bottom positions that `MoveVertically` shifts. `Node.SetDepth(min)` is not visible. It is taken to set `X` to the larger of `min` and one past the deepest in-neighbour (1 without in-neighbours), and to return whether `X` changed (`Layering.Moved`). `Node.Y` is not visible either. It is taken to read as `(int)Yf` and to set `Yf = value` on write (`Graph.Y`, `Graph.WithY`). This choice decides the row a dummy node with a fractional `Yf` counts in, how `Row(y)` relates to the `Yf > y` shift of `RemoveEmptyRows`, and the order in which the crossing count sorts edges. `DummyNode.Parent` and `DummyNode.Child` are not visible either. They are taken to follow every dummy chain to the research nodes at its far end (`ParentChains.ChainParents`).
- `Tree.Size.x` is never set in the visible code, so it is the parameter `size`. `Epsilon` is the parameter `eps`, taken non-negative: with a negative value equal means would reopen a dictionary key and drop the nodes grouped under it. `mainGraphUpperbound` is a parameter and a result.
- The edge-length sweeps (`MinimizeEdgeLength`, `EdgeLengthSweep_*`, `EdgeLength`), `SquashOrphans`, `Collapse`, the dummy merging helpers and the commented-out `CollapseAdjacentDummyNodes` are not modelled. They are float heuristics or dead code.
- `Layer(l, true)` can re-sort the node list when `OrderDirty` is set, but nothing visible ever sets `OrderDirty`. `Greedy.GreedySweepLayer` therefore takes its visiting order as any duplicate-free list of the layer's nodes.
- Row positions and barycentres are Dafny reals, not IEEE single floats, so rounding is not modelled. Only the `(int)` truncation of a row is written out.
- `Node.Descendants` (used by `MinimizeCrossings` and the second pass of `CheckPrerequisites`) lives in `Node`, which is not visible. It is a parameter: a descendant count in `Minimize`, a re-queue list in `PrereqCheck`.
- Dictionaries are modelled as ordered lists of entries (the barycentre groups) or as maps (the tech-level bounds).
- PrereqCheck.RemoveRedundant: prerequisites end irredundant only for duplicate-free lists, because `List.Remove` drops only the first copy of an entry.
- PrereqCheck.FixTechLevels: ends settled only when the re-queue parameter names every dependant, since `Node.Descendants` is not visible.
- Minimize.StackLayerByDescendants: states only the order between different descendant counts; the stable order among equal counts comes from the node order and is not stated.
- Minimize.MinimizeCrossings: does not state that the barycentric phase lowers the total. That phase may raise it, and its loop condition `(!progress || burnout > 0)` is kept as written.
- ResearchNodes.CompareTieBreaker: compares mod names by ordinal character order, where C# `string.CompareTo` is culture-sensitive.
- ResearchNodes.Matches: lower-cases ASCII letters only, where the source lower-cases by the current UI culture.
- ParentChains.ParentsIntended: the chain walk carries fuel `|nodes| + 1`. Longer dummy chains cannot exist in a graph of that size without a cycle, so only dummy cycles lie beyond the bound.

## Findings

| source | as written | input that shows it | evidently intended | confidence | as-written member | corrected member |
|---|---|---|---|---|---|---|
| Source/Graph/Tree.cs:665-669 | the bounds loop takes `Min` and `Max` over the nodes of every relevant tech level, but relevance comes from all records, including hidden and locked ones that never got a node | one record that lists itself, at tech level 3: it is hidden, no node exists, and `Min` of an empty sequence throws | skip tech levels that have no node | not executed | TechLayers.TechLevelBoundsAsWritten, TechLayers.HiddenLevelBreaksBounds | TechLayers.TechLevelBounds, TechLayers.BoundsBracket, TechLayers.BoundsOrdered, TechLayers.HorizontalPositionsByTechLevels |
| Source/Graph/Tree.cs:1179-1184 | the total sums `Crossings(layer, true)` for `layer < Size.x`; the in-boundary of layer 1 is always empty, and the in-boundary of the last layer is never counted; the `progress` flags of both sweeps compare this total, so a round that removes only last-boundary crossings reports no progress | two layers, nodes 0 and 1 at rows 1 and 2 in layer 1, edges `0 -> 3` and `1 -> 2` to rows 2 and 1 of layer 2: one crossing, counted as zero | sum the in-boundaries of layers `1 .. Size.x` | not executed | Crossings.LastBoundaryMissed | Crossings.TotalZeroIff |
| Source/Graph/ResearchNode.cs:37-39 | `parents.Concat(...)` is built and discarded, so research parents behind dummy nodes are dropped; `Children` has the same shape at lines 75-77 | `0 -> dummy 1 -> 2`: node 2 has no parent and node 0 no child | return the concatenation | not executed | ChainFacts.ParentBehindDummyDropped, ChainFacts.ChildBehindDummyDropped, ChainFacts.ChainExampleDrops | ChainFacts.ParentsIntendedExact, ChainFacts.ChildrenIntendedExact |
