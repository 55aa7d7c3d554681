# Cell-set hierarchy, intersections and statistical-plot data shaping

A Dafny model of the data side of a vitessce plugin. The plugin lets a user draw new
cell sets (the *user-defined* hierarchy, `additionalSets`) next to the dataset's own
hierarchy (the *canonical* one). It feeds the selected sets to two statistical views: a
cell-cell interaction matrix and a differential-expression (volcano) plot. The model
covers these parts:

- **Sets manager** (`sets_manager.dfy`, `intersections.dfy`, `set_tree.dfy`).
  - Colouring the canonical tree from the colour table (`processNode`, `processSets`).
  - Listing node keys (`getAllKeys`).
  - Grafting the derived "Intersection with X" nodes onto the most recent user-defined
    set (`processAdditionalSets`, `processAdditionalNode`, `findGroupSet`,
    `findIntersections`).
  - Appending every user-defined leaf path to the colour table (`findPaths`), which is a
    class whose method changes the table in place.
  - Splitting the selected and expanded keys between the two hierarchies.
- **Path resolution** (`path_resolver.dfy`). Both subscribers share `getCellsFromPath`.
  It takes the membership entries whose joined group names contain the lowered path,
  then the user-defined nodes whose full path equals it. The ids are concatenated, not
  deduplicated.
- **Interaction-matrix subscriber** (`interaction_subscriber.dfy`).
  - The selected ids, the `[id, label]` matrix and its two columns.
  - The `#rrggbb` colours, with a decoding round trip.
  - The centroid lookup.
  - The request and render conditions.
- **Volcano-plot subscriber** (`deg_subscriber.dfy`).
  - The two compared sets and their names.
  - The expression rows cut out of the row-major matrix.
  - The plotted records and the request condition.
- **Interaction-matrix view** (`interaction_matrix.dfy`). The placeholder, loading and
  heatmap cases, and the transposition of the server's matrix into heatmap rows.
- **Shared sequence vocabulary** (`common.dfy`). `Option`, `join`, `includes`,
  `indexOf`, `filter`, and the unique values of `new Set(...)` in insertion order.

Loops and in-place updates in the source are methods with loop invariants, proved against
recursive specification functions. These are `findGroupSet`, `findIntersections`, the
colour-table push and the grafting of `processAdditionalSets`. The expression-only code is
functions, with lemmas for the properties.

### Proved properties

- `findIntersections` keeps only the results of the last top-level group that has
  children (`results = intersectionResults` overwrites earlier groups).
- Every derived node is sound: its ids are in both sets, and it carries the child
  group's name and colour.
- Derived nodes are complete: every shared id is recorded.
- `processNode` keeps the tree's shape. It colours each node from the first table entry
  for its full path. Only the root receives the theme.
- `findPaths` reports exactly the leaves.
- The key split is a permutation, and each part keeps the order of the keys.
- Every user-defined id comes from a node whose full path equals the lowered path.
- The `[id, label]` matrix holds, at the position of the j-th id of the k-th selected
  path, that id labelled with that path.
- `rgbToHex` round-trips for byte-range colours.
- An empty selection path matches every cell that has groups.
- The view's guards imply that the heatmap is drawn without reading a missing row, and
  that the subscriber's view is never a failure.

### Behaviour of the code as written

The model follows the code as written, including:

- Derived nodes are not deduplicated by id. A shared id is pushed once per matching
  member pair.
- Intersections are not computed against every top-level group; the last group with
  children wins.
- Descendants are coloured with the theme-less default.
- Colour-table paths are compared exactly, not normalised.
- No generation counter discards stale analysis responses.
- The centroid lookup throws when the centroid index is absent and there is a cell.
- `processAdditionalSets` grafts into the user-defined tree in place, and `findPaths` then
  walks that same tree. So the colour table also receives entries for the grafted
  "Intersection with X" leaves, and a target child that gained intersections is no longer
  reported as a leaf. The push repeats on every render. In the model, `ProcessAdditionalSets`
  leaves the grafted roots in `UserSets.tree`, and `AppendLeafPaths` takes a tree, so
  applying it to that tree afterwards appends the leaves of the grafted tree.

## Model

| member | source | states |
|---|---|---|
| SetTree.FindColorEntry | vitessce/packages/view-types/obs-sets-manager/src/SetsManager.js:19 | the entry found is one of the table's entries for the path, and none is found exactly when no entry has that path |
| SetTree.ResolvedColorIsFirstEntry | vitessce/packages/view-types/obs-sets-manager/src/SetsManager.js:19 | the colour resolved for a path is the colour of the earliest table entry for that path, or the fallback when that entry has no colour |
| SetTree.AppendedColorResolves | vitessce/packages/view-types/obs-sets-manager/src/SetsManager.js:277-279 | appending entries to the colour table leaves the colour of every path that already had an entry unchanged, and a path without one resolves from the appended entries |
| SetsManager.ProcessSets | vitessce/packages/view-types/obs-sets-manager/src/SetsManager.js:23-28 | an absent sets object yields an empty tree; a present one yields one processed root per root |
| SetsManager.ProcessNodeKeepsShape | vitessce/packages/view-types/obs-sets-manager/src/SetsManager.js:11-21 | processing changes only colours: names, member lists and the children structure of the whole subtree are kept |
| SetsManager.ProcessNodeColors | vitessce/packages/view-types/obs-sets-manager/src/SetsManager.js:11-21 | every node of the processed subtree carries the colour of the first table entry for its full path, else the default colour; the root uses the given theme and all descendants the theme-less default, since the recursive call drops the theme |
| SetsManager.ProcessNode | vitessce/packages/view-types/obs-sets-manager/src/SetsManager.js:11-21 | name and set are kept, the node has children exactly when it had them, with as many; a path without a table entry gets the default colour for the theme |
| SetsManager.ProcessChildren | vitessce/packages/view-types/obs-sets-manager/src/SetsManager.js:16-17 | one processed child per child, names and sets kept in order |
| SetsManager.ProcessSetsColors | vitessce/packages/view-types/obs-sets-manager/src/SetsManager.js:23-28 | each processed root keeps its shape and is coloured from the table under the given theme |
| SetsManager.NodePaths | vitessce/packages/view-types/obs-sets-manager/src/SetsManager.js:34-36 | one full path per node of the subtree |
| SetsManager.NodePathsNameNodes | vitessce/packages/view-types/obs-sets-manager/src/SetsManager.js:34-36 | the i-th full path extends the parent path and ends with the name of the i-th node in pre-order |
| SetsManager.AllKeys | vitessce/packages/view-types/obs-sets-manager/src/SetsManager.js:34-38 | one key per node of the subtree, the first being the key of the node's own path |
| SetsManager.GetAllKeys | vitessce/packages/view-types/obs-sets-manager/src/SetsManager.js:30-39 | an absent node gives null; a present one gives one key per node of its subtree, its own key first |
| SetsManager.AllKeysArePathKeys | vitessce/packages/view-types/obs-sets-manager/src/SetsManager.js:30-39 | the i-th key is the key of the i-th node's full path in pre-order |
| SetsManager.AllKeysOfAllArePathKeys | vitessce/packages/view-types/obs-sets-manager/src/SetsManager.js:281-284 | the flatMap over a list of roots lists the key of every node's full path, root by root in pre-order |
| SetsManager.FindPathsAreLeaves | vitessce/packages/view-types/obs-sets-manager/src/SetsManager.js:252-266 | findPaths reports exactly the leaves of the tree (no children or an empty children array), in pre-order; each entry carries the leaf's colour and a path that starts with the given prefix and ends with the leaf's name |
| SetsManager.FindPathsOfAllAreLeaves | vitessce/packages/view-types/obs-sets-manager/src/SetsManager.js:269-274 | the concatenation over all roots reports exactly the leaves of every root, root by root |
| SetsManager.FindPaths | vitessce/packages/view-types/obs-sets-manager/src/SetsManager.js:252-266 | every tree reports at least one path |
| SetsManager.FindPathsOfAll | vitessce/packages/view-types/obs-sets-manager/src/SetsManager.js:258-260 | at least one path per child |
| SetsManager.ColorTable.AppendLeafPaths | vitessce/packages/view-types/obs-sets-manager/src/SetsManager.js:269-279 | the colour table afterwards is the old table followed by one entry per leaf of the user-defined tree, in order; nothing else changes |
| SetsManager.TargetIndex | vitessce/packages/view-types/obs-sets-manager/src/SetsManager.js:42-46 | the index is the first root's child count when the first root exists and has a children array, and 0 otherwise |
| SetsManager.TargetChild | vitessce/packages/view-types/obs-sets-manager/src/SetsManager.js:57-58 | the target child exists exactly when 0 < index <= the child count, and is the child at index - 1 |
| SetsManager.Grafted | vitessce/packages/view-types/obs-sets-manager/src/SetsManager.js:55-62 | name, set and colour are kept, the child count is kept, every other child is unchanged, and the target child's children become its old children followed by the intersections computed for it |
| SetsManager.CopyWithChildren | vitessce/packages/view-types/obs-sets-manager/src/SetsManager.js:64-67 | the copy has a children array (empty when the node had none) and the node's other fields |
| SetsManager.NoTargetWithoutFirstRootChildren | vitessce/packages/view-types/obs-sets-manager/src/SetsManager.js:41-68 | when the tree is empty or its first root is a leaf, the index is 0 and every root is only copied, with no intersections added anywhere |
| SetsManager.TargetGainsIntersections | vitessce/packages/view-types/obs-sets-manager/src/SetsManager.js:55-67 | in every root, the child at the first root's child count minus one (if it exists) gains the intersections computed for it against the existing tree |
| SetsManager.ProcessAdditionalNode | vitessce/packages/view-types/obs-sets-manager/src/SetsManager.js:55-62 | the node returned is the grafted node: the target child's children followed by its intersections, everything else unchanged |
| SetsManager.ProcessAdditionalSets | vitessce/packages/view-types/obs-sets-manager/src/SetsManager.js:41-68 | null gives an empty tree; otherwise every root of the user-defined tree is grafted in place and the returned tree is the grafted roots, each copied with a children array |
| SetsManager.ProcessedAdditional | vitessce/packages/view-types/obs-sets-manager/src/SetsManager.js:48-52 | one root per root of the user-defined tree |
| SetsManager.SelectionKeys | vitessce/packages/view-types/obs-sets-manager/src/SetsManager.js:286-287 | one key per selected or expanded path, in order; an absent list gives none |
| SetsManager.AdditionalSetKeys | vitessce/packages/view-types/obs-sets-manager/src/SetsManager.js:281-284 | one key per node of the processed user-defined tree |
| SetsManager.SplitKeys | vitessce/packages/view-types/obs-sets-manager/src/SetsManager.js:289-293 | the two parts together are a permutation of the keys; the canonical part holds exactly the keys not among the user-defined keys and the additional part exactly those among them; each part is a subsequence of the keys, so their order is kept |
| SetIntersections.GroupSetsArePreOrder | vitessce/packages/view-types/obs-sets-manager/src/SetsManager.js:70-84 | findGroupSet lists the set of every node of the group that has one, in pre-order |
| SetIntersections.GroupSetsOfAllArePreOrder | vitessce/packages/view-types/obs-sets-manager/src/SetsManager.js:77-81 | the concatenation over the children lists the sets of all their nodes in pre-order |
| SetIntersections.GroupSets | vitessce/packages/view-types/obs-sets-manager/src/SetsManager.js:70-84 | at most one set per node of the group, and the group's own set first when it has one |
| SetIntersections.GroupSetsOfAll | vitessce/packages/view-types/obs-sets-manager/src/SetsManager.js:77-81 | at most one set per node of the children |
| SetIntersections.FindGroupSet | vitessce/packages/view-types/obs-sets-manager/src/SetsManager.js:70-84 | the method's result is the pre-order list of sets |
| SetIntersections.FindDerived | vitessce/packages/view-types/obs-sets-manager/src/SetsManager.js:107-110 | the index found is the first derived node with the given name and colour, or the length when there is none |
| SetIntersections.AddHit | vitessce/packages/view-types/obs-sets-manager/src/SetsManager.js:112-121 | derived nodes stay leaves with a set, and no two of them share both name and colour |
| SetIntersections.IntersectGroup | vitessce/packages/view-types/obs-sets-manager/src/SetsManager.js:93-128 | the derived nodes built for one top-level group are leaves with sets, one per name and colour |
| SetIntersections.DirectIntersections | vitessce/packages/view-types/obs-sets-manager/src/SetsManager.js:90-133 | the derived nodes for the node's own set keep the same well-formedness |
| SetIntersections.MatchLeafMembers | vitessce/packages/view-types/obs-sets-manager/src/SetsManager.js:104-124 | matching one canonical id against the node set keeps the derived nodes leaves with sets, one per name and colour |
| SetIntersections.MatchGroupMembers | vitessce/packages/view-types/obs-sets-manager/src/SetsManager.js:100-125 | the same for every member of a child group's merged sets |
| SetIntersections.MatchChildGroups | vitessce/packages/view-types/obs-sets-manager/src/SetsManager.js:95-127 | the same for every child group of a top-level group |
| SetIntersections.Intersections | vitessce/packages/view-types/obs-sets-manager/src/SetsManager.js:87-143 | every node derived for a subtree is a leaf with a set |
| SetIntersections.IntersectionsOfAll | vitessce/packages/view-types/obs-sets-manager/src/SetsManager.js:136-140 | every node derived for a list of children is a leaf with a set |
| SetIntersections.IntersectionsOf | vitessce/packages/view-types/obs-sets-manager/src/SetsManager.js:87-143 | an absent node yields no derived nodes; every derived node is a leaf with a set |
| SetIntersections.FindIntersections | vitessce/packages/view-types/obs-sets-manager/src/SetsManager.js:87-143 | the method's result equals the recursive definition, and an absent node gives none |
| SetIntersections.FindIntersectionsAt | vitessce/packages/view-types/obs-sets-manager/src/SetsManager.js:88-142 | for a present node: its own derived nodes followed by those of its children, in order |
| SetIntersections.FindIntersectionsBelow | vitessce/packages/view-types/obs-sets-manager/src/SetsManager.js:136-140 | the children's results, appended child by child, equal the concatenation of each child's derived nodes in order |
| SetIntersections.IntersectTopGroups | vitessce/packages/view-types/obs-sets-manager/src/SetsManager.js:91-132 | the walk over the top-level groups equals the definition in which each group with children replaces the results |
| SetIntersections.IntersectChildGroups | vitessce/packages/view-types/obs-sets-manager/src/SetsManager.js:93-128 | the loop over the child groups of one top-level group builds exactly the derived nodes of the definition |
| SetIntersections.RecordHits | vitessce/packages/view-types/obs-sets-manager/src/SetsManager.js:104-124 | matching one canonical id against the node's set pushes [id, null] onto the first derived node with the same name and colour, or adds a new one, as the definition says |
| SetIntersections.LastGroupWithChildrenWins | vitessce/packages/view-types/obs-sets-manager/src/SetsManager.js:91-132 | the results are exactly those of the last top-level group that has children; earlier groups are overwritten |
| SetIntersections.NoGroupWithChildren | vitessce/packages/view-types/obs-sets-manager/src/SetsManager.js:90-133 | without a top-level group that has children the node's own results are empty |
| SetIntersections.IntersectGroupSound | vitessce/packages/view-types/obs-sets-manager/src/SetsManager.js:93-128 | every derived node is named 'Intersection with X' after a child group X, carries X's colour, and holds [id, null] entries whose ids are in both the node's set and X's sets |
| SetIntersections.IntersectGroupComplete | vitessce/packages/view-types/obs-sets-manager/src/SetsManager.js:93-128 | every id shared by the node's set and a child group X appears in the derived node for X |
| SetIntersections.IntersectionsSound | vitessce/packages/view-types/obs-sets-manager/src/SetsManager.js:87-143 | every node derived for a subtree comes from a node of that subtree that has a set, checked against a top-level group that has children |
| SetIntersections.LastWithChildren | vitessce/packages/view-types/obs-sets-manager/src/SetsManager.js:91-132 | a non-empty result implies there is a last top-level group with children |
| PathResolver.NormAll | vitessce/packages/view-types/statistical-plots/src/InteractionMatrixSubscriber.js:66 | each segment is trimmed and lower-cased, in order |
| PathResolver.FromOriginalSetsIff | vitessce/packages/view-types/statistical-plots/src/InteractionMatrixSubscriber.js:69-74 | an id is reported exactly when one of its membership entries has an array of groups whose joined, normalised names contain the lowered path |
| PathResolver.EmptyPathMatchesAll | vitessce/packages/view-types/statistical-plots/src/InteractionMatrixSubscriber.js:66-74 | the empty path selects every cell whose groups value is an array |
| PathResolver.CumulativePathIsJoin | vitessce/packages/view-types/statistical-plots/src/InteractionMatrixSubscriber.js:80-82 | when no normalised name is empty, the full path built level by level is the /-join of the names |
| PathResolver.UserIdsMatched | vitessce/packages/view-types/statistical-plots/src/InteractionMatrixSubscriber.js:84-86 | a node whose full path equals the lowered path contributes every id of its set |
| PathResolver.UserIdsDescend | vitessce/packages/view-types/statistical-plots/src/InteractionMatrixSubscriber.js:87-88 | a node whose full path differs passes on everything its children yield |
| PathResolver.UserIdsSound | vitessce/packages/view-types/statistical-plots/src/InteractionMatrixSubscriber.js:79-91 | every user-defined id is a member of the set of some node of the searched tree whose full path, built level by level as `traverse` does, equals the lowered path; this is the /-join of the normalised names when no name is empty (CumulativePathIsJoin) |
| PathResolver.UserIdsOfAllSound | vitessce/packages/view-types/statistical-plots/src/DegPlotSubscriber.js:78-91 | the same for a list of roots, in the volcano-plot copy of the traversal: each id comes from a set-carrying node whose full path equals the lowered path |
| PathResolver.CellsFromPathIff | vitessce/packages/view-types/statistical-plots/src/InteractionMatrixSubscriber.js:64-96 | an id is resolved for a path exactly when a membership entry for it matches or the user-defined tree yields it |
| PathResolver.CellsFromPathSound | vitessce/packages/view-types/statistical-plots/src/InteractionMatrixSubscriber.js:64-96 | every resolved id has a matching membership entry or a user-defined set-carrying node whose full path equals the lowered path |
| PathResolver.CellsFromPath | vitessce/packages/view-types/statistical-plots/src/InteractionMatrixSubscriber.js:64-96 | the canonical ids come first, as a prefix of the result; without a user-defined tree they are the whole result |
| PathResolver.LowerPath | vitessce/packages/view-types/statistical-plots/src/InteractionMatrixSubscriber.js:66 | the empty path lowers to the empty string and a one-segment path to that segment normalised |
| PathResolver.FromOriginalSets | vitessce/packages/view-types/statistical-plots/src/InteractionMatrixSubscriber.js:69-74 | at most one id per membership entry |
| PathResolver.FromOriginalSetsInEntryOrder | vitessce/packages/view-types/statistical-plots/src/InteractionMatrixSubscriber.js:69-74 | the canonical ids keep the membership map's insertion order: an increasing list of positions that holds exactly the matching entries maps the result onto the entries' ids |
| PathResolver.FullPaths | vitessce/packages/view-types/statistical-plots/src/InteractionMatrixSubscriber.js:81-88 | one full path per node of the subtree in pre-order, the node's own path first |
| InteractionSubscriber.SelectedCellSetsId | vitessce/packages/view-types/statistical-plots/src/InteractionMatrixSubscriber.js:61-100 | empty without a non-empty selection and a membership map; otherwise the resolved ids of each selected path, in selection order |
| InteractionSubscriber.Label | vitessce/packages/view-types/statistical-plots/src/InteractionMatrixSubscriber.js:106 | the label of a path of at most one segment is empty, and of a two-segment path its second segment |
| InteractionSubscriber.CellTypeMatrix | vitessce/packages/view-types/statistical-plots/src/InteractionMatrixSubscriber.js:103-108 | one row per resolved id, the ids in the flattened order |
| InteractionSubscriber.CellTypeMatrixLabels | vitessce/packages/view-types/statistical-plots/src/InteractionMatrixSubscriber.js:103-108 | every resolved id appears labelled with its own path (without the first segment, space-joined), and every row's label is that of a selected path containing its id |
| InteractionSubscriber.CellTypeMatrixAt | vitessce/packages/view-types/statistical-plots/src/InteractionMatrixSubscriber.js:103-108 | the row at the offset of the k-th path plus j is the j-th id resolved for the k-th path, labelled with that path |
| InteractionSubscriber.CellIndex | vitessce/packages/view-types/statistical-plots/src/InteractionMatrixSubscriber.js:111 | the first column, row by row |
| InteractionSubscriber.CellType | vitessce/packages/view-types/statistical-plots/src/InteractionMatrixSubscriber.js:112 | the second column, row by row |
| InteractionSubscriber.HexDigits | vitessce/packages/view-types/statistical-plots/src/InteractionMatrixSubscriber.js:116 | a non-empty string of hexadecimal digits, one character long exactly for values below 16 |
| InteractionSubscriber.HexDigitValue | vitessce/packages/view-types/statistical-plots/src/InteractionMatrixSubscriber.js:116 | each digit character reads back as its value |
| InteractionSubscriber.ToString16 | vitessce/packages/view-types/statistical-plots/src/InteractionMatrixSubscriber.js:116 | a non-empty string that starts with '-' exactly for negative values |
| InteractionSubscriber.ComponentToHex | vitessce/packages/view-types/statistical-plots/src/InteractionMatrixSubscriber.js:115-118 | at least two characters: a single digit is padded with 0 |
| InteractionSubscriber.RgbToHex | vitessce/packages/view-types/statistical-plots/src/InteractionMatrixSubscriber.js:119-121 | '#' followed by at least six characters |
| InteractionSubscriber.ComponentRoundTrip | vitessce/packages/view-types/statistical-plots/src/InteractionMatrixSubscriber.js:115-118 | a component in 0..255 becomes two hexadecimal digits that read back as the component |
| InteractionSubscriber.LargeComponentWidens | vitessce/packages/view-types/statistical-plots/src/InteractionMatrixSubscriber.js:115-118 | a component above 255 is not padded to two digits but gives at least three |
| InteractionSubscriber.RgbToHexRoundTrip | vitessce/packages/view-types/statistical-plots/src/InteractionMatrixSubscriber.js:119-121 | a byte-range colour becomes '#' and six hexadecimal digits that decode back to the colour |
| InteractionSubscriber.HexColors | vitessce/packages/view-types/statistical-plots/src/InteractionMatrixSubscriber.js:126-130 | null exactly without a selection, otherwise one string per selected path |
| InteractionSubscriber.ColorForSelection | vitessce/packages/view-types/statistical-plots/src/InteractionMatrixSubscriber.js:122-125 | black when the colour table has no entry for the path |
| InteractionSubscriber.HexColorsDecode | vitessce/packages/view-types/statistical-plots/src/InteractionMatrixSubscriber.js:122-130 | with byte-range table colours, each string is a #rrggbb that decodes to the colour of the first table entry for its path, or black |
| InteractionSubscriber.Spatial | vitessce/packages/view-types/statistical-plots/src/InteractionMatrixSubscriber.js:136-142 | one point per id; an id absent from the centroid index gets [null, null] |
| InteractionSubscriber.SpatialOutcome | vitessce/packages/view-types/statistical-plots/src/InteractionMatrixSubscriber.js:136-142 | with the centroid index possibly absent: the lookup throws exactly when the index is absent and there is at least one cell, and otherwise returns one point per id, the same points as with the index present |
| InteractionSubscriber.SpatialAtFirstIndex | vitessce/packages/view-types/statistical-plots/src/InteractionMatrixSubscriber.js:136-142 | an id found in the centroid index takes the coordinates at its first position there, undefined where the coordinate rows are short |
| InteractionSubscriber.FetchGuard | vitessce/packages/view-types/statistical-plots/src/InteractionMatrixSubscriber.js:174 | the request guard implies colours and at least two rows |
| InteractionSubscriber.RenderGuard | vitessce/packages/view-types/statistical-plots/src/InteractionMatrixSubscriber.js:199 | the render guard implies at least two rows |
| InteractionSubscriber.FetchGuardIff | vitessce/packages/view-types/statistical-plots/src/InteractionMatrixSubscriber.js:174 | the request is issued exactly when there are colours and at least two distinct labels |
| InteractionSubscriber.GuardsNeedTwoLabels | vitessce/packages/view-types/statistical-plots/src/InteractionMatrixSubscriber.js:174-199 | whenever the matrix is requested or shown there are at least two rows with different labels |
| DegSubscriber.SelectedCellSets | vitessce/packages/view-types/statistical-plots/src/DegPlotSubscriber.js:63-102 | both lists empty unless exactly two paths are selected and the membership map is present; otherwise each path resolved on its own |
| DegSubscriber.LastSegment | vitessce/packages/view-types/statistical-plots/src/DegPlotSubscriber.js:107-109 | the last segment of a path, undefined for an empty path |
| DegSubscriber.SelectedCellGroups | vitessce/packages/view-types/statistical-plots/src/DegPlotSubscriber.js:105-110 | the last segments of the two selected paths, else an empty list |
| DegSubscriber.FoundIndices | vitessce/packages/view-types/statistical-plots/src/DegPlotSubscriber.js:119-120 | at most one index per id, each within the observation index |
| DegSubscriber.FoundIndicesOfPresent | vitessce/packages/view-types/statistical-plots/src/DegPlotSubscriber.js:119-120 | absent ids are dropped, the others keep their order, and each maps to its first position in the observation index |
| DegSubscriber.Present | vitessce/packages/view-types/statistical-plots/src/DegPlotSubscriber.js:119-120 | at most one id per selected id |
| DegSubscriber.Slice | vitessce/packages/view-types/statistical-plots/src/DegPlotSubscriber.js:126 | Array.prototype.slice with non-negative bounds: the range itself when it fits, the rest of the data when the range runs past its end, and nothing when it starts at or past the end |
| DegSubscriber.ExpressionRows | vitessce/packages/view-types/statistical-plots/src/DegPlotSubscriber.js:122-128 | one row per index; a block that fits is the index's genesCount values of the row-major matrix, one cut short by the end of the data is the rest of the data, one that starts past the end is empty |
| DegSubscriber.Block | vitessce/packages/view-types/statistical-plots/src/DegPlotSubscriber.js:124-126 | the block of one cell: genesCount values starting at index * genesCount when they fit, the rest of the data when cut short, empty past the end |
| DegSubscriber.FilteredExpressionData | vitessce/packages/view-types/statistical-plots/src/DegPlotSubscriber.js:113-135 | null exactly without the matrix data or the observation index; otherwise the rows of both sets with featureIndex length (or 0) genes per row |
| DegSubscriber.DegData | vitessce/packages/view-types/statistical-plots/src/DegPlotSubscriber.js:170-176 | one record per response entry in order, fields copied, highlighted exactly when the gene is selected or highlighted |
| DegSubscriber.FetchNeedsTwoSelectedSets | vitessce/packages/view-types/statistical-plots/src/DegPlotSubscriber.js:183-187 | the analysis is requested (`FetchGuard`: the expression data is present and both row lists are non-empty) only when two paths are selected, the membership map, data and observation index are present, and each selected set has a cell in the observation index |
| InteractionMatrixView.HeatmapRows | vitessce/packages/view-types/statistical-plots/src/InteractionMatrix.js:22-28 | one row per unique type with one cell per unique type: the cell in column c of row r holds interactData[c][r], or undefined where that matrix row is short |
| InteractionMatrixView.Render | vitessce/packages/view-types/statistical-plots/src/InteractionMatrix.js:12-28 | the placeholder exactly when an input is missing or there is one colour; loading exactly when the matrix and colour counts differ; a failure exactly when there are more unique types than matrix rows; otherwise the heatmap, one row per unique type in first-occurrence order |
| InteractionMatrixView.FewerTypesThanSelections | vitessce/packages/view-types/statistical-plots/src/InteractionMatrixSubscriber.js:103-112 | there are never more distinct labels than selected paths |
| InteractionMatrixView.SubscriberRenderOutcome | vitessce/packages/view-types/statistical-plots/src/InteractionMatrix.js:12-28 | whenever the subscriber's render guard holds, the view is never the placeholder or a failure: it is the heatmap exactly when the server returned one matrix row per selected path, and loading otherwise |
| Common.Distinct | vitessce/packages/view-types/statistical-plots/src/InteractionMatrix.js:20 | the unique values in first-occurrence order, with no repetitions |
| Common.DistinctFirstOccurrenceOrder | vitessce/packages/view-types/statistical-plots/src/InteractionMatrix.js:20 | the unique values appear in the order of their first occurrences |
| Common.IncludesIffOccurs | vitessce/packages/view-types/statistical-plots/src/InteractionMatrixSubscriber.js:72 | a string includes another exactly when it occurs at some position |
| Common.IndexOf | vitessce/packages/view-types/statistical-plots/src/InteractionMatrixSubscriber.js:137 | the first position of the value, or -1 when it does not occur |
| Common.FilterSplit | vitessce/packages/view-types/obs-sets-manager/src/SetsManager.js:289-293 | filtering by a test and by its negation splits a list into two parts whose union is a permutation of it |
| Common.FiltersKeepOrder | vitessce/packages/view-types/obs-sets-manager/src/SetsManager.js:289-293 | the kept and the rejected elements are each a subsequence of the list: an increasing embedding maps them back onto it, so filter keeps their order |
| Common.Filter | vitessce/packages/view-types/obs-sets-manager/src/SetsManager.js:289-293 | never longer than the list; every kept element is from the list and passes the test |
| Common.Reject | vitessce/packages/view-types/obs-sets-manager/src/SetsManager.js:289-290 | never longer than the list; every kept element is from the list and fails the test |
| Common.Join | vitessce/packages/view-types/statistical-plots/src/InteractionMatrixSubscriber.js:66 | the empty list joins to the empty string, and a list whose first part is non-empty to a non-empty string |
| Common.Includes | vitessce/packages/view-types/statistical-plots/src/InteractionMatrixSubscriber.js:72 | a string includes only needles no longer than itself |
| Common.Lookup | vitessce/packages/view-types/statistical-plots/src/InteractionMatrixSubscriber.js:139 | a value exactly when the position is within the array, and then the element at it (a JavaScript out-of-range read gives undefined) |

## Left out

- React state, hooks, `useMemo` caching and effects are not modelled: the memoised values are functions of their inputs.
- The asynchronous requests to the analysis server (`processInteractData`, `processDegData`) and loading flags are not modelled, since they are I/O; the request conditions and the shaping of the response are.
- The JSX rendering (tooltips, legends, `TitleInfo`, `DegPlot.js`) is not modelled, since it is presentation only; the view's decision and its heatmap data are.
- `backend.py`, `index.js` and the example view configs are not part of this model.
- `pathToKey`, `getDefaultColor` and `trim().toLowerCase()` are parameters: their code lies outside the modelled files.
- Coordinates, expression values, matrix entries and fold changes are type parameters: floating-point arithmetic is not modelled, and none is performed on them.
- SetIntersections.FindDerived: JavaScript compares colours by array reference (`===`); the model compares them by value, so two child groups with equal-valued but distinct colour arrays share one derived node here.
- SetsManager.ProcessAdditionalSets: JavaScript mutates the target child object in place, which any other reference to it also sees; the model updates the roots stored in the `UserSets` object and does not capture aliasing.
- SetsManager.AllKeys: `getAllKeys` returns a bare key for a leaf; the model returns a one-element list, which is the same once `flatMap` flattens it (its only use).
- The `flat(2)` of a membership value is modelled for membership values that are lists of group paths (depth two), the shape the loaders produce.
- The membership `Map` is a sequence of entries in insertion order.
- InteractionSubscriber.Spatial: takes the centroid index as present; the throw of `indexOf` on an absent index is modelled by InteractionSubscriber.SpatialOutcome. An absent `obsCentroids` and an absent coordinate are both `None`, where JavaScript distinguishes `undefined` from `null`.
- SetsManager.ColorTable.AppendLeafPaths: assumes the colour table exists; JavaScript throws on `setColor.push` when it is absent.
- InteractionSubscriber.ColorForSelection: assumes `cellSetColor` is present; JavaScript throws on `find` otherwise.
- InteractionSubscriber.CellTypeMatrix: requires no more resolved id lists than selected paths, which `selectedCellSetsId` always guarantees (JavaScript would throw on a missing path).
- DegSubscriber.Slice: models only non-negative bounds, the only ones `extractExpressionData` passes (indices come from `indexOf` after the `-1` filter).
- InteractionMatrixView.SubscriberRenderOutcome: the analysis server (`backend.py`) is not part of this model. It clusters by the label column and so returns one matrix row per distinct label, not per selected path; the lemma therefore states the outcome for either count, and the heatmap appears only when every selected path has its own label.
