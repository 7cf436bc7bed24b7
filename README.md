# org-structure in Dafny

A verified model of the organisation-chart core of org-structure:

- **Tree builder** (`buildOrgTree`, lib/org-utils.ts). It turns a flat list of employee records, each naming its manager by `parentId`, into a rooted tree:
  - one node per record;
  - each record is appended to its manager's child list, in input order;
  - a record whose manager does not exist is dropped;
  - the last record without a manager becomes the root;
  - the builder throws when no record lacks a manager.
- **Level grouping** (`getEmployeesByLevel`, lib/org-utils.ts). A breadth-first walk with an explicit queue that groups the tree's nodes by depth.
- **Chart derivations** of the chart component (components/org-chart.tsx):
  - the case-insensitive name/title search;
  - the cards shown on each level;
  - the error view shown when no tree can be built;
  - the measured card positions and their colour;
  - the elbow connector drawn from a manager's card to each report's card, and its line colour;
  - the mobile breakpoint.

Modules, one per file:

| file | module | models |
|---|---|---|
| employee.dfy | `EmployeeTypes` | the employee record and the truthiness of `parentId` |
| org_tree.dfy | `OrgTree` | `buildOrgTree`: a method with the source's two loops, proved equal to the specification function `OrgTreeOf` |
| org_levels.dfy | `OrgLevels` | `getEmployeesByLevel`: a method with the source's queue loop, proved to produce the level decomposition of the tree |
| level_facts.dfy | `LevelFacts` | what the level decomposition means: depth, reachability, no repeats, uniqueness |
| search.dfy | `Search` | the search filter and the per-level card filter |
| connectors.dfy | `Connectors` | positions, line colours, connectors, and the redraw of the connector layer |
| org_chart.dfy | `OrgChart` | the root/levels fallback, the rendered screen, and the breakpoint |

Representation:

- Ids are integers, and `parentId` is an optional integer.
- A `parentId` is falsy when it is absent or 0; such a record names no manager (`EmployeeTypes.ParentOf`).
- The tree is a map from node id to a node. Each node holds its record and the ids of its children, plus the root's id.
- Levels hold node ids; a node's record is found in the tree's map.
- Positions and boxes are exact `real` numbers taken as inputs.

## Model

| member | source | states |
|---|---|---|
| OrgTree.BuildOrgTree | lib/org-utils.ts:7-37 | the two loops build exactly `OrgTreeOf(employees)`. When no record lacks a parent, that is the no-root error. Otherwise it is the tree whose root is the last parentless record and whose nodes are `NodeMap` |
| OrgTree.LastWithId | lib/org-utils.ts:12-17 | an id has a node exactly when some record carries it, and the node's record carries that id |
| OrgTree.LastWithIdIsLast | lib/org-utils.ts:12-17 | the record kept for an id is the last record with that id: a later record overwrites an earlier one in the map |
| OrgTree.NodeKeepsRecord | lib/org-utils.ts:12-17 | with unique ids, each record has a node that carries the record's fields unchanged |
| OrgTree.ChildrenOf | lib/org-utils.ts:20-29 | a child list is never longer than the record list |
| OrgTree.ChildrenOfMembers | lib/org-utils.ts:20-29 | the child list of `p` holds exactly the ids of the records whose truthy parent id is `p` |
| OrgTree.ChildrenOfConcat | lib/org-utils.ts:20-29 | children keep input order: the child list built from `s + u` is the one built from `s` followed by the one built from `u` |
| OrgTree.ChildrenOfDistinct | lib/org-utils.ts:20-29 | with unique ids, no child list names a record twice |
| OrgTree.OrphanExcluded | lib/org-utils.ts:24-28 | a record whose parent id names no record is in no node's child list |
| OrgTree.LastRootSpec | lib/org-utils.ts:20-22 | there is no root candidate exactly when every record has a parent. Otherwise the candidate is a parentless record after which every record has a parent |
| OrgTree.NoRootIffError | lib/org-utils.ts:32-34 | the builder fails exactly when every record has a truthy parent id |
| OrgTree.RootIsLastParentless | lib/org-utils.ts:20-22 | the root is a parentless record, and every record after it has a parent |
| OrgTree.SingleRootSelected | lib/org-utils.ts:20-22 | with exactly one parentless record, building succeeds and the root is that record |
| OrgTree.BuiltTreeWellFormed | lib/org-utils.ts:7-37 | built from records with unique ids, every child is a node and not the root, and no node sits in two child lists or twice in one |
| OrgTree.ChildIsNode | lib/org-utils.ts:24-27 | in a well-formed tree, a child and its parent are nodes and the child is not the root |
| OrgTree.OneParent | lib/org-utils.ts:24-27 | in a well-formed tree, a node is the child of one parent only |
| OrgLevels.GetEmployeesByLevel | lib/org-utils.ts:39-57 | on a well-formed tree the walk terminates. Level 0 is `[root]`, each next level is the children of the previous level parent by parent in child-list order, no level is empty, and the last level has no children |
| OrgLevels.EnqueueAll | lib/org-utils.ts:51-53 | each child is queued, in order, behind the existing queue, one level deeper |
| OrgLevels.NextLevelMembers | lib/org-utils.ts:51-53 | a node is in the next level exactly when it is the child of a node of the level |
| OrgLevels.NextLevelAppend | lib/org-utils.ts:51-53 | appending a node to a level appends its children to the next level |
| OrgLevels.CompleteLevels | lib/org-utils.ts:43-56 | once the last level is complete and has no children, the levels form the decomposition |
| LevelFacts.InLevelIffAtDepth | lib/org-utils.ts:43-54 | level `k` holds exactly the nodes `k` child steps below the root |
| LevelFacts.NothingBelowLastLevel | lib/org-utils.ts:43-56 | no node lies deeper than the last level |
| LevelFacts.ChildInNextLevel | lib/org-utils.ts:51-53 | a child of a node of a level is in the next level |
| LevelFacts.LevelsHoldReachable | lib/org-utils.ts:43-56 | the levels together hold exactly the nodes reachable from the root |
| LevelFacts.DepthUnique | lib/org-utils.ts:43-54 | in a well-formed tree a node lies at one depth only |
| LevelFacts.NextLevelDistinct | lib/org-utils.ts:51-53 | the next level of a repeat-free level is repeat-free |
| LevelFacts.LevelDistinct | lib/org-utils.ts:43-56 | no level repeats a node |
| LevelFacts.EachNodeOnce | lib/org-utils.ts:43-56 | two places in the levels holding the same id are the same place |
| LevelFacts.LevelNodesAreNodes | lib/org-utils.ts:43-56 | every id in a level is a node of the tree |
| LevelFacts.LevelsAgree | lib/org-utils.ts:43-56 | two decompositions of one tree agree level by level |
| LevelFacts.InnerLevelHasChildren | lib/org-utils.ts:43-56 | every level but the last has a non-empty next level, so the levels have no holes |
| LevelFacts.DecompositionUnique | lib/org-utils.ts:39-57 | a tree has one level decomposition, so the result is determined by the tree |
| LevelFacts.OrphanInNoLevel | lib/org-utils.ts:24-28 | a record whose parent id names no record appears in no level |
| Search.Filter | components/org-chart.tsx:47-53 | keeps exactly the entries the test accepts, in their original order (a subsequence). Each accepted entry is kept as many times as it occurs, each rejected one never |
| Search.FilterKeepsAll | components/org-chart.tsx:47-53 | a test that accepts every entry keeps the list unchanged |
| Search.FilterAgrees | components/org-chart.tsx:47-53 | tests that agree on every entry keep the same entries |
| Search.Lower | components/org-chart.tsx:50-51 | lower-casing keeps the length and lowers each character |
| Search.LowerHasNoCapitals | components/org-chart.tsx:50-51 | a lower-cased string holds no capital letter |
| Search.LowerIdempotent | components/org-chart.tsx:50-51 | lower-casing twice is lower-casing once |
| Search.Includes | components/org-chart.tsx:50-51 | true exactly when the term occurs at some index of the string; the empty term occurs in every string |
| Search.FilterBySearch | components/org-chart.tsx:47-53 | `filteredData`: a record is kept exactly when it matches the search |
| Search.FilterBySearchSpec | components/org-chart.tsx:47-53 | a record is kept exactly when its lower-cased name or title contains the lower-cased term. Kept records keep their order and their number of occurrences |
| Search.EmptySearchKeepsAll | components/org-chart.tsx:47-53 | an empty term keeps every record |
| Search.SearchIgnoresCase | components/org-chart.tsx:47-53 | terms that differ only in the case of letters keep the same records |
| Search.HasId | components/org-chart.tsx:230 | true exactly when some filtered record has the id |
| Search.VisibleCards | components/org-chart.tsx:229-230 | a level's shown cards are exactly its nodes whose id is among the filtered records, in level order |
| Search.AllCardsWithoutSearch | components/org-chart.tsx:229-230 | with the empty term, a level whose ids are record ids is shown in full |
| Connectors.LineColor | components/org-chart.tsx:244-254 | the result is one of the six mapped colours. A known tag gets its mapped colour, and any other tag gets gray `#6b7280` |
| Connectors.LineColorDistinguishes | components/org-chart.tsx:244-254 | different known tags get different line colours |
| Connectors.CardColor | components/org-chart.tsx:85 | a position's colour is never empty. It is the record's colour when that is a non-empty string, and "gray" otherwise |
| Connectors.GrayLinesForPlainCards | components/org-chart.tsx:85 | a card's connectors are gray exactly when its record has no colour, an empty one, the tag "gray", or a tag outside the colour map |
| Connectors.FindEmployee | components/org-chart.tsx:73-74 | finds nothing exactly when no record has the id. Otherwise it returns the first record with the id |
| Connectors.PositionOf | components/org-chart.tsx:79-86 | `x` is the card's horizontal centre and `y` its top edge, both relative to the container. It keeps the card's size and carries the card colour of its record |
| Connectors.MeasuredCards | components/org-chart.tsx:73-74 | the cards kept for measuring all name a record |
| Connectors.PositionsOf | components/org-chart.tsx:68-89 | exactly the rendered cards whose id names a record get a position, none of them has an empty colour, and there are never more positions than cards |
| Connectors.PositionsFromCards | components/org-chart.tsx:68-89 | position k is measured, by `PositionOf`, from the k-th rendered card that names a record, with the first record carrying its id. So positions follow card order, and each takes its centre, top and size from its own card's box |
| Connectors.PositionColor | components/org-chart.tsx:73-85 | each position carries the card colour of the first record with its id |
| Connectors.FindPosition | components/org-chart.tsx:111-112 | finds nothing exactly when no position has the id. Otherwise it returns the first position with the id |
| Connectors.Elbow | components/org-chart.tsx:116-164 | three joined segments, vertical, horizontal and vertical, go from the parent's bottom centre to the child's top centre. The horizontal run lies halfway between the two cards, a dot of radius 4 sits at each end, and all five shapes take the parent's line colour with stroke width 2 |
| Connectors.ConnectorFor | components/org-chart.tsx:108-114 | a record gets a connector exactly when its parent id is truthy and both it and its parent are positioned. The connector is the elbow between the first positions of the two |
| Connectors.ConnectorShapes | components/org-chart.tsx:108-165 | a shape is drawn exactly when it belongs to some record's connector, and with no positions nothing is drawn |
| Connectors.ConnectorShapesCount | components/org-chart.tsx:108-165 | five shapes are drawn per record that has a connector |
| Connectors.ShapesAreAnchored | components/org-chart.tsx:108-114 | every drawn shape belongs to a record whose card and whose parent's card are positioned |
| Connectors.RedrawnAsWritten | components/org-chart.tsx:92-106 | as written, with no positions the layer keeps whatever was drawn. Otherwise it holds the current connectors |
| Connectors.StaleConnectorsRemain | components/org-chart.tsx:93 | after an elbow was drawn and the positions become empty, the layer as written differs from the cleared layer |
| Connectors.Redrawn | components/org-chart.tsx:92-106 | a redraw that always clears first leaves no shapes when nothing is positioned, and only shapes of currently positioned connectors otherwise |
| OrgChart.IsMobile | components/org-chart.tsx:57 | mobile exactly when the viewport is narrower than 768 |
| OrgChart.Rows | components/org-chart.tsx:224-236 | one row per level, each the level's visible cards |
| OrgChart.ScreenOf | components/org-chart.tsx:168-177 | the error view is chosen exactly when there is no tree. Otherwise there is one row per level, holding the level's cards that match the search |
| OrgChart.RenderChart | components/org-chart.tsx:32-44 | when the builder fails, the levels are empty and the error view is shown. Otherwise the levels are the tree's decomposition and the screen shows, per level, the cards matching the search |
| OrgChart.ErrorScreenIffNoRoot | components/org-chart.tsx:168-177 | the error view is shown exactly when every record has a truthy parent id |
| OrgChart.LevelsIgnoreSearch | components/org-chart.tsx:42-44 | the levels depend only on the records, never on the search term |
| OrgChart.LevelIdsAreRecords | components/org-chart.tsx:42-44 | every id in the levels is the id of a record |
| OrgChart.EmptySearchShowsEveryLevel | components/org-chart.tsx:224-236 | with an empty search every level is shown in full |
| OrgChart.ShownIffReachableAndMatching | components/org-chart.tsx:224-236 | a card is shown exactly when its node is reachable from the root and its record matches the search |
| OrgChart.CardShownOnce | components/org-chart.tsx:224-236 | a card appears on one row only, and no row repeats a card |

## Left out

- React state, memoisation and effect scheduling are not modelled; the derived values are functions of their inputs. The null checks on the component's element refs (components/org-chart.tsx:66, 93, 97) are part of this mounting behaviour.
- DOM measurement (`getBoundingClientRect`, `querySelectorAll`) is not modelled: cards and boxes are inputs. `parseInt` of the data attribute is not modelled either; card ids are taken as integers.
- SVG element creation and attribute setting are reduced to the shapes they describe. The sizing of the SVG to the container is not modelled.
- `verticalGap` (components/org-chart.tsx:122) is computed but never used, so it is not modelled.
- The JSX markup and the presentational components (components/header.tsx, components/sidebar.tsx, components/employee-card.tsx, app/page.tsx) are not modelled. They only render.
- Drag-and-drop re-parenting is not modelled: no drag or drop handler exists in the source.
- Search.Lower: lower-cases the ASCII letters A to Z only, not full Unicode case mapping.
- Ids are integers only. The source also allows string ids and compares with `===`, so string/number mismatches are not modelled. A falsy `parentId` is modelled as absent or 0; the empty string and null fold into absent.
- Connectors.LineColor: the colour map is a finite map. Prototype keys such as "constructor", which a JavaScript object lookup would find, are not modelled.
- OrgLevels.GetEmployeesByLevel: requires a well-formed tree, i.e. every child is a node and not the root, and no node has two places in the child lists. The builder produces one from records with unique ids (OrgTree.BuiltTreeWellFormed). With duplicate ids the source walk can revisit nodes or loop, which is not modelled.
- OrgChart.RenderChart: requires unique ids for the same reason. The builder itself (OrgTree.BuildOrgTree) needs no such requirement and models the later-record-overwrites behaviour of its map.
- Levels hold node ids instead of node objects. Node objects are shared by reference in the source, and the model looks a node up in the tree's map.

## Findings

| source | as written | input that shows it | evidently intended | confidence | as-written member | corrected member |
|---|---|---|---|---|---|---|
| components/org-chart.tsx:93 | the connector effect returns before clearing the SVG when there are no positions | connectors were drawn, then a search term matching no record hides every card, so the positions become empty and the old connectors stay on screen | clear the connector layer on every run, so that no positions means no connectors | medium, not executed | Connectors.RedrawnAsWritten (shown by Connectors.StaleConnectorsRemain) | Connectors.Redrawn |
