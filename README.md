# Tree-style tabs for Zotero: the tab forest, in Dafny

This project models the core of a Zotero add-on that shows the open tabs as
a tree. The model covers two parts of the add-on.

**The tab forest and its manager.** `TreeTabManager` owns three things:
- a map from tab id to `TabNode`;
- the ordered list of root ids;
- the set of collapsed ids.

It inserts tabs under the last active tab and removes them, promoting the
children of a removed tab. It re-parents and reorders tabs, collapses and
expands subtrees, and reconciles the forest with the host window's tab
list. It saves and loads a persistent record of the structure. It also
answers queries: the descendants of a tab, the rendering order, and
whether a tab is visible.

**The profile logic of the development launcher.** It parses
`profiles.ini`, picks the command-line arguments for the requested
profile, and marks the add-on as approved in the profile's
`extensions.json`.

The files, in dependency order:

- `wrappers.dfy`: `Option`.
- `seq_util.dfy`: JavaScript's `indexOf`, the one-element `splice` and
  push-if-absent on sequences.
- `forest.dfy` (module `TabForest`): the records and the read-only walks:
  - `getDescendants`;
  - `updateChildLevels` as a function on the map;
  - `getTabsInTreeOrder`;
  - the parent-chain walk of `isTabVisible`.
- `forest_ops.dfy` (module `ForestOps`): every mutator as a function from
  the forest before the call to the forest after it, and the properties
  that relate several calls.
- `persistence.dfy`: the saved record, and `saveTreeStructure` and
  `loadTreeStructure`.
- `reconcile.dfy`: the host's tab list, and the folds that `onTabAdded`
  and `onTabClosed` perform.
- `forest_invariant.dfy` (module `ForestInvariant`): what a well-formed
  forest is, and which operations keep it that way:
  - a well-formed forest has links that agree both ways, each node
    listed once, levels equal to depth, no cycle, and collapse flags
    that match the collapsed set;
  - every mutator keeps the forest well formed (removal and the
    reconciliation with the host only with `collapseOnClose`), and
    `attachTabTo` and the promoting removal have their new levels stated;
  - removal without promotion, attaching to an unknown parent and
    restoring a saved forest each break the invariant.
- `tree_tab_manager.dfy` (module `Manager`): the class
  `TreeTabManager`, with the forest as mutable fields. Each method changes
  the fields in place with the source's loops and splices. It is proved
  to leave exactly the forest the matching function of `ForestOps`,
  `Reconcile` or `Persistence` describes.
- `text.dfy`: JavaScript `trim`, `split`/`join` on one character, and the
  `/\r?\n/` line split.
- `profiles_ini.dfy`: `readProfilesIni`.
- `profile_args.dfy`: `getZoteroProfileArgs`.
- `addon_approval.dfy`: the approval loop of `ensureAddonEnabled`.

The two preferences `collapseOnClose` and `autoCollapse` are boolean
parameters. The host window's `Zotero_Tabs` is a `HostTabs` value: the
tab list and the selected id, or None when the window has no tab list.
The stored preference is the field `stored`, which holds the record
instead of its JSON text. Every save in the source sets `stored` to
`Some(Save(State()))`.

Some of what the source does on data it does not expect is modelled as
written. Each of these is stated in a contract:
- Attaching a tab to an unknown parent gives it a dangling `parentId` and
  lists it nowhere.
- Without `collapseOnClose`, the children of a removed tab keep a
  `parentId` that names the removed tab.
- `moveDown` of a tab missing from its sibling list drops the last sibling
  and puts the tab first (`splice(-1, 1)`).
- `loadTreeStructure` never recomputes levels, so restored nodes keep
  level 0.

`syncWithZoteroTabs` sets levels only where its `addTab` calls and the
promoting removal of stale tabs set them; every other node keeps the
level it had. From a well-formed forest with `collapseOnClose`, the levels
it leaves are correct (ForestInvariant.SyncWellFormed).

The tree-order walk takes an `isHidden` argument that never reaches its
output, so the model omits that argument.

## Model

| member | source | states |
|---|---|---|
| TabForest.Descendants | src/modules/treeTabManager.ts:283-294 | every id listed is some node's child; every child of a known tab is listed |
| TabForest.DescendantsOfList | src/modules/treeTabManager.ts:287-291 | the loop lists every id of the child list it walks, and beyond those only ids some node lists as a child |
| TabForest.DescendantsSameChildren | src/modules/treeTabManager.ts:283-294 | two maps with the same child lists give the same descendants: levels and parents do not affect the walk |
| TabForest.GetDescendants | src/modules/treeTabManager.ts:283-294 | an id is listed exactly when it can be reached from `id` by child links |
| TabForest.UpdateChildLevels | src/modules/treeTabManager.ts:188-199 | only levels change, and only those of the nodes `getDescendants(id)` lists; when that walk repeats no id, every stored child of `id` and of each listed node ends one level below its parent |
| TabForest.RelevelLevels | src/modules/treeTabManager.ts:188-199 | on a walk without repeats, `id` keeps its node and every stored child of `id` and of every node below it is one level below its parent |
| TabForest.RelevelListLevels | src/modules/treeTabManager.ts:192-198 | the loop over a child list puts each known child at the parent's level + 1, keeps the parent, and leaves every node below one level below its parent |
| TabForest.SubtreeWalk | src/modules/treeTabManager.ts:464-479 | `addWithChildren(id)` lists the stored nodes of `id` and of `getDescendants(id)`, in that walk's order |
| TabForest.RootWalkNodes | src/modules/treeTabManager.ts:461-488 | when the walk over the roots repeats no id, the tree order is exactly the nodes of that walk |
| TabForest.TreeOrder | src/modules/treeTabManager.ts:461-488 | `getTabsInTreeOrder` lists only stored nodes; when the walk over the roots repeats no id, it is exactly the nodes of that walk |
| TabForest.TreeOrderListsEachNodeOnce | src/modules/treeTabManager.ts:461-488 | in a well-formed forest the walk over the roots lists every stored id exactly once, and the tree order is the nodes of that walk |
| TabForest.VisibleFrom | src/modules/treeTabManager.ts:497-505 | the loop answers true exactly when no ancestor it meets is collapsed |
| TabForest.IsVisible | src/modules/treeTabManager.ts:493-506 | a tab is visible if and only if it is known and none of its ancestors is collapsed |
| TabForest.AncestorsFromReach | src/modules/treeTabManager.ts:497-503 | every id the parent walk meets above a listed node lies above it by child links |
| TabForest.ReachAncestorsFrom | src/modules/treeTabManager.ts:497-503 | with agreeing links and levels the parent walk meets every id above the node: it is never cut short |
| TabForest.AncestorsReach | src/modules/treeTabManager.ts:493-506 | in a well-formed forest the ancestors `isTabVisible` checks are exactly the ids the tab lies below |
| TabForest.Relevel | src/modules/treeTabManager.ts:188-199 | `updateChildLevels` changes only `level` fields and keeps every key |
| TabForest.RelevelList | src/modules/treeTabManager.ts:192-198 | the loop over one child list changes only `level` fields |
| TabForest.RelevelFrame | src/modules/treeTabManager.ts:188-199 | `updateChildLevels(id)` leaves every node that `getDescendants(id)` does not list unchanged |
| TabForest.Subtree | src/modules/treeTabManager.ts:464-479 | `addWithChildren(id)` lists only stored nodes; it starts with `id`'s own node; it lists nothing for an unknown id |
| TabForest.SubtreeList | src/modules/treeTabManager.ts:476-478 | the walk over a child list lists only stored nodes |
| TabForest.AncestorsFrom | src/modules/treeTabManager.ts:497-503 | the parent-chain walk meets only stored nodes |
| ForestOps.KnownIdsMembers | src/modules/treeTabManager.ts:143-145 | the promoted ids are exactly the removed node's children that name a stored node |
| ForestOps.PushAllAbsentMembers | src/modules/treeTabManager.ts:155-158 | promotion to the roots adds exactly the promoted ids and keeps a repeat-free root list repeat-free |
| ForestOps.AddTab | src/modules/treeTabManager.ts:94-129 | a known effective parent gets the id as its last child, and the node gets the parent's level + 1; otherwise the node is a new last root with no parent and level 0; the node starts uncollapsed and unselected with no children; no other node changes |
| ForestOps.Unlist | src/modules/treeTabManager.ts:164-175 | the id loses its first occurrence in its parent's child list (when the parent exists) or in the roots; nothing else changes |
| ForestOps.Promote | src/modules/treeTabManager.ts:143-161 | one promotion changes each node only in its parent (the child takes the removed node's parent), its child list (the grandparent gains the child at the end) and its level; a root's child is pushed onto the roots unless already there; keys and the collapsed set are kept |
| ForestOps.PromoteLevel | src/modules/treeTabManager.ts:146-148 | the promoted child takes the removed node's level unless it lies below itself |
| ForestOps.PromoteChildren | src/modules/treeTabManager.ts:141-162 | the promotion loop keeps keys, labels and the collapsed set |
| ForestOps.PromoteChildrenLists | src/modules/treeTabManager.ts:143-161 | the grandparent's children gain the known children in their original order; every other child list is unchanged |
| ForestOps.PromoteChildrenParents | src/modules/treeTabManager.ts:146 | each known child, and no other node, takes the removed node's parent |
| ForestOps.PromoteChildrenRoots | src/modules/treeTabManager.ts:153-158 | a root's known children are pushed onto the roots in order, each unless already present |
| ForestOps.RemoveTab | src/modules/treeTabManager.ts:134-183 | an unknown id is a no-op; otherwise exactly that id leaves the map and the collapsed set, and every remaining node keeps its labels |
| ForestOps.RemoveTabLists | src/modules/treeTabManager.ts:141-175 | the promoted children are appended to the grandparent, or pushed onto the roots; then the id loses its first occurrence in its list; no other list changes; only the promoted children change parent |
| ForestOps.RemoveTabUnlists | src/modules/treeTabManager.ts:164-181 | when the id is listed once, it is absent from the map, the collapsed set, and its parent's list or the roots |
| ForestOps.AdoptInSteps | src/modules/treeTabManager.ts:391-403 | `Adopt` is the source's three steps in order: set the parent link, append the tab to a known parent's list (or nothing for an unknown one), then set the level from the parent as it stands after the append |
| ForestOps.Adopt | src/modules/treeTabManager.ts:391-403 | the tab takes the new parent; a known parent gets it as its last child, and the tab gets the parent's level + 1; with no parent it gets level 0 |
| ForestOps.AttachTo | src/modules/treeTabManager.ts:369-407 | no-op for an unknown tab or a new parent among its descendants; otherwise keys, labels and the collapsed set are kept |
| ForestOps.AttachToLists | src/modules/treeTabManager.ts:379-405 | the tab leaves its old list and is appended to the new parent's children or to the roots; only the tab changes parent; no other list changes |
| ForestOps.MoveUpIn | src/modules/treeTabManager.ts:429-433 | the tab swaps with its previous sibling; the multiset of siblings is kept; no-op when the tab is first or absent |
| ForestOps.MoveDownIn | src/modules/treeTabManager.ts:450-454 | the tab swaps with its next sibling; no-op when it is last; the multiset is kept; for an absent tab, the last sibling is dropped and the tab is put first |
| ForestOps.ReorderSiblings | src/modules/treeTabManager.ts:419-456 | only the tab's own sibling list changes; every other node, and the roots for a non-root, are untouched |
| ForestOps.ReorderSiblingsIs | src/modules/treeTabManager.ts:423-432 | a reorder replaces exactly the parent's child list, or the roots, with the moved list |
| ForestOps.ReorderTwice | src/modules/treeTabManager.ts:419-456 | two reorders whose list moves cancel leave the forest as it was |
| ForestOps.MoveUpThenDownIn | src/modules/treeTabManager.ts:429-454 | moving down undoes a move up that moved something |
| ForestOps.MoveDownThenUpIn | src/modules/treeTabManager.ts:429-454 | moving up undoes a move down in a repeat-free list |
| ForestOps.MoveUpThenDown | src/modules/treeTabManager.ts:419-456 | `moveDown` after a successful `moveUp` restores the forest |
| ForestOps.MoveDownThenUp | src/modules/treeTabManager.ts:419-456 | `moveUp` after a successful `moveDown` restores the forest when the sibling list is repeat-free |
| ForestOps.CollapseWhere | src/modules/treeTabManager.ts:331-338 | exactly the picked nodes that have children get their flag set and join the collapsed set; childless nodes are untouched |
| ForestOps.ToggleCollapsed | src/modules/treeTabManager.ts:299-318 | no-op for an unknown or childless node; otherwise the flag flips and set membership follows it |
| ForestOps.ExpandAll | src/modules/treeTabManager.ts:358-364 | every flag is cleared, the set is emptied, and nothing else changes |
| ForestOps.Select | src/modules/treeTabManager.ts:81-83 | a node is selected exactly when its id is the selected id; nothing else changes |
| ForestOps.ToggleTwice | src/modules/treeTabManager.ts:299-318 | with `autoCollapse` off, toggling twice restores the forest when flag and set agree |
| ForestOps.CollapseWhereIndexed | src/modules/treeTabManager.ts:335-336 | collapsing keeps flag and set membership in agreement |
| ForestOps.ToggleIndexed | src/modules/treeTabManager.ts:299-340 | toggling keeps flag and set in agreement; expanding with `autoCollapse` collapses exactly the other siblings that have children |
| ForestOps.CollapseExpandIdempotent | src/modules/treeTabManager.ts:345-364 | `collapseAll` and `expandAll` are idempotent |
| ForestOps.CollapseExpandIndexed | src/modules/treeTabManager.ts:345-364 | after `collapseAll` or `expandAll`, flags and set agree |
| ForestOps.EffectiveParent | src/modules/treeTabManager.ts:101 | the given parent when there is one, else the last active tab; none only when neither is set |
| ForestOps.MakeRootLists | src/modules/treeTabManager.ts:412-414 | `attachTabTo(t, null)` on a known tab clears its parent, takes it out of its old list and appends it to the roots; no other node changes parent or children |
| ForestOps.MakeRoot | src/modules/treeTabManager.ts:412-414 | a known tab loses its parent, leaves its old list and becomes the last root; no other node changes parent or children; unknown tab: no-op |
| ForestOps.MoveUp | src/modules/treeTabManager.ts:419-435 | the sibling list becomes `MoveUpIn` of itself and nothing else changes; no sibling list: no-op |
| ForestOps.MoveDown | src/modules/treeTabManager.ts:440-456 | the sibling list becomes `MoveDownIn` of itself and nothing else changes; no sibling list: no-op |
| ForestOps.AutoCollapseSiblings | src/modules/treeTabManager.ts:323-340 | every other sibling with children is collapsed and joins the set; nothing else changes |
| ForestOps.CollapseAll | src/modules/treeTabManager.ts:345-353 | every node with children is collapsed and joins the set; childless nodes are left as they were |
| ForestInvariant.AddTabWellFormed | src/modules/treeTabManager.ts:94-129 | adding a fresh id keeps the forest well formed (links agree, levels are depth, no cycle, flags match the set) |
| ForestInvariant.RemovePromoteWellFormed | src/modules/treeTabManager.ts:134-183 | with `collapseOnClose`, removal keeps the forest well formed; every node below the removed tab moves up one level and every other node keeps its level |
| ForestInvariant.RemoveTabLevels | src/modules/treeTabManager.ts:141-162 | in tree-shaped data, removal with promotion lowers exactly the removed tab's descendants by one level |
| ForestInvariant.AttachToWellFormed | src/modules/treeTabManager.ts:369-407 | a move to no parent or to a stored node outside the subtree keeps the forest well formed; the tab gets level 0 or its parent's + 1; its subtree shifts by the same amount and keeps its members; every other level is kept |
| ForestInvariant.MakeRootWellFormed | src/modules/treeTabManager.ts:412-414 | `makeRootTab` keeps the forest well formed and puts a known tab at level 0 |
| ForestInvariant.ReorderWellFormed | src/modules/treeTabManager.ts:419-456 | `moveUp` and `moveDown` keep the forest well formed |
| ForestInvariant.ToggleWellFormed | src/modules/treeTabManager.ts:299-318 | `toggleCollapsed` keeps the forest well formed |
| ForestInvariant.AutoCollapseWellFormed | src/modules/treeTabManager.ts:323-340 | `autoCollapseSiblings` keeps the forest well formed |
| ForestInvariant.CollapseExpandWellFormed | src/modules/treeTabManager.ts:345-364 | `collapseAll` and `expandAll` keep the forest well formed |
| ForestInvariant.SelectWellFormed | src/modules/treeTabManager.ts:81-83 | selection keeps the forest well formed; a node is selected exactly when its own `id` field is the selected id |
| ForestInvariant.CollapseAllById | src/modules/treeTabManager.ts:345-353 | in a well-formed forest `collapseAll` adds the `id` field of each node with children to the set |
| ForestInvariant.AddFoundWellFormed | src/modules/treeTabManager.ts:204-217 | `onTabAdded` keeps the forest well formed |
| ForestInvariant.RemoveAllWellFormed | src/modules/treeTabManager.ts:222-226 | with `collapseOnClose`, `onTabClosed` keeps the forest well formed |
| ForestInvariant.MergeEntryWellFormed | src/modules/treeTabManager.ts:59-69 | one pass of the first sync loop keeps the forest well formed |
| ForestInvariant.MergeAllWellFormed | src/modules/treeTabManager.ts:57-70 | the first sync loop keeps the forest well formed |
| ForestInvariant.SyncWellFormed | src/modules/treeTabManager.ts:48-89 | with `collapseOnClose`, `syncWithZoteroTabs` keeps the forest well formed, whatever order the stale ids are removed in |
| ForestInvariant.RemoveWithoutPromoteBreaks | src/modules/treeTabManager.ts:141-162 | without `collapseOnClose`, a child of the removed tab keeps the removed id as parent, and the forest is no longer well formed |
| ForestInvariant.AttachToUnknownBreaks | src/modules/treeTabManager.ts:379-405 | attaching a known tab to an unknown id records that parent, lists the tab nowhere, and breaks well-formedness |
| ForestInvariant.LoadLosesLevels | src/modules/treeTabManager.ts:562-578 | a saved forest with a parent link restores its links and flags but comes back at level 0, not well formed |
| Persistence.Save | src/modules/treeTabManager.ts:518-539 | the record has the forest's ids, roots and collapsed set |
| Persistence.Load | src/modules/treeTabManager.ts:544-582 | no stored record is a no-op; otherwise roots and the collapsed set are replaced; existing nodes are kept; each new id gets the saved parent, children and flag, with level 0, empty title and type, and no selection |
| Persistence.SaveLoadRoundTrip | src/modules/treeTabManager.ts:518-582 | saving what was loaded into the empty state gives the record back |
| Persistence.LoadSaveRestoresStructure | src/modules/treeTabManager.ts:518-582 | loading a saved forest into the empty state restores roots, collapsed set, parents, children and flags, at level 0 |
| Persistence.SaveIgnoresLevels | src/modules/treeTabManager.ts:520-528 | forests that differ only in levels save the same record |
| Persistence.LoadIdempotent | src/modules/treeTabManager.ts:562-578 | loading a record twice is loading it once: existing entries are not overwritten |
| Persistence.LoadSaveIndexed | src/modules/treeTabManager.ts:556-575 | a restored forest keeps flags and set in agreement |
| Reconcile.DisplayTitle | src/modules/treeTabManager.ts:63 | the title, or the type when the title is empty |
| Reconcile.FirstEntry | src/modules/treeTabManager.ts:212 | found exactly when the host lists the id; the entry is a host entry with that id and no earlier entry has it, as `find` returns the first match |
| Reconcile.LastEntry | src/modules/treeTabManager.ts:57-70 | found exactly when the host lists the id; the entry is a host entry with that id and no later entry has it, so its values are the ones a pass over the list leaves behind |
| Reconcile.MergeEntryFacts | src/modules/treeTabManager.ts:59-69 | one pass of the first sync loop adds or refreshes only the host tab's id: the keys gain that id, the collapsed set is unchanged, the tab takes the host's title and type, its id and collapse flag are kept (a new node is expanded), and every other node keeps its labels |
| Reconcile.MergeAllKeys | src/modules/treeTabManager.ts:57-70 | after the first sync loop the keys are the old ones plus the host's ids, and the collapsed set is unchanged |
| Reconcile.MergeAllNode | src/modules/treeTabManager.ts:57-70 | after the first sync loop every old or host id is stored, no node's id or collapse flag has changed, a new node is expanded, and a node the host does not list keeps its labels |
| Reconcile.MergeAllTitles | src/modules/treeTabManager.ts:57-70 | after the first sync loop each host id carries the `title \|\| type` and the type of its last host entry |
| Reconcile.MergeAllResult | src/modules/treeTabManager.ts:57-70 | the first sync loop as a whole: the keys grow by exactly the host's ids, each host id carries its last entry's title and type, and no collapse flag or collapsed id changes |
| Reconcile.RemoveAllSnoc | src/modules/treeTabManager.ts:73-77 | removing the ids one at a time, as the second sync loop does, is the removal fold over the ids removed so far |
| Reconcile.AddFoundKeys | src/modules/treeTabManager.ts:204-217 | after `onTabAdded`, the keys are the old ones plus the event ids the host lists |
| Reconcile.AddFoundLabels | src/modules/treeTabManager.ts:211-215 | old nodes keep their labels; each new node has the title and type of the host's first entry, uncollapsed and unselected |
| Reconcile.RemoveAllKeys | src/modules/treeTabManager.ts:222-226 | after `onTabClosed`, exactly the closed ids are gone from the map and the collapsed set |
| Reconcile.RemoveAllLabels | src/modules/treeTabManager.ts:222-226 | every surviving node keeps its labels |
| Manager.TreeTabManager.constructor | src/addon.ts:36-42 | empty map, roots and collapsed set; no last active tab |
| Manager.TreeTabManager.SaveTreeStructure | src/modules/treeTabManager.ts:518-539 | the stored record becomes `Save` of the forest; the forest is unchanged |
| Manager.TreeTabManager.LoadTreeStructure | src/modules/treeTabManager.ts:544-582 | the fields become `Load` of the old forest and the stored record |
| Manager.TreeTabManager.AddTab | src/modules/treeTabManager.ts:94-129 | the fields become `AddTab` under `parentId`, or else under the last active tab; returns the stored node; saves |
| Manager.TreeTabManager.UpdateChildLevels | src/modules/treeTabManager.ts:188-199 | the map becomes `Relevel` of the old map; nothing else changes |
| Manager.TreeTabManager.RelevelChild | src/modules/treeTabManager.ts:192-198 | one pass of the loop sets a known child's level to the parent's + 1 and relevels its subtree; an unknown child changes nothing |
| Manager.TreeTabManager.PromoteChild | src/modules/treeTabManager.ts:144-160 | one pass of the promotion loop performs `Promote` |
| Manager.TreeTabManager.PromoteChildren | src/modules/treeTabManager.ts:141-162 | the promotion loop performs `PromoteChildren` |
| Manager.TreeTabManager.UnlistTab | src/modules/treeTabManager.ts:164-175 | the `indexOf`/`splice` removal performs `Unlist` |
| Manager.TreeTabManager.RemoveTabFromTree | src/modules/treeTabManager.ts:134-183 | the fields become `RemoveTab`; saves exactly when the id was known |
| Manager.TreeTabManager.CollapseIfParent | src/modules/treeTabManager.ts:333-337 | one pass of a collapsing loop adds one id to the picked set of `CollapseWhere` |
| Manager.TreeTabManager.AutoCollapseSiblings | src/modules/treeTabManager.ts:323-340 | the fields become `AutoCollapseSiblings` |
| Manager.TreeTabManager.CollapseSibling | src/modules/treeTabManager.ts:331-339 | one pass of the loop adds the sibling, unless it is the expanded tab, to the picked set of `CollapseWhere` |
| Manager.TreeTabManager.ToggleCollapsed | src/modules/treeTabManager.ts:299-318 | the fields become `ToggleCollapsed`; saves exactly when the node is known and has children |
| Manager.TreeTabManager.CollapseAll | src/modules/treeTabManager.ts:345-353 | the fields become `CollapseAll`; saves |
| Manager.TreeTabManager.CollapsePending | src/modules/treeTabManager.ts:346-351 | one pass of the `forEach` adds one more node to the picked set of `CollapseWhere` |
| Manager.TreeTabManager.ExpandAll | src/modules/treeTabManager.ts:358-364 | the fields become `ExpandAll`; saves |
| Manager.TreeTabManager.ExpandPending | src/modules/treeTabManager.ts:359-361 | one pass of the `forEach` clears one more node's flag and changes nothing else |
| Manager.TreeTabManager.SetSelection | src/modules/treeTabManager.ts:81-83 | the selection loop performs `Select` |
| Manager.TreeTabManager.SelectPending | src/modules/treeTabManager.ts:81-83 | one pass of the loop sets one more node's flag to "its id is the selected id" and changes nothing else |
| Manager.TreeTabManager.OnTabSelected | src/modules/treeTabManager.ts:231-241 | the first id, or none, becomes selected and last active; nothing is saved |
| Manager.TreeTabManager.AttachTabTo | src/modules/treeTabManager.ts:369-407 | the fields become `AttachTo`; saves unless the call was a no-op |
| Manager.TreeTabManager.AdoptTab | src/modules/treeTabManager.ts:391-403 | the map becomes `Adopt`; with no parent the tab is appended to the roots |
| Manager.TreeTabManager.MakeRootTab | src/modules/treeTabManager.ts:412-414 | the fields become `MakeRoot`; saves for a known tab |
| Manager.TreeTabManager.SetSiblings | src/modules/treeTabManager.ts:423-432 | replaces exactly the tab's sibling list |
| Manager.TreeTabManager.MoveUp | src/modules/treeTabManager.ts:419-435 | the fields become `MoveUp`; saves exactly when the tab moved |
| Manager.TreeTabManager.MoveDown | src/modules/treeTabManager.ts:440-456 | the fields become `MoveDown`; saves exactly when the index is below the last position |
| Manager.TreeTabManager.MergeHostTabs | src/modules/treeTabManager.ts:53-70 | returns the host's ids; the fields become the `MergeAll` fold of one pass per host entry, and the stored record is the one the last `addTab` saved; so the map gains exactly the host's ids, each with the title and type of its last host entry, and flags and set are kept |
| Manager.TreeTabManager.MergeHostTab | src/modules/treeTabManager.ts:59-69 | the fields become `MergeEntry`: a new id is `addTab`'d under the last active tab and saved; a known one has title, type and selection refreshed and nothing is saved |
| Manager.TreeTabManager.RemoveKnown | src/modules/treeTabManager.ts:76 | the fields become `RemoveTab` of the old forest and the result is saved; so the id leaves the map and the collapsed set and labels are kept |
| Manager.TreeTabManager.RemoveStale | src/modules/treeTabManager.ts:73-77 | returns the removal order: every stored id the host does not list, each once; the fields become the `RemoveAll` fold over that order, saved when anything was removed; afterwards the keys are exactly `current` |
| Manager.TreeTabManager.SyncWithZoteroTabs | src/modules/treeTabManager.ts:48-89 | the fields become `Sync`: the merge fold, then removal of exactly the stale ids (in the returned order), then selection; the keys equal the host ids; titles are `title \|\| type` and types come from the host; a node is selected exactly when it is the host's selected tab; collapse flags are kept; stale ids leave the set; saves; with `collapseOnClose` a well-formed forest stays well formed; no tab list is a no-op |
| Manager.TreeTabManager.OnTabAdded | src/modules/treeTabManager.ts:204-217 | the fields become the `AddFound` fold; saves exactly when a tab was added |
| Manager.TreeTabManager.OnTabClosed | src/modules/treeTabManager.ts:222-226 | the fields become the `RemoveAll` fold; saves exactly when a tab was removed |
| Manager.TreeTabManager.IsTabVisible | src/modules/treeTabManager.ts:493-506 | the `while` loop returns `IsVisible` |
| Manager.TreeTabManager.GetTab | src/modules/treeTabManager.ts:511-513 | the node when the id is known, else nothing |
| Manager.SpliceUp | src/modules/treeTabManager.ts:429-433 | the two splices of `moveUp` compute `MoveUpIn` |
| Manager.SpliceDown | src/modules/treeTabManager.ts:450-454 | the two splices of `moveDown` compute `MoveDownIn`, including the -1 index |
| Text.TrimStart | scripts/start.mjs:118 | drops exactly the leading white space |
| Text.TrimEnd | scripts/start.mjs:118 | drops exactly the trailing white space |
| Text.TrimShape | scripts/start.mjs:118 | `trim` keeps a middle part with no white space at either end and removes only white space |
| Text.TrimIdempotent | scripts/start.mjs:118 | trimming twice is trimming once |
| Text.Split | scripts/start.mjs:140 | at least one piece, and no piece contains the separator |
| Text.JoinSplit | scripts/start.mjs:140-141 | joining the pieces with the separator gives the text back |
| Text.SplitJoin | scripts/start.mjs:140-141 | splitting a join of separator-free parts gives the parts back |
| Text.SplitFirstRest | scripts/start.mjs:140-141 | the key is the text before the first `=`; the rejoined rest is the text after it |
| Text.SplitLines | scripts/start.mjs:117 | at least one line, and no line contains a newline |
| Text.SplitLinesIsSplit | scripts/start.mjs:117 | splitting on `/\r?\n/` gives the `\n` pieces, each one a `\n` ends losing one trailing `\r`, the last one kept as it is |
| Text.SplitLinesWithoutCR | scripts/start.mjs:117 | with no `\r` before a line break, the `/\r?\n/` split is the split on `\n` |
| ProfilesIni.Classify | scripts/start.mjs:118-138 | a line is skipped exactly when blank or a `;`/`#` comment; it is a header exactly when it starts with `[` |
| ProfilesIni.EntryKeyValue | scripts/start.mjs:140-141 | the value is the trimmed text after the first `=`, so it may contain `=` |
| ProfilesIni.Apply | scripts/start.mjs:143-158 | `Name` and `Path` set their field; `IsRelative` and `Default` are true only for "1"; other keys change nothing |
| ProfilesIni.ApplyOverwrites | scripts/start.mjs:143-158 | a repeated key overwrites the earlier value |
| ProfilesIni.StepOutsideSection | scripts/start.mjs:136-138 | before any section, a non-header line changes nothing |
| ProfilesIni.PreambleIgnored | scripts/start.mjs:117-138 | lines before the first header are ignored |
| ProfilesIni.BodyUpdatesCurrent | scripts/start.mjs:136-158 | inside a section, lines only update the open record |
| ProfilesIni.Section | scripts/start.mjs:123-158 | a header closes the open record and starts a fresh one, which its body fills |
| ProfilesIni.Finish | scripts/start.mjs:165-170 | the output is no longer than the input |
| ProfilesIni.FinishKeepsOrder | scripts/start.mjs:165-170 | the output lists, in order, the records with a path, relative paths joined to the file's directory |
| ProfilesIni.ReadProfilesIni | scripts/start.mjs:107-171 | no file gives no profiles; otherwise the line loop and the final push give `ParseProfiles` |
| ProfilesIni.ParseSections | scripts/start.mjs:117-159 | the line loop leaves the finished records and the open one exactly as the `Fold` of `Step` over the lines |
| ProfilesIni.ParseLine | scripts/start.mjs:118-158 | one pass of the line loop performs `Step` |
| ProfilesIni.SectionsFold | scripts/start.mjs:117-158 | the line loop over whole sections closes one record per section, each filled in by its own body, after the records already closed |
| ProfilesIni.ParseProfilesOfSections | scripts/start.mjs:107-171 | a file made of a header-free preamble and sections yields one record per section, filled in by its body, before the final filter and map |
| ProfileArgs.FindFirst | scripts/start.mjs:59 | a found record is listed and satisfies the test; when none is found, no record does |
| ProfileArgs.ArgsShape | scripts/start.mjs:56-92 | the arguments are `-profile` with a listed non-empty path (also returned as the profile path), or `-P` with the name and no path, or empty |
| ProfileArgs.NamedProfileWins | scripts/start.mjs:58-66 | the first profile with the requested name and a path is always used |
| ProfileArgs.NamedIsFirst | scripts/start.mjs:59 | `find` by name returns the first match |
| ProfileArgs.NoNameUsesDefault | scripts/start.mjs:82-91 | with no name: the default profile when it has a path, else no arguments |
| ProfileArgs.DefaultNameAnyCase | scripts/start.mjs:68 | "default" in any letter case falls back to the default profile; "defaults" does not |
| ProfileArgs.UnlistedNameFallsBack | scripts/start.mjs:58-80 | a non-empty name that no listed profile with a path carries picks the default profile when the name is "default" in any case and it has a path, and `-P name` otherwise |
| ProfileArgs.Lower | scripts/start.mjs:68 | the name with each ASCII letter lowered, letter by letter |
| AddonApproval.Approve | scripts/start.mjs:199-214 | a null entry stays null; an entry keeps its id and ends not side-loaded |
| AddonApproval.ApproveEffect | scripts/start.mjs:199-214 | an entry changes exactly when it was side-loaded, or is the target and not enabled; side-loaded entries lose their telemetry; the target ends enabled and seen; other fields are kept |
| AddonApproval.ApproveIdempotent | scripts/start.mjs:198-215 | a second pass changes nothing |
| AddonApproval.EnsureAddonEnabled | scripts/start.mjs:195-217 | every entry is approved in place; `updated` is true exactly when the array changed |

## Left out

- Host I/O and the rest of the add-on are not modelled:
  - `init` stores the window, loads the stored structure (modelled by Manager.TreeTabManager.LoadTreeStructure) and logs a line; the window field and the log line are not modelled;
  - `selectTab` and `closeTab` only forward to `Zotero_Tabs`; `closeTabTree` closes the ids `getDescendants` lists (modelled by TabForest.GetDescendants) in reverse, then the tab, through `closeTab`;
  - the sidebar and the preference pane are DOM code;
  - hooks, bootstrap, locale and the preference wrappers are lifecycle code;
  - the try/catch debug logging is not modelled.
- The JSON text of the stored record is not modelled; the model stores the record itself:
  - a stored text that fails to parse leaves the state unchanged, as None does;
  - the defaults for missing fields (`|| []`, `|| false`) are not modelled;
  - the order of the saved tab array (the Map's insertion order) is not kept;
  - repeated ids in that array cannot occur in the model's map.
- Persistence.Load: a repeated id in the saved array keeps its first occurrence in the source; the map holds one entry per id.
- TabForest.Descendants: the walks carry the ids they have met and stop at a repeated one; the source walks (and the `isTabVisible` loop) never return on cyclic data. The same applies to TabForest.Relevel, TabForest.Subtree, TabForest.VisibleFrom and Manager.TreeTabManager.UpdateChildLevels.
- Manager.TreeTabManager.AttachTabTo: requires `p != Some(t)`, because attaching a tab to itself recurses without end in `updateChildLevels`; only the sidebar prevents that call.
- TabForest.Relevel and TabForest.RelevelList: their own contracts state only that levels alone change and keys are kept. The level values are stated by TabForest.RelevelLevels and TabForest.RelevelListLevels, which need a walk without repeats, and by TabForest.UpdateChildLevels.
- TabForest.Descendants and TabForest.DescendantsOfList: their own contracts, which carry a `path` of walks in progress, state membership facts only. The exact set, the ids reachable by child links, is stated on TabForest.GetDescendants, the walk from an empty path.
- The well-formedness proofs cover the pure operations in `ForestOps` and `Reconcile`. The class methods are proved equal to those operations, so they inherit the proofs; Manager.TreeTabManager.SyncWithZoteroTabs also states the inherited fact in its own contract.
- ForestOps.PromoteChildren reads the removed node's parent and level once, before the loop. The source reads them from the live object, which differs only when the loop's relevelling reaches the removed node (cyclic data).
- ForestOps.PromoteLevel states the promoted child's level right after its own promotion, not after the whole loop: a later promotion can relevel it only when it lies below a later sibling.
- Manager.TreeTabManager.RemoveStale removes the stale ids in an order the model leaves open; the source uses the Map's insertion order, which the model's map does not keep. The method returns the order it used as a ghost result, and its contract, and that of Manager.TreeTabManager.SyncWithZoteroTabs, states the resulting forest as the removal fold over that order.
- ForestOps.MoveDownThenUp requires a repeat-free sibling list: with a repeated id, `indexOf` finds the first copy and the moves do not cancel.
- ProfileArgs.IsDefaultName lowers ASCII letters only; that decides `toLowerCase() === "default"` as the full Unicode mapping does.
- ProfilesIni.ReadProfilesIni: reading the file is its `contents` parameter (None when there is no path or file). `dirname` is the `root` parameter and `path.join` the `join` parameter; read errors are not modelled.
- AddonApproval.EnsureAddonEnabled: the record flags are booleans, so JavaScript truthiness of non-boolean JSON values is not modelled. `installTelemetryInfo` is kept as text. A non-array `addons` value (treated as an empty list) is not modelled. `existsSync`, the read, the rewrite and the catch are not modelled either.
- The launcher's process spawning, file copying, `user.js` rewriting and watch loop are not modelled, nor are the build and release scripts.
