/**
 * `TreeTabManager` (src/modules/treeTabManager.ts): the object that owns
 * the tab forest and changes it in place. Each method is proved to leave
 * the forest the corresponding function of ForestOps, Reconcile or
 * Persistence describes; what those functions guarantee is proved there.
 *
 * The preferences `collapseOnClose` and `autoCollapse` are parameters;
 * the host window's tab list is a `HostTabs` value (None when the window
 * has no `Zotero_Tabs._tabs`); the stored preference is the field
 * `stored`.
 */
module Manager {
  import opened Wrappers
  import opened SeqUtil
  import opened TabForest
  import opened ForestOps
  import opened Persistence
  import opened Reconcile
  import ForestInvariant

  class TreeTabManager {
    /** `treeData.tabs`. */
    var tabs: Tabs
    /** `treeData.structure.roots`. */
    var roots: seq<TabId>
    /** `treeData.structure.collapsed`. */
    var collapsed: set<TabId>
    /** The last selected tab, the default parent of new tabs. */
    var lastActiveTabId: Option<TabId>
    /** The persisted record (the preference `treeStyleTabs.treeStructure`). */
    var stored: Option<Blob>

    /** The forest the fields hold. */
    function State(): Forest
      reads this
    {
      Forest(tabs, roots, collapsed)
    }

    /** The empty tree data of a fresh add-on, with whatever was stored before. */
    constructor(previous: Option<Blob>)
      ensures State() == EmptyForest && lastActiveTabId == None && stored == previous
    {
      tabs := map[];
      roots := [];
      collapsed := {};
      lastActiveTabId := None;
      stored := previous;
    }

    /** `saveTreeStructure()`. */
    method SaveTreeStructure()
      modifies this
      ensures stored == Some(Save(old(State())))
      ensures State() == old(State()) && lastActiveTabId == old(lastActiveTabId)
    {
      var saved := map k | k in tabs :: SavedTab(tabs[k].parentId, tabs[k].childIds, tabs[k].collapsed);
      stored := Some(Blob(saved, roots, collapsed));
    }

    /** `loadTreeStructure()`. */
    method LoadTreeStructure()
      modifies this
      ensures State() == Load(old(State()), old(stored))
      ensures stored == old(stored) && lastActiveTabId == old(lastActiveTabId)
    {
      if stored.None? {
        return;
      }
      var data := stored.value;
      roots := data.roots;
      collapsed := data.collapsed;
      var pending := data.tabs.Keys;
      ghost var before := tabs;
      while pending != {}
        invariant pending <= data.tabs.Keys
        invariant roots == data.roots && collapsed == data.collapsed
        invariant stored == old(stored) && lastActiveTabId == old(lastActiveTabId)
        invariant tabs.Keys == before.Keys + (data.tabs.Keys - pending)
        invariant forall k :: k in tabs ==>
          tabs[k] == if k in before then before[k] else Restore(k, data.tabs[k])
        decreases pending
      {
        var id :| id in pending;
        if id !in tabs {
          var saved := data.tabs[id];
          tabs := tabs[id := TabNode(id, saved.parentId, saved.childIds, 0, saved.collapsed, "", "", false)];
        }
        pending := pending - {id};
      }
      assert tabs == Load(old(State()), old(stored)).tabs;
    }

    /**
     * `addTab(id, title, type, parentId)`: returns the new node and saves.
     */
    method AddTab(id: TabId, title: string, tabType: string, parentId: Option<TabId>) returns (node: TabNode)
      modifies this
      ensures State() == ForestOps.AddTab(old(State()), id, title, tabType, EffectiveParent(parentId, old(lastActiveTabId)))
      ensures node == tabs[id]
      ensures stored == Some(Save(State())) && lastActiveTabId == old(lastActiveTabId)
    {
      var effectiveParentId := if parentId.Some? then parentId else lastActiveTabId;
      node := TabNode(id, effectiveParentId, [], 0, false, title, tabType, false);
      if effectiveParentId.Some? && effectiveParentId.value in tabs {
        var parent := tabs[effectiveParentId.value];
        tabs := tabs[effectiveParentId.value := parent.(childIds := parent.childIds + [id])];
        node := node.(level := parent.level + 1);
      } else {
        node := node.(parentId := None);
        roots := roots + [id];
      }
      tabs := tabs[id := node];
      SaveTreeStructure();
    }

    /**
     * `updateChildLevels(id)`: every child of `id` gets `id`'s level + 1
     * and has its own children updated. `path` holds the ids whose update
     * is in progress; the walk stops at one of them, which happens only on
     * cyclic data.
     */
    method UpdateChildLevels(id: TabId, path: set<TabId>)
      modifies this
      ensures tabs == Relevel(old(tabs), id, path)
      ensures roots == old(roots) && collapsed == old(collapsed)
      ensures lastActiveTabId == old(lastActiveTabId) && stored == old(stored)
      decreases tabs.Keys - path, 0
    {
      if id !in tabs || id in path {
        return;
      }
      var kids := tabs[id].childIds;
      var inner := path + {id};
      var i := 0;
      while i < |kids|
        invariant 0 <= i <= |kids|
        invariant id in tabs && tabs.Keys == old(tabs).Keys
        invariant RelevelList(tabs, id, kids[i..], inner) == RelevelList(old(tabs), id, kids, inner)
        invariant roots == old(roots) && collapsed == old(collapsed)
        invariant lastActiveTabId == old(lastActiveTabId) && stored == old(stored)
      {
        var childId := kids[i];
        assert kids[i..][0] == childId && kids[i..][1..] == kids[i + 1..];
        RelevelChild(id, childId, inner);
        i := i + 1;
      }
    }

    /** One pass of the loop of `updateChildLevels(id)`, for the child `childId`. */
    method RelevelChild(id: TabId, childId: TabId, inner: set<TabId>)
      requires id in tabs
      modifies this
      ensures tabs == if childId in old(tabs)
        then Relevel(old(tabs)[childId := old(tabs)[childId].(level := old(tabs)[id].level + 1)], childId, inner)
        else old(tabs)
      ensures roots == old(roots) && collapsed == old(collapsed)
      ensures lastActiveTabId == old(lastActiveTabId) && stored == old(stored)
      decreases tabs.Keys - inner, 1
    {
      if childId in tabs {
        tabs := tabs[childId := tabs[childId].(level := tabs[id].level + 1)];
        UpdateChildLevels(childId, inner);
      }
    }

    /**
     * One pass of the promotion loop of `removeTabFromTree`: the child `c`
     * of the removed `node` takes the node's parent and level, its subtree
     * is relevelled and it is pushed onto the grandparent's children or,
     * unless already there, onto the roots.
     */
    method PromoteChild(node: TabNode, c: TabId)
      requires c in tabs
      modifies this
      ensures State() == Promote(old(State()), node, c)
      ensures lastActiveTabId == old(lastActiveTabId) && stored == old(stored)
    {
      tabs := tabs[c := tabs[c].(parentId := node.parentId, level := node.level)];
      UpdateChildLevels(c, {});
      match node.parentId
      case Some(g) =>
        if g in tabs {
          tabs := tabs[g := tabs[g].(childIds := tabs[g].childIds + [c])];
        }
      case None =>
        var idx := IndexOf(roots, c);
        if idx == -1 {
          roots := roots + [c];
        }
    }

    /** The promotion loop of `removeTabFromTree` over the removed `node`'s children. */
    method PromoteChildren(node: TabNode)
      modifies this
      ensures State() == ForestOps.PromoteChildren(old(State()), node, node.childIds)
      ensures lastActiveTabId == old(lastActiveTabId) && stored == old(stored)
    {
      var kids := node.childIds;
      var i := 0;
      while i < |kids|
        invariant 0 <= i <= |kids|
        invariant ForestOps.PromoteChildren(State(), node, kids[i..]) == ForestOps.PromoteChildren(old(State()), node, kids)
        invariant lastActiveTabId == old(lastActiveTabId) && stored == old(stored)
      {
        var childId := kids[i];
        assert kids[i..][0] == childId && kids[i..][1..] == kids[i + 1..];
        if childId in tabs {
          PromoteChild(node, childId);
        }
        i := i + 1;
      }
    }

    /**
     * "Remove from parent's children": `id` leaves its parent's child list
     * (when the parent exists) or the roots, by `indexOf` and `splice`.
     */
    method UnlistTab(id: TabId, parentId: Option<TabId>)
      modifies this
      ensures State() == Unlist(old(State()), id, parentId)
      ensures lastActiveTabId == old(lastActiveTabId) && stored == old(stored)
    {
      ghost var f := State();
      match parentId
      case Some(p) =>
        if p in tabs {
          var siblings := tabs[p].childIds;
          var idx := IndexOf(siblings, id);
          if idx != -1 {
            tabs := tabs[p := tabs[p].(childIds := siblings[..idx] + siblings[idx + 1..])];
          } else {
            assert tabs[p := tabs[p].(childIds := siblings)] == tabs;
          }
          assert tabs == f.tabs[p := f.tabs[p].(childIds := RemoveFirst(siblings, id))];
        }
        assert State() == Unlist(f, id, parentId);
      case None =>
        var idx := IndexOf(roots, id);
        if idx != -1 {
          roots := roots[..idx] + roots[idx + 1..];
        }
        assert roots == RemoveFirst(f.roots, id);
        assert State() == Unlist(f, id, parentId);
    }

    /**
     * `removeTabFromTree(id)` with `collapseOnClose` the preference: saves
     * unless `id` is unknown.
     */
    method RemoveTabFromTree(id: TabId, collapseOnClose: bool)
      modifies this
      ensures State() == RemoveTab(old(State()), id, collapseOnClose)
      ensures stored == if id in old(tabs) then Some(Save(State())) else old(stored)
      ensures lastActiveTabId == old(lastActiveTabId)
    {
      if id !in tabs {
        return;
      }
      var node := tabs[id];
      if collapseOnClose {
        PromoteChildren(node);
      }
      UnlistTab(id, node.parentId);
      collapsed := collapsed - {id};
      tabs := tabs - {id};
      SaveTreeStructure();
    }

    /** Collapses `s` when it names a node with children (one pass of the collapsing loops). */
    method CollapseIfParent(s: TabId, ghost f: Forest, ghost pick: set<TabId>)
      requires State() == CollapseWhere(f, pick)
      modifies this
      ensures State() == CollapseWhere(f, pick + {s})
      ensures lastActiveTabId == old(lastActiveTabId) && stored == old(stored)
    {
      CollapseWhereAdd(f, pick, s);
      if s in tabs && |tabs[s].childIds| > 0 {
        tabs := tabs[s := tabs[s].(collapsed := true)];
        collapsed := collapsed + {s};
      }
    }

    /** `autoCollapseSiblings(x)`: collapses every other sibling of `x` that has children. */
    method AutoCollapseSiblings(x: TabId)
      modifies this
      ensures State() == ForestOps.AutoCollapseSiblings(old(State()), x)
      ensures lastActiveTabId == old(lastActiveTabId) && stored == old(stored)
    {
      if x !in tabs {
        return;
      }
      var siblingIds := match tabs[x].parentId
        case Some(p) => if p in tabs then tabs[p].childIds else []
        case None => roots;
      ghost var f := State();
      assert siblingIds == SiblingList(f, x);
      CollapseWhereNone(f);
      assert Others(siblingIds[..0], x) == {};
      var i := 0;
      while i < |siblingIds|
        invariant 0 <= i <= |siblingIds|
        invariant State() == CollapseWhere(f, Others(siblingIds[..i], x))
        invariant lastActiveTabId == old(lastActiveTabId) && stored == old(stored)
      {
        CollapseSibling(siblingIds, i, x, f);
        i := i + 1;
      }
      assert siblingIds[..i] == siblingIds;
    }

    /** One pass of the loop of `autoCollapseSiblings`: `siblingIds[i]` is collapsed unless it is `x`. */
    method CollapseSibling(siblingIds: seq<TabId>, i: nat, x: TabId, ghost f: Forest)
      requires i < |siblingIds| && State() == CollapseWhere(f, Others(siblingIds[..i], x))
      modifies this
      ensures State() == CollapseWhere(f, Others(siblingIds[..i + 1], x))
      ensures lastActiveTabId == old(lastActiveTabId) && stored == old(stored)
    {
      var siblingId := siblingIds[i];
      assert siblingIds[..i + 1] == siblingIds[..i] + [siblingId];
      OthersSnoc(siblingIds[..i], siblingId, x);
      if siblingId != x {
        CollapseIfParent(siblingId, f, Others(siblingIds[..i], x));
      } else {
        assert Others(siblingIds[..i + 1], x) == Others(siblingIds[..i], x);
      }
    }

    /**
     * `toggleCollapsed(id)` with `autoCollapse` the preference: saves
     * unless the node is unknown or childless.
     */
    method ToggleCollapsed(id: TabId, autoCollapse: bool)
      modifies this
      ensures State() == ForestOps.ToggleCollapsed(old(State()), id, autoCollapse)
      ensures stored == if id in old(tabs) && |old(tabs)[id].childIds| > 0 then Some(Save(State())) else old(stored)
      ensures lastActiveTabId == old(lastActiveTabId)
    {
      if id !in tabs || |tabs[id].childIds| == 0 {
        return;
      }
      var node := tabs[id];
      tabs := tabs[id := node.(collapsed := !node.collapsed)];
      if !node.collapsed {
        collapsed := collapsed + {id};
      } else {
        collapsed := collapsed - {id};
        if autoCollapse {
          AutoCollapseSiblings(id);
        }
      }
      SaveTreeStructure();
    }

    /** `collapseAll()`: every node with children is collapsed; saves. */
    method CollapseAll()
      modifies this
      ensures State() == ForestOps.CollapseAll(old(State()))
      ensures stored == Some(Save(State())) && lastActiveTabId == old(lastActiveTabId)
    {
      ghost var f := State();
      CollapseWhereNone(f);
      var pending := tabs.Keys;
      assert f.tabs.Keys - pending == {};
      while pending != {}
        invariant pending <= f.tabs.Keys
        invariant State() == CollapseWhere(f, f.tabs.Keys - pending)
        invariant lastActiveTabId == old(lastActiveTabId)
        decreases pending
      {
        var id :| id in pending;
        CollapsePending(id, f, pending);
        pending := pending - {id};
      }
      assert f.tabs.Keys - pending == f.tabs.Keys;
      assert State() == ForestOps.CollapseAll(f);
      SaveTreeStructure();
    }

    /** One pass of the loop of `collapseAll`, on the node `id` not yet visited. */
    method CollapsePending(id: TabId, ghost f: Forest, ghost pending: set<TabId>)
      requires id in pending && pending <= f.tabs.Keys
      requires State() == CollapseWhere(f, f.tabs.Keys - pending)
      modifies this
      ensures State() == CollapseWhere(f, f.tabs.Keys - (pending - {id}))
      ensures lastActiveTabId == old(lastActiveTabId) && stored == old(stored)
    {
      CollapseIfParent(id, f, f.tabs.Keys - pending);
      assert (f.tabs.Keys - pending) + {id} == f.tabs.Keys - (pending - {id});
    }

    /** `expandAll()`: every flag is cleared and the set emptied; saves. */
    method ExpandAll()
      modifies this
      ensures State() == ForestOps.ExpandAll(old(State()))
      ensures stored == Some(Save(State())) && lastActiveTabId == old(lastActiveTabId)
    {
      ghost var before := tabs;
      var pending := tabs.Keys;
      while pending != {}
        invariant pending <= before.Keys && tabs.Keys == before.Keys
        invariant forall k :: k in tabs ==> tabs[k] == if k in pending then before[k] else before[k].(collapsed := false)
        invariant roots == old(roots) && lastActiveTabId == old(lastActiveTabId)
        decreases pending
      {
        var id :| id in pending;
        ExpandPending(id, before, pending);
        pending := pending - {id};
      }
      collapsed := {};
      assert tabs == ForestOps.ExpandAll(old(State())).tabs;
      SaveTreeStructure();
    }

    /** One pass of the loop of `expandAll`, on the node `id` not yet visited. */
    method ExpandPending(id: TabId, ghost before: Tabs, ghost pending: set<TabId>)
      requires id in pending && pending <= before.Keys && tabs.Keys == before.Keys
      requires forall k :: k in tabs ==> tabs[k] == if k in pending then before[k] else before[k].(collapsed := false)
      modifies this
      ensures tabs.Keys == before.Keys
      ensures forall k :: k in tabs ==> tabs[k] == if k in pending - {id} then before[k] else before[k].(collapsed := false)
      ensures roots == old(roots) && collapsed == old(collapsed)
      ensures lastActiveTabId == old(lastActiveTabId) && stored == old(stored)
    {
      tabs := tabs[id := tabs[id].(collapsed := false)];
    }

    /** The loop that sets every node's `selected` flag to "its id is `sel`". */
    method SetSelection(sel: Option<TabId>)
      modifies this
      ensures State() == Select(old(State()), sel)
      ensures lastActiveTabId == old(lastActiveTabId) && stored == old(stored)
    {
      ghost var before := tabs;
      var pending := tabs.Keys;
      while pending != {}
        invariant pending <= before.Keys && tabs.Keys == before.Keys
        invariant forall k :: k in tabs ==> tabs[k] == if k in pending then before[k] else before[k].(selected := Some(k) == sel)
        invariant roots == old(roots) && collapsed == old(collapsed)
        invariant lastActiveTabId == old(lastActiveTabId) && stored == old(stored)
        decreases pending
      {
        var id :| id in pending;
        SelectPending(id, sel, before, pending);
        pending := pending - {id};
      }
      assert tabs == Select(old(State()), sel).tabs;
    }

    /** One pass of the selection loop, on the node `id` not yet visited. */
    method SelectPending(id: TabId, sel: Option<TabId>, ghost before: Tabs, ghost pending: set<TabId>)
      requires id in pending && pending <= before.Keys && tabs.Keys == before.Keys
      requires forall k :: k in tabs ==> tabs[k] == if k in pending then before[k] else before[k].(selected := Some(k) == sel)
      modifies this
      ensures tabs.Keys == before.Keys
      ensures forall k :: k in tabs ==> tabs[k] == if k in pending - {id} then before[k] else before[k].(selected := Some(k) == sel)
      ensures roots == old(roots) && collapsed == old(collapsed)
      ensures lastActiveTabId == old(lastActiveTabId) && stored == old(stored)
    {
      tabs := tabs[id := tabs[id].(selected := Some(id) == sel)];
    }

    /** `onTabSelected(ids)`: the first id becomes the selected and last active tab. */
    method OnTabSelected(ids: seq<TabId>)
      modifies this
      ensures var sel := if |ids| > 0 then Some(ids[0]) else None;
        State() == Select(old(State()), sel) && lastActiveTabId == sel
      ensures stored == old(stored)
    {
      var selectedId := if |ids| > 0 then Some(ids[0]) else None;
      SetSelection(selectedId);
      lastActiveTabId := selectedId;
    }

    /**
     * `attachTabTo(t, p)`: nothing for an unknown `t` or a `p` among `t`'s
     * descendants; otherwise `t` moves under `p` (or to the roots), its
     * subtree is relevelled and the forest saved. Attaching a tab to
     * itself sends the source's level update into endless recursion; the
     * sidebar never asks for it.
     */
    method AttachTabTo(t: TabId, p: Option<TabId>)
      requires p != Some(t)
      modifies this
      ensures State() == AttachTo(old(State()), t, p)
      ensures stored == if t in old(tabs) && !(p.Some? && p.value in GetDescendants(old(tabs), t))
        then Some(Save(State())) else old(stored)
      ensures lastActiveTabId == old(lastActiveTabId)
    {
      if t !in tabs {
        return;
      }
      if p.Some? {
        var descendants := GetDescendants(tabs, t);
        if p.value in descendants {
          return;
        }
      }
      UnlistTab(t, tabs[t].parentId);
      AdoptTab(t, p);
      UpdateChildLevels(t, {});
      SaveTreeStructure();
    }

    /**
     * The re-parenting half of `attachTabTo`: `t` takes `p` as its parent
     * and is appended to `p`'s children with `p`'s level + 1, or to the
     * roots with level 0.
     */
    method AdoptTab(t: TabId, p: Option<TabId>)
      requires t in tabs
      modifies this
      ensures tabs == Adopt(old(tabs), t, p)
      ensures roots == old(roots) + (if p.None? then [t] else []) && collapsed == old(collapsed)
      ensures lastActiveTabId == old(lastActiveTabId) && stored == old(stored)
    {
      AdoptInSteps(tabs, t, p);
      var t2 := tabs[t := tabs[t].(parentId := p)];
      match p
      case Some(q) =>
        if q in t2 {
          var t3 := t2[q := t2[q].(childIds := t2[q].childIds + [t])];
          tabs := t3[t := t3[t].(level := t3[q].level + 1)];
        } else {
          tabs := t2;
        }
      case None =>
        roots := roots + [t];
        tabs := t2[t := t2[t].(level := 0)];
    }

    /** `makeRootTab(t)`. */
    method MakeRootTab(t: TabId)
      modifies this
      ensures State() == MakeRoot(old(State()), t)
      ensures stored == if t in old(tabs) then Some(Save(State())) else old(stored)
      ensures lastActiveTabId == old(lastActiveTabId)
    {
      AttachTabTo(t, None);
    }

    /** Replaces `t`'s sibling list (its parent's children, or the roots) by `s`. */
    method SetSiblings(t: TabId, s: seq<TabId>)
      requires HasSiblings(State(), t)
      modifies this
      ensures var f := old(State());
        State() == if f.tabs[t].parentId.Some?
          then f.(tabs := f.tabs[f.tabs[t].parentId.value := f.tabs[f.tabs[t].parentId.value].(childIds := s)])
          else f.(roots := s)
      ensures lastActiveTabId == old(lastActiveTabId) && stored == old(stored)
    {
      match tabs[t].parentId
      case Some(q) => tabs := tabs[q := tabs[q].(childIds := s)];
      case None => roots := s;
    }

    /** `moveUp(t)`: saves when `t` moved. */
    method MoveUp(t: TabId)
      modifies this
      ensures State() == ForestOps.MoveUp(old(State()), t)
      ensures stored == if HasSiblings(old(State()), t) && IndexOf(SiblingList(old(State()), t), t) > 0
        then Some(Save(State())) else old(stored)
      ensures lastActiveTabId == old(lastActiveTabId)
    {
      if !HasSiblings(State(), t) {
        return;
      }
      var siblings := SiblingList(State(), t);
      var idx := IndexOf(siblings, t);
      if idx > 0 {
        var s2 := SpliceUp(siblings, t, idx);
        SetSiblings(t, s2);
        SaveTreeStructure();
      }
    }

    /**
     * `moveDown(t)`: saves unless `t` is last. When `t` is missing from its
     * list, `indexOf` gives -1 and `splice(-1, 1)` removes the last sibling.
     */
    method MoveDown(t: TabId)
      modifies this
      ensures State() == ForestOps.MoveDown(old(State()), t)
      ensures stored == if HasSiblings(old(State()), t) && IndexOf(SiblingList(old(State()), t), t) < |SiblingList(old(State()), t)| - 1
        then Some(Save(State())) else old(stored)
      ensures lastActiveTabId == old(lastActiveTabId)
    {
      if !HasSiblings(State(), t) {
        return;
      }
      var siblings := SiblingList(State(), t);
      var idx := IndexOf(siblings, t);
      if idx < |siblings| - 1 {
        var s2 := SpliceDown(siblings, t, idx);
        SetSiblings(t, s2);
        SaveTreeStructure();
      }
    }

    /**
     * The first loop of `syncWithZoteroTabs`: each host tab the map lacks
     * is added under the last active tab; every other one has its title,
     * type and selection refreshed. Returns the ids met.
     */
    method MergeHostTabs(h: HostTabs) returns (current: set<TabId>)
      modifies this
      ensures State() == MergeAll(old(State()), old(lastActiveTabId), h.tabs, h.selectedId)
      ensures stored == MergeStored(old(State()), old(lastActiveTabId), h.tabs, h.selectedId, old(stored))
      ensures current == HostIds(h.tabs) && tabs.Keys == old(tabs).Keys + current
      ensures forall k :: k in current ==>
        tabs[k].title == DisplayTitle(LastEntry(h.tabs, k).value) && tabs[k].tabType == LastEntry(h.tabs, k).value.tabType
      ensures forall k :: k in tabs ==> tabs[k].collapsed == (k in old(tabs) && old(tabs)[k].collapsed)
      ensures collapsed == old(collapsed) && lastActiveTabId == old(lastActiveTabId)
    {
      ghost var f0 := State();
      var hs := h.tabs;
      current := {};
      var i := 0;
      while i < |hs|
        invariant 0 <= i <= |hs|
        invariant current == HostIds(hs[..i])
        invariant MergeAll(State(), lastActiveTabId, hs[i..], h.selectedId) == MergeAll(f0, old(lastActiveTabId), hs, h.selectedId)
        invariant MergeStored(State(), lastActiveTabId, hs[i..], h.selectedId, stored)
          == MergeStored(f0, old(lastActiveTabId), hs, h.selectedId, old(stored))
        invariant lastActiveTabId == old(lastActiveTabId)
      {
        var zt := hs[i];
        MergeStep(State(), lastActiveTabId, hs, i, h.selectedId, stored);
        HostIdsSnoc(hs, i);
        current := current + {zt.id};
        MergeHostTab(zt, h.selectedId);
        i := i + 1;
      }
      assert hs[..i] == hs;
      MergeAllResult(f0, lastActiveTabId, hs, h.selectedId);
    }

    /** One pass of the first loop of `syncWithZoteroTabs`, for the host tab `zt`; `addTab` saves. */
    method MergeHostTab(zt: HostTab, selectedId: Option<TabId>)
      modifies this
      ensures State() == MergeEntry(old(State()), old(lastActiveTabId), zt, selectedId)
      ensures stored == if zt.id in old(tabs) then old(stored) else Some(Save(State()))
      ensures tabs.Keys == old(tabs).Keys + {zt.id}
      ensures tabs[zt.id].title == DisplayTitle(zt) && tabs[zt.id].tabType == zt.tabType
      ensures forall k :: k in old(tabs) && k != zt.id ==>
        tabs[k].title == old(tabs)[k].title && tabs[k].tabType == old(tabs)[k].tabType
      ensures forall k :: k in tabs ==> tabs[k].collapsed == (k in old(tabs) && old(tabs)[k].collapsed)
      ensures collapsed == old(collapsed) && lastActiveTabId == old(lastActiveTabId)
    {
      ghost var f0 := State();
      if zt.id !in tabs {
        var _ := AddTab(zt.id, DisplayTitle(zt), zt.tabType, None);
      } else {
        var node := tabs[zt.id];
        tabs := tabs[zt.id := node.(title := DisplayTitle(zt), tabType := zt.tabType, selected := Some(zt.id) == selectedId)];
      }
      MergeEntryFacts(f0, lastActiveTabId, zt, selectedId);
    }

    /** `removeTabFromTree` on a known id, as the second loop of `syncWithZoteroTabs` sees it. */
    method RemoveKnown(id: TabId, collapseOnClose: bool)
      requires id in tabs
      modifies this
      ensures State() == RemoveTab(old(State()), id, collapseOnClose)
      ensures stored == Some(Save(State()))
      ensures tabs.Keys == old(tabs).Keys - {id}
      ensures forall k :: k in tabs ==> SameLabels(tabs[k], old(tabs)[k])
      ensures collapsed == old(collapsed) - {id} && lastActiveTabId == old(lastActiveTabId)
    {
      RemoveTabFromTree(id, collapseOnClose);
    }

    /**
     * The second loop of `syncWithZoteroTabs`: every node whose id is not
     * in `current` is removed. The source visits them in the map's
     * insertion order; here the order is left open and returned as
     * `order`, which lists each stale id once.
     */
    method RemoveStale(current: set<TabId>, collapseOnClose: bool) returns (ghost order: seq<TabId>)
      requires current <= tabs.Keys
      modifies this
      ensures NoDup(order) && forall k :: k in order <==> k in old(tabs) && k !in current
      ensures State() == RemoveAll(old(State()), order, collapseOnClose)
      ensures stored == if order == [] then old(stored) else Some(Save(State()))
      ensures tabs.Keys == current
      ensures forall k :: k in tabs ==> SameLabels(tabs[k], old(tabs)[k])
      ensures collapsed == old(collapsed) - (old(tabs).Keys - current)
      ensures lastActiveTabId == old(lastActiveTabId)
    {
      ghost var f0 := State();
      order := [];
      var stale := set k | k in tabs && k !in current;
      while stale != {}
        invariant stale <= tabs.Keys && tabs.Keys == current + stale && current !! stale
        invariant tabs.Keys <= f0.tabs.Keys
        invariant ListsGone(order, f0.tabs.Keys, tabs.Keys)
        invariant State() == RemoveAll(f0, order, collapseOnClose)
        invariant stored == if order == [] then old(stored) else Some(Save(State()))
        invariant lastActiveTabId == old(lastActiveTabId)
        decreases stale
      {
        var tabId :| tabId in stale;
        ghost var keys := tabs.Keys;
        RemoveKnown(tabId, collapseOnClose);
        RemovedOneMore(f0.tabs.Keys, keys, tabs.Keys, order, tabId);
        StaleShrinks(keys, tabs.Keys, current, stale, tabId);
        RemoveAllSnoc(f0, order, tabId, collapseOnClose);
        order := order + [tabId];
        stale := stale - {tabId};
      }
      RemoveAllKeys(f0, order, collapseOnClose);
      forall k | k in tabs ensures SameLabels(tabs[k], f0.tabs[k]) {
        RemoveAllLabels(f0, order, collapseOnClose, k);
      }
    }

    /**
     * `syncWithZoteroTabs(win)` with `host` the window's tab list (None
     * when it has none, and then nothing happens): afterwards the map
     * holds exactly the host's tabs, each titled from the host, selected
     * exactly when the host selects it, and the forest is saved. `order`
     * is the order in which the stale ids were removed; with promotion on
     * (`collapseOnClose`), a well-formed forest stays well formed.
     */
    method SyncWithZoteroTabs(host: Option<HostTabs>, collapseOnClose: bool) returns (ghost order: seq<TabId>)
      modifies this
      ensures host.None? ==> State() == old(State()) && stored == old(stored)
      ensures host.Some? ==>
        && NoDup(order) && (forall k :: k in order <==> k in old(tabs) && k !in HostIds(host.value.tabs))
        && State() == Sync(old(State()), old(lastActiveTabId), host.value, order, collapseOnClose)
      ensures host.Some? ==>
        && tabs.Keys == HostIds(host.value.tabs)
        && (forall k :: k in tabs ==>
              && tabs[k].title == DisplayTitle(LastEntry(host.value.tabs, k).value)
              && tabs[k].tabType == LastEntry(host.value.tabs, k).value.tabType)
        && (forall k :: k in tabs ==> (tabs[k].selected <==> Some(k) == host.value.selectedId))
        && (forall k :: k in tabs ==> tabs[k].collapsed == (k in old(tabs) && old(tabs)[k].collapsed))
        && collapsed == old(collapsed) - (old(tabs).Keys - HostIds(host.value.tabs))
        && stored == Some(Save(State()))
      ensures host.Some? && collapseOnClose && WellFormed(old(State())) ==> WellFormed(State())
      ensures lastActiveTabId == old(lastActiveTabId)
    {
      order := [];
      if host.None? {
        return;
      }
      ghost var f0 := State();
      var h := host.value;
      var current := MergeHostTabs(h);
      ghost var merged := tabs;
      assert collapsed == f0.collapsed && merged.Keys == f0.tabs.Keys + current;
      order := RemoveStale(current, collapseOnClose);
      assert merged.Keys - current == f0.tabs.Keys - current;
      assert collapsed == f0.collapsed - (f0.tabs.Keys - current);
      assert forall k :: k in tabs ==> SameLabels(tabs[k], merged[k]);
      assert forall k :: k in tabs ==> tabs[k].collapsed == (k in f0.tabs && f0.tabs[k].collapsed);
      SetSelection(h.selectedId);
      SaveTreeStructure();
      if collapseOnClose && WellFormed(f0) {
        ForestInvariant.SyncWellFormed(f0, old(lastActiveTabId), h, order);
      }
    }

    /**
     * `onTabAdded(ids)` with `host` the window's tab list: saves when a
     * tab was added.
     */
    method OnTabAdded(host: Option<HostTabs>, ids: seq<TabId>)
      modifies this
      ensures State() == AddFound(old(State()), old(lastActiveTabId), HostList(host), ids)
      ensures stored == if tabs.Keys == old(tabs).Keys then old(stored) else Some(Save(State()))
      ensures lastActiveTabId == old(lastActiveTabId)
    {
      var hs := HostList(host);
      var i := 0;
      while i < |ids|
        invariant 0 <= i <= |ids|
        invariant AddFound(State(), lastActiveTabId, hs, ids[i..]) == AddFound(old(State()), old(lastActiveTabId), hs, ids)
        invariant old(tabs).Keys <= tabs.Keys
        invariant stored == if tabs.Keys == old(tabs).Keys then old(stored) else Some(Save(State()))
        invariant lastActiveTabId == old(lastActiveTabId)
      {
        var id := ids[i];
        assert ids[i..][0] == id && ids[i..][1..] == ids[i + 1..];
        var zt := FirstEntry(hs, id);
        if zt.Some? && id !in tabs {
          var _ := AddTab(id, DisplayTitle(zt.value), zt.value.tabType, None);
        }
        i := i + 1;
      }
    }

    /** `onTabClosed(ids)`: saves when a known tab was removed. */
    method OnTabClosed(ids: seq<TabId>, collapseOnClose: bool)
      modifies this
      ensures State() == RemoveAll(old(State()), ids, collapseOnClose)
      ensures stored == if tabs.Keys == old(tabs).Keys then old(stored) else Some(Save(State()))
      ensures lastActiveTabId == old(lastActiveTabId)
    {
      var i := 0;
      while i < |ids|
        invariant 0 <= i <= |ids|
        invariant RemoveAll(State(), ids[i..], collapseOnClose) == RemoveAll(old(State()), ids, collapseOnClose)
        invariant tabs.Keys <= old(tabs).Keys
        invariant stored == if tabs.Keys == old(tabs).Keys then old(stored) else Some(Save(State()))
        invariant lastActiveTabId == old(lastActiveTabId)
      {
        assert ids[i..][0] == ids[i] && ids[i..][1..] == ids[i + 1..];
        RemoveTabFromTree(ids[i], collapseOnClose);
        i := i + 1;
      }
    }

    /**
     * `isTabVisible(id)`: walks the parent chain and answers false at the
     * first collapsed ancestor. `seen` stops the walk at a repeated id,
     * which only cyclic data produces.
     */
    method IsTabVisible(id: TabId) returns (visible: bool)
      ensures visible == IsVisible(tabs, id)
    {
      if id !in tabs {
        return false;
      }
      var current := tabs[id].parentId;
      var seen: set<TabId> := {};
      while current.Some?
        invariant seen <= tabs.Keys
        invariant VisibleFrom(tabs, current, seen) == IsVisible(tabs, id)
        decreases tabs.Keys - seen
      {
        var p := current.value;
        if p !in tabs || p in seen {
          break;
        }
        if tabs[p].collapsed {
          return false;
        }
        seen := seen + {p};
        current := tabs[p].parentId;
      }
      return true;
    }

    /** `getTab(id)`. */
    function GetTab(id: TabId): (r: Option<TabNode>)
      reads this
      ensures r.Some? <==> id in tabs
      ensures r.Some? ==> r.value == tabs[id]
    {
      if id in tabs then Some(tabs[id]) else None
    }
  }

  /** `order` lists once each id of `start` that `now` lacks, and nothing else. */
  ghost predicate ListsGone(order: seq<TabId>, start: set<TabId>, now: set<TabId>)
  {
    NoDup(order) && forall k :: k in order <==> k in start && k !in now
  }

  /** One more stale id removed: `order` grows by it and still lists exactly the ids gone. */
  lemma RemovedOneMore(start: set<TabId>, before: set<TabId>, after: set<TabId>, order: seq<TabId>, x: TabId)
    requires before <= start && x in before && after == before - {x}
    requires ListsGone(order, start, before)
    ensures ListsGone(order + [x], start, after)
  {
    NoDupConcat(order, [x]);
  }

  /** The map still holds the ids to keep and the stale ids not yet removed. */
  lemma StaleShrinks(before: set<TabId>, after: set<TabId>, current: set<TabId>, stale: set<TabId>, x: TabId)
    requires before == current + stale && current !! stale && x in stale && after == before - {x}
    ensures stale - {x} <= after && after == current + (stale - {x}) && current !! (stale - {x})
  {
  }

  /** The host's tab list, empty when the window has none. */
  function HostList(host: Option<HostTabs>): seq<HostTab>
  {
    if host.Some? then host.value.tabs else []
  }

  /** `moveUp`'s `splice(idx, 1)` and `splice(idx - 1, 0, t)`. */
  method SpliceUp(siblings: seq<TabId>, t: TabId, idx: int) returns (r: seq<TabId>)
    requires idx == IndexOf(siblings, t) && idx > 0
    ensures r == MoveUpIn(siblings, t)
  {
    var s1 := siblings[..idx] + siblings[idx + 1..];
    assert s1[..idx - 1] == siblings[..idx - 1];
    assert s1[idx - 1..] == [siblings[idx - 1]] + siblings[idx + 1..];
    r := s1[..idx - 1] + [t] + s1[idx - 1..];
    assert r == siblings[..idx - 1] + [t, siblings[idx - 1]] + siblings[idx + 1..];
    MoveUpInAt(siblings, t);
  }

  /**
   * `moveDown`'s `splice(idx, 1)` and `splice(idx + 1, 0, t)`; a start of
   * -1 counts from the end, so for a missing `t` the last sibling goes.
   */
  method SpliceDown(siblings: seq<TabId>, t: TabId, idx: int) returns (r: seq<TabId>)
    requires idx == IndexOf(siblings, t) && idx < |siblings| - 1
    ensures r == MoveDownIn(siblings, t)
  {
    if idx == -1 {
      var s1 := siblings[..|siblings| - 1] + siblings[|siblings|..];
      assert s1 == siblings[..|siblings| - 1];
      r := s1[..0] + [t] + s1[0..];
    } else {
      var s1 := siblings[..idx] + siblings[idx + 1..];
      assert s1[..idx + 1] == siblings[..idx] + [siblings[idx + 1]];
      assert s1[idx + 1..] == siblings[idx + 2..];
      r := s1[..idx + 1] + [t] + s1[idx + 1..];
      assert r == siblings[..idx] + [siblings[idx + 1], t] + siblings[idx + 2..];
      MoveDownInAt(siblings, t);
    }
  }
}
