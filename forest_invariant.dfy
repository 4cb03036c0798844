/**
 * Which operations of `TreeTabManager` keep the forest well formed
 * (`TabForest.WellFormed`), and where the ones that do not break it.
 */
module ForestInvariant {
  import opened Wrappers
  import opened SeqUtil
  import opened TabForest
  import opened ForestOps
  import opened Persistence
  import opened Reconcile

  // ---------------------------------------------------------------------
  // operations that only change flags
  // ---------------------------------------------------------------------

  /** `g` has `f`'s nodes, links and levels; only `collapsed` and `selected` flags may differ. */
  ghost predicate SameShape(f: Forest, g: Forest)
  {
    && g.tabs.Keys == f.tabs.Keys && g.roots == f.roots
    && forall k :: k in f.tabs ==> SameNode(f.tabs[k], g.tabs[k])
  }

  /** Two nodes with the same id, links and level. */
  predicate SameNode(a: TabNode, b: TabNode)
  {
    a.id == b.id && a.parentId == b.parentId && a.childIds == b.childIds && a.level == b.level
  }

  /** A change of flags that keeps the `collapsed` set in step keeps the forest well formed. */
  lemma SameShapeWellFormed(f: Forest, g: Forest)
    requires WellFormed(f) && SameShape(f, g) && CollapsedIndexed(g)
    ensures WellFormed(g)
  {
    SameShapeLinked(f, g);
    SameShapeLevelled(f, g);
    LevelsAcyclic(g.tabs);
  }

  lemma SameShapeLinked(f: Forest, g: Forest)
    requires Linked(f) && SameShape(f, g)
    ensures Linked(g)
  {
    forall p, x | p in g.tabs && x in g.tabs[p].childIds ensures x in g.tabs && g.tabs[x].parentId == Some(p) {
      assert SameNode(f.tabs[p], g.tabs[p]);
      assert SameNode(f.tabs[x], g.tabs[x]);
    }
    forall k | k in g.tabs ensures Listed(g, k) {
      assert Listed(f, k) && SameNode(f.tabs[k], g.tabs[k]);
    }
  }

  lemma SameShapeLevelled(f: Forest, g: Forest)
    requires Levelled(f.tabs) && SameShape(f, g)
    ensures Levelled(g.tabs)
  {
    forall k | k in g.tabs ensures LevelOK(g.tabs, k) {
      assert LevelOK(f.tabs, k) && SameNode(f.tabs[k], g.tabs[k]);
    }
  }

  /** `toggleCollapsed` keeps the forest well formed. */
  lemma ToggleWellFormed(f: Forest, id: TabId, autoCollapse: bool)
    requires WellFormed(f)
    ensures WellFormed(ToggleCollapsed(f, id, autoCollapse))
  {
    ToggleIndexed(f, id, autoCollapse);
    SameShapeWellFormed(f, ToggleCollapsed(f, id, autoCollapse));
  }

  /** `autoCollapseSiblings` keeps the forest well formed. */
  lemma AutoCollapseWellFormed(f: Forest, x: TabId)
    requires WellFormed(f)
    ensures WellFormed(AutoCollapseSiblings(f, x))
  {
    if x in f.tabs {
      CollapseWhereIndexed(f, Others(SiblingList(f, x), x));
    }
    SameShapeWellFormed(f, AutoCollapseSiblings(f, x));
  }

  /** `collapseAll` and `expandAll` keep the forest well formed. */
  lemma CollapseExpandWellFormed(f: Forest)
    requires WellFormed(f)
    ensures WellFormed(CollapseAll(f)) && WellFormed(ExpandAll(f))
  {
    CollapseExpandIndexed(f);
    SameShapeWellFormed(f, CollapseAll(f));
    SameShapeWellFormed(f, ExpandAll(f));
  }

  /**
   * Selection keeps the forest well formed, and in a well-formed forest
   * the flag follows the node's own `id`, as the source compares it.
   */
  lemma SelectWellFormed(f: Forest, sel: Option<TabId>)
    requires WellFormed(f)
    ensures WellFormed(Select(f, sel))
    ensures forall k :: k in f.tabs ==> Select(f, sel).tabs[k].selected == (Some(f.tabs[k].id) == sel)
  {
    SameShapeWellFormed(f, Select(f, sel));
  }

  /**
   * In a well-formed forest `collapseAll` adds each node's own `id` to the
   * set, as the source does.
   */
  lemma CollapseAllById(f: Forest)
    requires WellFormed(f)
    ensures CollapseAll(f).collapsed == f.collapsed + set k | k in f.tabs && |f.tabs[k].childIds| > 0 :: f.tabs[k].id
  {
    var a := set k | k in f.tabs && |f.tabs[k].childIds| > 0;
    var b := set k | k in f.tabs && |f.tabs[k].childIds| > 0 :: f.tabs[k].id;
    assert a == b;
  }

  // ---------------------------------------------------------------------
  // addTab
  // ---------------------------------------------------------------------

  /** Appending an id not yet present keeps a list free of repeats. */
  lemma SnocNoDup(s: seq<TabId>, x: TabId)
    requires NoDup(s) && x !in s
    ensures NoDup(s + [x])
  {
    NoDupConcat(s, [x]);
  }

  /** Adding a tab under a fresh id keeps the forest well formed, whatever parent it is given. */
  lemma AddTabWellFormed(f: Forest, id: TabId, title: string, tabType: string, parent: Option<TabId>)
    requires WellFormed(f) && id !in f.tabs
    ensures WellFormed(AddTab(f, id, title, tabType, parent))
  {
    var r := AddTab(f, id, title, tabType, parent);
    AddTabLinked(f, id, title, tabType, parent);
    AddTabLevelled(f, id, title, tabType, parent);
    LevelsAcyclic(r.tabs);
  }

  lemma AddTabLinked(f: Forest, id: TabId, title: string, tabType: string, parent: Option<TabId>)
    requires Linked(f) && id !in f.tabs
    ensures Linked(AddTab(f, id, title, tabType, parent))
  {
    var r := AddTab(f, id, title, tabType, parent);
    if parent.Some? && parent.value in f.tabs {
      SnocNoDup(f.tabs[parent.value].childIds, id);
    } else {
      SnocNoDup(f.roots, id);
    }
    AddTabLinksAgree(f, id, title, tabType, parent);
    AddTabAllListed(f, id, title, tabType, parent);
  }

  lemma AddTabLinksAgree(f: Forest, id: TabId, title: string, tabType: string, parent: Option<TabId>)
    requires LinksAgree(f.tabs) && id !in f.tabs
    ensures LinksAgree(AddTab(f, id, title, tabType, parent).tabs)
  {
    var r := AddTab(f, id, title, tabType, parent);
    forall q, x | q in r.tabs && x in r.tabs[q].childIds ensures x in r.tabs && r.tabs[x].parentId == Some(q) {
      if x != id {
        assert x in f.tabs[q].childIds;
      }
    }
  }

  lemma AddTabAllListed(f: Forest, id: TabId, title: string, tabType: string, parent: Option<TabId>)
    requires AllListed(f) && id !in f.tabs
    ensures AllListed(AddTab(f, id, title, tabType, parent))
  {
    var r := AddTab(f, id, title, tabType, parent);
    forall k | k in r.tabs ensures Listed(r, k) {
      if k != id {
        assert Listed(f, k);
      }
    }
  }

  lemma AddTabLevelled(f: Forest, id: TabId, title: string, tabType: string, parent: Option<TabId>)
    requires Levelled(f.tabs) && id !in f.tabs
    ensures Levelled(AddTab(f, id, title, tabType, parent).tabs)
  {
    var r := AddTab(f, id, title, tabType, parent);
    forall k | k in r.tabs ensures LevelOK(r.tabs, k) {
      if k != id {
        assert LevelOK(f.tabs, k);
      }
    }
  }

  // ---------------------------------------------------------------------
  // moveUp / moveDown
  // ---------------------------------------------------------------------

  /** Swapping two neighbours keeps a list free of repeats. */
  lemma SwapNoDup(s: seq<TabId>, i: int)
    requires NoDup(s) && 0 <= i < |s| - 1
    ensures NoDup(s[..i] + [s[i + 1], s[i]] + s[i + 2..])
  {
    var r := s[..i] + [s[i + 1], s[i]] + s[i + 2..];
    SwapAdjacent(s, i);
    forall a, b | 0 <= a < b < |r| ensures r[a] != r[b] {
      var sa := if a == i then i + 1 else if a == i + 1 then i else a;
      var sb := if b == i then i + 1 else if b == i + 1 then i else b;
      assert r[a] == s[sa] && r[b] == s[sb] && sa != sb;
    }
  }

  /** A move within a sibling list keeps its members and keeps it free of repeats. */
  lemma MoveInKeeps(s: seq<TabId>, x: TabId, up: bool)
    requires NoDup(s) && x in s
    ensures var r := if up then MoveUpIn(s, x) else MoveDownIn(s, x);
      NoDup(r) && forall y :: y in r <==> y in s
  {
    var r := if up then MoveUpIn(s, x) else MoveDownIn(s, x);
    var i := IndexOf(s, x);
    assert multiset(r) == multiset(s);
    forall y ensures y in r <==> y in s {
      assert y in r <==> y in multiset(r);
      assert y in s <==> y in multiset(s);
    }
    if up && i > 0 {
      MoveUpInAt(s, x);
      SwapNoDup(s, i - 1);
      assert s[..i - 1] + [s[i], s[i - 1]] + s[i + 1..] == r;
    } else if !up && i < |s| - 1 {
      MoveDownInAt(s, x);
      SwapNoDup(s, i);
    }
  }

  /** `moveUp` and `moveDown` keep the forest well formed. */
  lemma ReorderWellFormed(f: Forest, t: TabId, up: bool)
    requires WellFormed(f)
    ensures WellFormed(if up then MoveUp(f, t) else MoveDown(f, t))
  {
    var r := if up then MoveUp(f, t) else MoveDown(f, t);
    if HasSiblings(f, t) {
      ReorderLinked(f, t, up);
      ReorderLevelled(f, t, up);
      LevelsAcyclic(r.tabs);
    }
  }

  lemma ReorderLinked(f: Forest, t: TabId, up: bool)
    requires Linked(f) && HasSiblings(f, t)
    ensures Linked(if up then MoveUp(f, t) else MoveDown(f, t))
  {
    var r := if up then MoveUp(f, t) else MoveDown(f, t);
    assert Listed(f, t);
    MoveInKeeps(SiblingList(f, t), t, up);
    SiblingsPermutedLinked(f, r, t);
  }

  /** Replacing one sibling list by a repeat-free list of the same members keeps the links. */
  lemma SiblingsPermutedLinked(f: Forest, g: Forest, t: TabId)
    requires Linked(f) && HasSiblings(f, t) && SameButSiblings(f, g, t)
    requires NoDup(SiblingList(g, t)) && forall y :: y in SiblingList(g, t) <==> y in SiblingList(f, t)
    ensures Linked(g)
  {
    var par := f.tabs[t].parentId;
    assert g.tabs[t].parentId == par;
    if par.None? {
      assert g.tabs == f.tabs;
      forall k | k in g.tabs ensures Listed(g, k) {
        assert Listed(f, k);
      }
    } else {
      var p := par.value;
      assert g.roots == f.roots;
      assert forall k :: k in f.tabs && k != p ==> g.tabs[k] == f.tabs[k];
      forall q, x | q in g.tabs && x in g.tabs[q].childIds ensures x in g.tabs && g.tabs[x].parentId == Some(q) {
        assert x in f.tabs[q].childIds;
      }
      forall k | k in g.tabs ensures Listed(g, k) {
        assert Listed(f, k);
      }
      assert IdsMatch(g.tabs);
      assert ChildListsNoDup(g.tabs);
    }
  }

  lemma ReorderLevelled(f: Forest, t: TabId, up: bool)
    requires Levelled(f.tabs) && HasSiblings(f, t)
    ensures Levelled((if up then MoveUp(f, t) else MoveDown(f, t)).tabs)
  {
    var r := if up then MoveUp(f, t) else MoveDown(f, t);
    forall k | k in r.tabs ensures LevelOK(r.tabs, k) {
      assert LevelOK(f.tabs, k);
    }
  }

  // ---------------------------------------------------------------------
  // attachTabTo / makeRootTab
  // ---------------------------------------------------------------------

  /** The moves `attachTabTo` accepts and keeps well formed: to no parent, or to a stored node outside `t`'s subtree. */
  ghost predicate GoodTarget(f: Forest, t: TabId, p: Option<TabId>)
  {
    p.None? || (p.value in f.tabs && p.value != t && p.value !in GetDescendants(f.tabs, t))
  }

  /**
   * A move to a good target keeps the forest well formed, puts `t` at
   * level 0 (no parent) or one below its new parent, leaves every node
   * outside `t`'s subtree at its level, and keeps `t`'s subtree.
   */
  lemma AttachToWellFormed(f: Forest, t: TabId, p: Option<TabId>)
    requires WellFormed(f) && t in f.tabs && GoodTarget(f, t, p)
    ensures var r := AttachTo(f, t, p);
      && WellFormed(r)
      && r.tabs[t].level == (if p.None? then 0 else f.tabs[p.value].level + 1)
      && (forall k :: k in f.tabs && k != t && k !in GetDescendants(f.tabs, t) ==> r.tabs[k].level == f.tabs[k].level)
      && (forall k :: k in GetDescendants(f.tabs, t) ==>
            k in r.tabs && r.tabs[k].level == f.tabs[k].level + r.tabs[t].level - f.tabs[t].level)
      && GetDescendants(r.tabs, t) == GetDescendants(f.tabs, t)
  {
    var r := AttachTo(f, t, p);
    assert Listed(f, t);
    if f.tabs[t].parentId.Some? {
      NotOwnChild(f.tabs, f.tabs[t].parentId.value, t);
    }
    AttachToLinked(f, t, p);
    AttachToLevelled(f, t, p);
    LevelsAcyclic(r.tabs);
    assert CollapsedIndexed(r) by {
      forall k | k in r.tabs ensures r.tabs[k].collapsed == f.tabs[k].collapsed {
        assert SameLabels(r.tabs[k], f.tabs[k]);
      }
    }
  }

  /** `makeRootTab` keeps the forest well formed and puts `t` at level 0. */
  lemma MakeRootWellFormed(f: Forest, t: TabId)
    requires WellFormed(f)
    ensures WellFormed(MakeRoot(f, t))
    ensures t in f.tabs ==> MakeRoot(f, t).tabs[t].level == 0
  {
    if t in f.tabs {
      AttachToWellFormed(f, t, None);
    }
  }

  /**
   * `g`'s lists are `f`'s after `t` has moved to `p`: `t` loses its first
   * occurrence in its old list and is appended to the new one, and no
   * other node changes its parent or its children.
   */
  ghost predicate MovedLists(f: Forest, g: Forest, t: TabId, p: Option<TabId>)
    requires t in f.tabs
  {
    var old_ := f.tabs[t].parentId;
    && g.tabs.Keys == f.tabs.Keys
    && g.tabs[t].parentId == p
    && (forall k :: k in f.tabs && k != t ==> g.tabs[k].parentId == f.tabs[k].parentId)
    && (forall k :: k in f.tabs && Some(k) != old_ && Some(k) != p ==> g.tabs[k].childIds == f.tabs[k].childIds)
    && (old_.Some? && old_.value in f.tabs && old_ != p ==>
          g.tabs[old_.value].childIds == RemoveFirst(f.tabs[old_.value].childIds, t))
    && (p.Some? && p.value in f.tabs ==>
          g.tabs[p.value].childIds ==
            (if old_ == p then RemoveFirst(f.tabs[p.value].childIds, t) else f.tabs[p.value].childIds) + [t])
    && g.roots == (if old_.None? then RemoveFirst(f.roots, t) else f.roots) + (if p.None? then [t] else [])
  }

  /**
   * Where a move leaves each list: `t` leaves whatever list held it and
   * joins the new parent's list (or the roots), and the lists stay free of
   * repeats.
   */
  lemma MovedMembers(f: Forest, g: Forest, t: TabId, p: Option<TabId>)
    requires Linked(f) && t in f.tabs && f.tabs[t].parentId != Some(t)
    requires p.Some? ==> p.value in f.tabs
    requires MovedLists(f, g, t, p)
    ensures forall q, x :: q in f.tabs ==>
      (x in g.tabs[q].childIds <==> (x in f.tabs[q].childIds && x != t) || (p == Some(q) && x == t))
    ensures forall q :: q in f.tabs ==> NoDup(g.tabs[q].childIds)
    ensures forall x :: x in g.roots <==> (x in f.roots && x != t) || (p.None? && x == t)
    ensures NoDup(g.roots)
  {
    var old_ := f.tabs[t].parentId;
    assert Listed(f, t);
    forall q | q in f.tabs
      ensures forall x :: x in g.tabs[q].childIds <==> (x in f.tabs[q].childIds && x != t) || (p == Some(q) && x == t)
      ensures NoDup(g.tabs[q].childIds)
    {
      var s := f.tabs[q].childIds;
      assert NoDup(s);
      RemoveFirstNoDup(s, t);
      assert t in s ==> f.tabs[t].parentId == Some(q);
      if p == Some(q) {
        var base := if old_ == p then RemoveFirst(s, t) else s;
        SnocNoDup(base, t);
      }
    }
    RemoveFirstNoDup(f.roots, t);
    assert t in f.roots ==> old_.None?;
    if p.None? {
      SnocNoDup(if old_.None? then RemoveFirst(f.roots, t) else f.roots, t);
    }
  }

  /** A move of `t` with repeat-free lists keeps the links, lists and ids agreeing. */
  lemma MovedLinked(f: Forest, g: Forest, t: TabId, p: Option<TabId>)
    requires Linked(f) && t in f.tabs && f.tabs[t].parentId != Some(t)
    requires p.Some? ==> p.value in f.tabs
    requires MovedLists(f, g, t, p) && IdsMatch(g.tabs)
    ensures Linked(g)
  {
    MovedMembers(f, g, t, p);
    MovedLinksAgree(f, g, t, p);
    MovedAllListed(f, g, t, p);
  }

  /** After the move every child entry still names a node whose parent link points back. */
  lemma MovedLinksAgree(f: Forest, g: Forest, t: TabId, p: Option<TabId>)
    requires Linked(f) && t in f.tabs && f.tabs[t].parentId != Some(t)
    requires p.Some? ==> p.value in f.tabs
    requires MovedLists(f, g, t, p)
    ensures LinksAgree(g.tabs)
  {
    MovedMembers(f, g, t, p);
    forall q, x | q in g.tabs && x in g.tabs[q].childIds ensures x in g.tabs && g.tabs[x].parentId == Some(q) {
      if x != t {
        assert x in f.tabs[q].childIds;
      }
    }
  }

  /** After the move every node is still listed where its parent link says. */
  lemma MovedAllListed(f: Forest, g: Forest, t: TabId, p: Option<TabId>)
    requires Linked(f) && t in f.tabs && f.tabs[t].parentId != Some(t)
    requires p.Some? ==> p.value in f.tabs
    requires MovedLists(f, g, t, p)
    ensures AllListed(g)
  {
    MovedMembers(f, g, t, p);
    forall k | k in g.tabs ensures Listed(g, k) {
      assert Listed(f, k);
    }
  }

  lemma AttachToLinked(f: Forest, t: TabId, p: Option<TabId>)
    requires Linked(f) && t in f.tabs && f.tabs[t].parentId != Some(t) && GoodTarget(f, t, p)
    ensures Linked(AttachTo(f, t, p))
  {
    var r := AttachTo(f, t, p);
    AttachToLists(f, t, p);
    assert MovedLists(f, r, t, p);
    assert IdsMatch(r.tabs) by {
      forall k | k in r.tabs ensures r.tabs[k].id == k {
        assert SameLabels(r.tabs[k], f.tabs[k]);
      }
    }
    MovedLinked(f, r, t, p);
  }

  /** In tree-shaped data every id below `t` is a stored node deeper than `t`. */
  lemma BelowIsDeeper(tabs: Tabs, t: TabId)
    requires LinksAgree(tabs) && Levelled(tabs)
    ensures forall x :: x in GetDescendants(tabs, t) ==> x in tabs && tabs[x].level > tabs[t].level
  {
    forall x | x in GetDescendants(tabs, t) ensures x in tabs && tabs[x].level > tabs[t].level {
      var n: nat :| ReachesIn(tabs, t, x, n);
      ChainUp(tabs, t, x, n);
    }
  }

  /** The children of `t` and of every id below it lie below `t`. */
  lemma WalkHoldsChildren(tabs: Tabs, t: TabId)
    requires t in tabs
    ensures forall q, x :: (q == t || q in GetDescendants(tabs, t)) && q in tabs && x in tabs[q].childIds ==>
      x in GetDescendants(tabs, t)
  {
    DescendantsClosed(tabs, t, {});
    forall q | q in GetDescendants(tabs, t) && q in tabs && q != t
      ensures ChildrenListed(tabs, q, GetDescendants(tabs, t))
    {
    }
  }

  /**
   * The levels after a move to a good target: `t` sits at level 0 or one
   * below its new parent, its subtree is relevelled beneath it, and every
   * other node keeps its level.
   */
  lemma AttachToLevelled(f: Forest, t: TabId, p: Option<TabId>)
    requires TreeShaped(f.tabs) && AllListed(f) && t in f.tabs && GoodTarget(f, t, p)
    ensures var r := AttachTo(f, t, p);
      && Levelled(r.tabs)
      && r.tabs[t].level == (if p.None? then 0 else f.tabs[p.value].level + 1)
      && (forall k :: k in f.tabs && k != t && k !in GetDescendants(f.tabs, t) ==> r.tabs[k].level == f.tabs[k].level)
      && (forall k :: k in GetDescendants(f.tabs, t) ==>
            k in r.tabs && r.tabs[k].level == f.tabs[k].level + r.tabs[t].level - f.tabs[t].level)
      && GetDescendants(r.tabs, t) == GetDescendants(f.tabs, t)
  {
    var a := Adopt(Unlist(f, t, f.tabs[t].parentId).tabs, t, p);
    var r := Relevel(a, t, {});
    var d := GetDescendants(f.tabs, t);
    AttachToAdopts(f, t, p);
    BelowIsDeeper(f.tabs, t);
    assert LevelOK(f.tabs, t);
    // the lists that change, the old parent's and the new one's, lie outside t's subtree
    ListsOutsideSubtree(f.tabs, a, t, p, d);
    RelevelSubtree(f.tabs, a, t);
    RegraftLevelled(f, a, r, t, p);
    assert RelevelledUnder(f.tabs, r, t);
    SubtreeShift(f.tabs, r, t, r[t].level - f.tabs[t].level);
  }

  /** The two lists a move changes, the old parent's and the new one's, lie outside `t`'s subtree. */
  lemma ListsOutsideSubtree(tabs: Tabs, a: Tabs, t: TabId, p: Option<TabId>, d: seq<TabId>)
    requires t in tabs && a.Keys == tabs.Keys && LevelOK(tabs, t)
    requires forall k :: k in tabs && Some(k) != tabs[t].parentId && Some(k) != p ==> a[k].childIds == tabs[k].childIds
    requires forall x :: x in d ==> x in tabs && tabs[x].level > tabs[t].level
    requires p.Some? ==> p.value != t && p.value !in d
    ensures forall k :: k == t || k in d ==> k in tabs && a[k].childIds == tabs[k].childIds
  {
    forall k | k == t || k in d ensures k in tabs && a[k].childIds == tabs[k].childIds {
      assert tabs[k].level >= tabs[t].level;
      assert Some(k) != tabs[t].parentId;
    }
  }

  /** The two steps of a move before the relevelling: `t` leaves its old list and is adopted by `p`. */
  lemma AttachToAdopts(f: Forest, t: TabId, p: Option<TabId>)
    requires t in f.tabs && GoodTarget(f, t, p)
    ensures var old_ := f.tabs[t].parentId;
      var a := Adopt(Unlist(f, t, old_).tabs, t, p);
      && AttachTo(f, t, p).tabs == Relevel(a, t, {})
      && a.Keys == f.tabs.Keys && a[t].parentId == p
      && (forall k :: k in f.tabs && k != t ==> a[k].parentId == f.tabs[k].parentId && a[k].level == f.tabs[k].level)
      && (forall k :: k in f.tabs && Some(k) != old_ && Some(k) != p ==> a[k].childIds == f.tabs[k].childIds)
      && (p.None? ==> a[t].level == 0)
      && (p.Some? ==> a[t].level == f.tabs[p.value].level + 1)
  {
    var old_ := f.tabs[t].parentId;
    var u := Unlist(f, t, old_).tabs;
    AttachToIs(f, t, p);
    AdoptAfterUnlist(f.tabs, u, t, p, old_);
  }

  /** A move to a good target unlists `t`, lets `p` adopt it and relevels its subtree. */
  lemma AttachToIs(f: Forest, t: TabId, p: Option<TabId>)
    requires t in f.tabs && GoodTarget(f, t, p)
    ensures AttachTo(f, t, p).tabs == Relevel(Adopt(Unlist(f, t, f.tabs[t].parentId).tabs, t, p), t, {})
  {
    var f1 := Unlist(f, t, f.tabs[t].parentId);
    assert AttachTo(f, t, p) == Forest(Relevel(Adopt(f1.tabs, t, p), t, {}), f1.roots + (if p.None? then [t] else []), f1.collapsed);
  }

  /** Adoption after `t` left its old list: what changes and what is kept, in terms of the map before both steps. */
  lemma AdoptAfterUnlist(tabs: Tabs, u: Tabs, t: TabId, p: Option<TabId>, old_: Option<TabId>)
    requires t in tabs && u.Keys == tabs.Keys
    requires forall k :: k in tabs && Some(k) != old_ ==> u[k] == tabs[k]
    requires forall k :: k in tabs ==> u[k].parentId == tabs[k].parentId && u[k].level == tabs[k].level
    requires p.Some? ==> p.value in tabs && p.value != t
    ensures var a := Adopt(u, t, p);
      && a.Keys == tabs.Keys && a[t].parentId == p
      && (forall k :: k in tabs && k != t ==> a[k].parentId == tabs[k].parentId && a[k].level == tabs[k].level)
      && (forall k :: k in tabs && Some(k) != old_ && Some(k) != p ==> a[k].childIds == tabs[k].childIds)
      && (p.None? ==> a[t].level == 0)
      && (p.Some? ==> a[t].level == tabs[p.value].level + 1)
  {
  }

  /**
   * Relevelling `t`'s subtree in a map whose lists in that subtree are the
   * tree-shaped `tabs`' own: `t` keeps its node, the subtree keeps its
   * ids, only its levels change, and each of its nodes ends with its
   * children one level below it.
   */
  lemma RelevelSubtree(tabs: Tabs, a: Tabs, t: TabId)
    requires TreeShaped(tabs) && t in tabs && a.Keys == tabs.Keys
    requires forall k :: k == t || k in GetDescendants(tabs, t) ==> k in tabs && a[k].childIds == tabs[k].childIds
    ensures var r := Relevel(a, t, {}); var d := GetDescendants(tabs, t);
      && SameButLevels(a, r) && r[t] == a[t]
      && (forall k :: k in tabs && k !in d ==> r[k] == a[k])
      && (forall q :: q == t || q in d ==> ChildLevelsOK(r, q))
      && GetDescendants(a, t) == d && GetDescendants(r, t) == d
  {
    var r := Relevel(a, t, {});
    var d := GetDescendants(tabs, t);
    forall k | k == t || k in d ensures SameAt(tabs, a, k) {
    }
    DescendantsLocal(tabs, a, t, {});
    WalkNoDup(tabs, t, {});
    NoDupConcat([t], d);
    RelevelLevels(a, t, {});
    RelevelFrame(a, t, {});
    DescendantsSameChildren(a, r, t, {});
  }

  /**
   * The level argument of a move: `a` re-parents `t` alone, keeping every
   * child list in `t`'s subtree and every other level, and `r` relevels
   * that subtree beneath `t`. Then every level in `r` is right.
   */
  lemma RegraftLevelled(f: Forest, a: Tabs, r: Tabs, t: TabId, p: Option<TabId>)
    requires TreeShaped(f.tabs) && AllListed(f) && t in f.tabs
    requires var tabs := f.tabs; var d := GetDescendants(tabs, t);
      && a.Keys == tabs.Keys && SameButLevels(a, r)
      && (forall k :: k in tabs && k != t ==> a[k].parentId == tabs[k].parentId && a[k].level == tabs[k].level)
      && (forall k :: k == t || k in d ==> k in tabs && a[k].childIds == tabs[k].childIds)
      && a[t].parentId == p && r[t] == a[t]
      && (p.None? ==> a[t].level == 0)
      && (p.Some? ==> p.value in tabs && p.value != t && p.value !in d && a[t].level == tabs[p.value].level + 1)
      && (forall k :: k in tabs && k !in d ==> r[k] == a[k])
      && forall q :: q == t || q in d ==> ChildLevelsOK(r, q)
    ensures Levelled(r)
  {
    var tabs := f.tabs;
    var d := GetDescendants(tabs, t);
    BelowIsDeeper(tabs, t);
    WalkHoldsChildren(tabs, t);
    forall k | k in r ensures LevelOK(r, k) {
      assert LevelOK(tabs, k) && Listed(f, k);
      if k == t {
        if p.Some? {
          assert r[p.value] == a[p.value];
        }
      } else if k in d {
        WalkParent(tabs, t, k);
        var q :| (q == t || q in d) && q in tabs && k in tabs[q].childIds;
        assert tabs[k].parentId == Some(q);
        assert r[q].childIds == tabs[q].childIds;
        assert ChildLevelsOK(r, q);
      } else {
        assert r[k] == a[k];
        match tabs[k].parentId
        case None =>
        case Some(g) =>
          assert k in tabs[g].childIds;
          assert r[g] == a[g];
      }
    }
  }

  /**
   * When every node of `c`'s subtree keeps its children and has them one
   * level below it in `r`, and `c` moved by `delta` levels, the whole
   * subtree moved by `delta`.
   */
  lemma SubtreeShift(tabs: Tabs, r: Tabs, c: TabId, delta: int)
    requires LinksAgree(tabs) && Levelled(tabs) && c in tabs && RelevelledUnder(tabs, r, c)
    requires r[c].level == tabs[c].level + delta
    ensures forall x :: x in GetDescendants(tabs, c) ==> x in r && r[x].level == tabs[x].level + delta
  {
    forall x | x in GetDescendants(tabs, c) ensures x in r && r[x].level == tabs[x].level + delta {
      var n: nat :| ReachesIn(tabs, c, x, n);
      SubtreeShiftIn(tabs, r, c, delta, x, n);
    }
  }

  /** Every node of `c`'s subtree has its children of `tabs` in `r`, one level below it. */
  ghost predicate RelevelledUnder(tabs: Tabs, r: Tabs, c: TabId)
  {
    forall k :: k == c || Reaches(tabs, c, k) ==>
      k in tabs && k in r && r[k].childIds == tabs[k].childIds && ChildLevelsOK(r, k)
  }

  lemma {:induction false} SubtreeShiftIn(tabs: Tabs, r: Tabs, c: TabId, delta: int, x: TabId, n: nat)
    requires LinksAgree(tabs) && Levelled(tabs) && c in tabs && RelevelledUnder(tabs, r, c)
    requires r[c].level == tabs[c].level + delta
    requires ReachesIn(tabs, c, x, n)
    ensures x in tabs && x in r && r[x].level == tabs[x].level + delta
    decreases n
  {
    assert Reaches(tabs, c, x);
    if n == 1 {
      ShiftStep(tabs, r, c, x, delta);
    } else {
      ReachesLast(tabs, c, x, n - 1);
      var q :| ReachesIn(tabs, c, q, n - 1) && q in tabs && x in tabs[q].childIds;
      SubtreeShiftIn(tabs, r, c, delta, q, n - 1);
      assert Reaches(tabs, c, q);
      ShiftStep(tabs, r, q, x, delta);
    }
  }

  /** A child keeps its offset from its parent's level. */
  lemma ShiftStep(tabs: Tabs, r: Tabs, q: TabId, x: TabId, delta: int)
    requires LinksAgree(tabs) && Levelled(tabs) && q in tabs && x in tabs[q].childIds
    requires q in r && r[q].childIds == tabs[q].childIds && ChildLevelsOK(r, q)
    requires r[q].level == tabs[q].level + delta
    requires x in r
    ensures x in tabs && r[x].level == tabs[x].level + delta
  {
    assert x in tabs && LevelOK(tabs, x);
  }

  // ---------------------------------------------------------------------
  // removeTabFromTree with promotion
  // ---------------------------------------------------------------------

  /** `k` is one of `kids` or lies below one of them. */
  ghost predicate UnderAny(tabs: Tabs, kids: seq<TabId>, k: TabId)
  {
    exists c :: c in kids && (k == c || Reaches(tabs, c, k))
  }

  /** The promotion pass for `c` sets levels exactly as relevelling the re-parented `c` does. */
  lemma PromoteLevelsAreRelevel(h: Forest, node: TabNode, c: TabId)
    requires c in h.tabs
    ensures Promote(h, node, c).tabs.Keys == h.tabs.Keys
    ensures var t1 := h.tabs[c := h.tabs[c].(parentId := node.parentId, level := node.level)];
      forall k :: k in h.tabs ==> Promote(h, node, c).tabs[k].level == Relevel(t1, c, {})[k].level
  {
    var t1 := h.tabs[c := h.tabs[c].(parentId := node.parentId, level := node.level)];
    var t2 := Relevel(t1, c, {});
    match node.parentId
    case Some(g) =>
      if g in t2 {
        assert Promote(h, node, c).tabs == t2[g := t2[g].(childIds := t2[g].childIds + [c])];
      } else {
        assert Promote(h, node, c).tabs == t2;
      }
    case None =>
      assert Promote(h, node, c).tabs == t2;
  }

  /**
   * One pass of the promotion loop, for a child `c` one level below the
   * removed node in the tree-shaped `f0`: `c` and its subtree move up one
   * level and every other node keeps its level. `h` is the forest the
   * earlier passes left, whose lists differ from `f0`'s only at the
   * grandparent.
   */
  lemma PromoteShift(f0: Forest, h: Forest, node: TabNode, c: TabId)
    requires TreeShaped(f0.tabs) && c in f0.tabs && f0.tabs[c].level == node.level + 1
    requires node.parentId.Some? ==> node.parentId.value != c && node.parentId.value !in GetDescendants(f0.tabs, c)
    requires h.tabs.Keys == f0.tabs.Keys
    requires forall k :: k in f0.tabs && Some(k) != node.parentId ==> h.tabs[k].childIds == f0.tabs[k].childIds
    ensures forall k :: k in f0.tabs ==>
      Promote(h, node, c).tabs[k].level ==
        if k == c || Reaches(f0.tabs, c, k) then f0.tabs[k].level - 1 else h.tabs[k].level
  {
    var t1 := h.tabs[c := h.tabs[c].(parentId := node.parentId, level := node.level)];
    PromoteShiftRelevel(f0, h, node, c);
    PromoteLevelsAreRelevel(h, node, c);
    ShiftCombine(f0.tabs, h.tabs, t1, Relevel(t1, c, {}), Promote(h, node, c).tabs, c, GetDescendants(f0.tabs, c));
  }

  /** The relevelling half of `PromoteShift`, before the promoted map is built. */
  lemma PromoteShiftRelevel(f0: Forest, h: Forest, node: TabNode, c: TabId)
    requires TreeShaped(f0.tabs) && c in f0.tabs && f0.tabs[c].level == node.level + 1
    requires node.parentId.Some? ==> node.parentId.value != c && node.parentId.value !in GetDescendants(f0.tabs, c)
    requires h.tabs.Keys == f0.tabs.Keys
    requires forall k :: k in f0.tabs && Some(k) != node.parentId ==> h.tabs[k].childIds == f0.tabs[k].childIds
    ensures var t1 := h.tabs[c := h.tabs[c].(parentId := node.parentId, level := node.level)];
      var r2 := Relevel(t1, c, {}); var d := GetDescendants(f0.tabs, c);
      && t1.Keys == f0.tabs.Keys && r2.Keys == f0.tabs.Keys
      && (forall k :: k in f0.tabs && k != c ==> t1[k] == h.tabs[k])
      && r2[c] == t1[c] && t1[c].level == f0.tabs[c].level - 1
      && (forall k :: k in f0.tabs && k !in d ==> r2[k] == t1[k])
      && (forall x :: x in d ==> x in r2 && r2[x].level == f0.tabs[x].level - 1)
  {
    var t1 := h.tabs[c := h.tabs[c].(parentId := node.parentId, level := node.level)];
    var d := GetDescendants(f0.tabs, c);
    ReparentKeepsLists(f0.tabs, h.tabs, node.parentId, c, d, node.level);
    RelevelRaisesSubtree(f0.tabs, t1, c, -1);
  }

  /** Re-parenting `c` alone keeps the child lists of `c` and the ids `d` below it. */
  lemma ReparentKeepsLists(f0: Tabs, h: Tabs, parent: Option<TabId>, c: TabId, d: seq<TabId>, lv: nat)
    requires c in f0 && h.Keys == f0.Keys && (parent.Some? ==> parent.value != c && parent.value !in d)
    requires forall k :: k in f0 && Some(k) != parent ==> h[k].childIds == f0[k].childIds
    requires forall x :: x in d ==> x in f0
    ensures var t1 := h[c := h[c].(parentId := parent, level := lv)];
      forall k :: k == c || k in d ==> t1[k].childIds == f0[k].childIds
  {
  }

  /**
   * Relevelling `c` in a map that keeps the child lists of `c`'s subtree
   * in the tree-shaped `tabs` moves the whole subtree by the amount `c`
   * moved, and leaves every other node alone.
   */
  lemma RelevelRaisesSubtree(tabs: Tabs, t1: Tabs, c: TabId, delta: int)
    requires TreeShaped(tabs) && c in tabs && t1.Keys == tabs.Keys
    requires forall k :: k == c || k in GetDescendants(tabs, c) ==> t1[k].childIds == tabs[k].childIds
    requires t1[c].level == tabs[c].level + delta
    ensures var r2 := Relevel(t1, c, {}); var d := GetDescendants(tabs, c);
      && r2.Keys == tabs.Keys && r2[c] == t1[c]
      && (forall k :: k in tabs && k !in d ==> r2[k] == t1[k])
      && (forall x :: x in d ==> x in r2 && r2[x].level == tabs[x].level + delta)
  {
    var r2 := Relevel(t1, c, {});
    RelevelSubtree(tabs, t1, c);
    assert RelevelledUnder(tabs, r2, c);
    SubtreeShift(tabs, r2, c, delta);
  }

  /**
   * The bookkeeping of `PromoteShift`: the promoted map has the relevelled
   * levels; the relevelling moved `c` and the ids below it up one level
   * and left every other node as the re-parenting left it.
   */
  lemma ShiftCombine(f0: Tabs, h: Tabs, t1: Tabs, r2: Tabs, pr: Tabs, c: TabId, d: seq<TabId>)
    requires c in f0 && h.Keys == f0.Keys && t1.Keys == f0.Keys && r2.Keys == f0.Keys && pr.Keys == h.Keys
    requires forall k :: k in h ==> pr[k].level == r2[k].level
    requires forall k :: k in f0 && k != c ==> t1[k] == h[k]
    requires r2[c] == t1[c] && t1[c].level == f0[c].level - 1
    requires forall k :: k in f0 && k !in d ==> r2[k] == t1[k]
    requires forall x :: x in d ==> x in r2 && r2[x].level == f0[x].level - 1
    requires forall x :: x in d <==> Reaches(f0, c, x)
    ensures forall k :: k in f0 ==>
      pr[k].level == if k == c || Reaches(f0, c, k) then f0[k].level - 1 else h[k].level
  {
  }

  /**
   * The promotion loop over children `kids` of the removed node `id` of
   * the well-formed `f0`: every node at or below one of `kids` ends one
   * level higher than in `f0`, and every other node keeps its level in `h`.
   */
  lemma {:induction false} PromoteChildrenLevels(f0: Forest, id: TabId, h: Forest, kids: seq<TabId>)
    requires TreeShaped(f0.tabs) && id in f0.tabs
    requires forall c :: c in kids ==> c in f0.tabs[id].childIds
    requires h.tabs.Keys == f0.tabs.Keys
    requires forall k :: k in f0.tabs && Some(k) != f0.tabs[id].parentId ==> h.tabs[k].childIds == f0.tabs[k].childIds
    ensures forall k :: k in f0.tabs ==>
      PromoteChildren(h, f0.tabs[id], kids).tabs[k].level ==
        if UnderAny(f0.tabs, kids, k) then f0.tabs[k].level - 1 else h.tabs[k].level
    decreases |kids|
  {
    var node := f0.tabs[id];
    if kids == [] {
      assert forall k :: !UnderAny(f0.tabs, kids, k);
    } else {
      var c := kids[0];
      var rest := kids[1..];
      assert c in f0.tabs[id].childIds;
      assert c in f0.tabs && LevelOK(f0.tabs, c) && LevelOK(f0.tabs, id);
      BelowIsDeeper(f0.tabs, c);
      var h1 := Promote(h, node, c);
      PromoteShift(f0, h, node, c);
      PromoteChildrenLevels(f0, id, h1, rest);
      assert PromoteChildren(h, node, kids) == PromoteChildren(h1, node, rest);
      forall k | k in f0.tabs
        ensures UnderAny(f0.tabs, kids, k) <==> (k == c || Reaches(f0.tabs, c, k)) || UnderAny(f0.tabs, rest, k)
      {
        UnderAnySplit(f0.tabs, kids, k);
      }
    }
  }

  /** Being at or below one of a list's ids splits into its first id and the rest. */
  lemma UnderAnySplit(tabs: Tabs, kids: seq<TabId>, k: TabId)
    requires kids != []
    ensures UnderAny(tabs, kids, k) <==>
      (k == kids[0] || Reaches(tabs, kids[0], k)) || UnderAny(tabs, kids[1..], k)
  {
    var c := kids[0];
    var rest := kids[1..];
    if UnderAny(tabs, rest, k) {
      var d :| d in rest && (k == d || Reaches(tabs, d, k));
      assert d in kids;
    }
    if UnderAny(tabs, kids, k) {
      var d :| d in kids && (k == d || Reaches(tabs, d, k));
      assert d == c || d in rest;
    }
    assert c in kids;
  }

  /** The ids below `id` are its children and the ids below them. */
  lemma ChildrenCover(tabs: Tabs, id: TabId, k: TabId)
    requires id in tabs
    ensures Reaches(tabs, id, k) <==> UnderAny(tabs, tabs[id].childIds, k)
  {
    if Reaches(tabs, id, k) {
      var n: nat :| ReachesIn(tabs, id, k, n);
      if n > 1 {
        var c :| c in tabs[id].childIds && ReachesIn(tabs, c, k, n - 1);
        assert Reaches(tabs, c, k);
      }
    }
    if UnderAny(tabs, tabs[id].childIds, k) {
      var c :| c in tabs[id].childIds && (k == c || Reaches(tabs, c, k));
      if k == c {
        assert ReachesIn(tabs, id, k, 1);
      } else {
        var n: nat :| ReachesIn(tabs, c, k, n);
        assert ReachesIn(tabs, id, k, n + 1);
      }
    }
  }

  /**
   * Removing `id` with promotion moves every node below it up one level
   * and leaves every other level alone.
   */
  lemma RemoveTabLevels(f: Forest, id: TabId)
    requires TreeShaped(f.tabs) && id in f.tabs
    ensures var r := RemoveTab(f, id, true);
      forall k :: k in r.tabs ==>
        r.tabs[k].level == f.tabs[k].level - (if k in GetDescendants(f.tabs, id) then 1 else 0)
  {
    var node := f.tabs[id];
    var f1 := PromoteChildren(f, node, node.childIds);
    PromoteChildrenLevels(f, id, f, node.childIds);
    var f2 := Unlist(f1, id, node.parentId);
    assert RemoveTab(f, id, true).tabs == f2.tabs - {id};
    forall k | k in f.tabs ensures f2.tabs[k].level == f1.tabs[k].level {
    }
    forall k | k in f.tabs ensures Reaches(f.tabs, id, k) <==> UnderAny(f.tabs, node.childIds, k) {
      ChildrenCover(f.tabs, id, k);
    }
  }

  /** When every child id names a node, the known ones are all of them. */
  lemma {:induction false} KnownIdsAll(kids: seq<TabId>, keys: set<TabId>)
    requires forall x :: x in kids ==> x in keys
    ensures KnownIds(kids, keys) == kids
  {
    if kids != [] {
      KnownIdsAll(kids[1..], keys);
      assert kids == [kids[0]] + kids[1..];
    }
  }

  /**
   * `g`'s lists are `f`'s after removing `id` and promoting its children
   * `kids`: they are appended to the grandparent's list (or pushed onto
   * the roots), `id` leaves its own list, and the children take `id`'s
   * parent.
   */
  ghost predicate RemovedLists(f: Forest, g: Forest, id: TabId)
    requires id in f.tabs
  {
    var node := f.tabs[id];
    var kids := node.childIds;
    && g.tabs.Keys == f.tabs.Keys - {id}
    && (node.parentId.None? ==> g.roots == RemoveFirst(PushAllAbsent(f.roots, kids), id))
    && (node.parentId.Some? ==> g.roots == f.roots)
    && (forall k :: k in g.tabs && Some(k) != node.parentId ==> g.tabs[k].childIds == f.tabs[k].childIds)
    && (node.parentId.Some? && node.parentId.value in g.tabs ==>
          g.tabs[node.parentId.value].childIds == RemoveFirst(f.tabs[node.parentId.value].childIds + kids, id))
    && (forall k :: k in g.tabs ==> g.tabs[k].parentId == (if k in kids then node.parentId else f.tabs[k].parentId))
  }

  /** Where a removal with promotion leaves each list, and that the lists stay free of repeats. */
  lemma RemovedMembers(f: Forest, g: Forest, id: TabId)
    requires Linked(f) && Acyclic(f.tabs) && id in f.tabs && RemovedLists(f, g, id)
    ensures var node := f.tabs[id];
      && (forall q, x :: q in g.tabs ==>
            (x in g.tabs[q].childIds <==>
               (x in f.tabs[q].childIds && x != id) || (Some(q) == node.parentId && x in node.childIds)))
      && (forall q :: q in g.tabs ==> NoDup(g.tabs[q].childIds))
      && (forall x :: x in g.roots <==> (x in f.roots && x != id) || (node.parentId.None? && x in node.childIds))
      && NoDup(g.roots)
  {
    var node := f.tabs[id];
    var kids := node.childIds;
    assert Listed(f, id) && NoDup(kids);
    forall x | x in kids ensures x in f.tabs && f.tabs[x].parentId == Some(id) && x != id {
      NotOwnChild(f.tabs, id, x);
    }
    forall q | q in g.tabs
      ensures forall x :: x in g.tabs[q].childIds <==>
        (x in f.tabs[q].childIds && x != id) || (Some(q) == node.parentId && x in kids)
      ensures NoDup(g.tabs[q].childIds)
    {
      var s := f.tabs[q].childIds;
      assert NoDup(s);
      assert id in s ==> node.parentId == Some(q);
      if Some(q) == node.parentId {
        assert forall x :: x in s ==> f.tabs[x].parentId == Some(q);
        NoDupConcat(s, kids);
        RemoveFirstNoDup(s + kids, id);
      }
    }
    if node.parentId.None? {
      PushAllAbsentMembers(f.roots, kids);
      RemoveFirstNoDup(PushAllAbsent(f.roots, kids), id);
    } else {
      assert id !in f.roots;
    }
  }

  /** A removal with promotion keeps the links, lists and ids agreeing. */
  lemma RemovedLinked(f: Forest, g: Forest, id: TabId)
    requires Linked(f) && Acyclic(f.tabs) && id in f.tabs && RemovedLists(f, g, id) && IdsMatch(g.tabs)
    ensures Linked(g)
  {
    RemovedLinksAgree(f, g, id);
    RemovedAllListed(f, g, id);
    RemovedRootsOK(f, g, id);
    assert ChildListsNoDup(g.tabs) by {
      RemovedMembers(f, g, id);
    }
  }

  lemma RemovedRootsOK(f: Forest, g: Forest, id: TabId)
    requires Linked(f) && Acyclic(f.tabs) && id in f.tabs && RemovedLists(f, g, id)
    ensures RootsOK(g)
  {
    var node := f.tabs[id];
    var kids := node.childIds;
    RemovedMembers(f, g, id);
    assert Listed(f, id);
    forall x | x in g.roots ensures x in g.tabs && g.tabs[x].parentId.None? {
      if x in f.roots && x != id {
        assert f.tabs[x].parentId.None?;
        assert x !in kids;
      } else {
        assert node.parentId.None? && x in kids;
        assert x in f.tabs && f.tabs[x].parentId == Some(id);
        NotOwnChild(f.tabs, id, x);
      }
    }
  }

  lemma RemovedLinksAgree(f: Forest, g: Forest, id: TabId)
    requires Linked(f) && Acyclic(f.tabs) && id in f.tabs && RemovedLists(f, g, id)
    ensures LinksAgree(g.tabs)
  {
    var node := f.tabs[id];
    var kids := node.childIds;
    RemovedMembers(f, g, id);
    assert Listed(f, id);
    if node.parentId.Some? {
      NotOwnChild(f.tabs, node.parentId.value, id);
    }
    forall q, x | q in g.tabs && x in g.tabs[q].childIds ensures x in g.tabs && g.tabs[x].parentId == Some(q) {
      assert x in kids ==> f.tabs[x].parentId == Some(id);
      if x !in kids {
        assert x in f.tabs[q].childIds;
      }
    }
  }

  lemma RemovedAllListed(f: Forest, g: Forest, id: TabId)
    requires Linked(f) && Acyclic(f.tabs) && id in f.tabs && RemovedLists(f, g, id)
    ensures AllListed(g)
  {
    var node := f.tabs[id];
    var kids := node.childIds;
    RemovedMembers(f, g, id);
    assert Listed(f, id);
    if node.parentId.Some? {
      NotOwnChild(f.tabs, node.parentId.value, id);
    }
    forall k | k in g.tabs ensures Listed(g, k) {
      assert Listed(f, k);
      assert f.tabs[k].parentId == Some(id) ==> k in kids;
    }
  }

  lemma RemovePromoteLinked(f: Forest, id: TabId)
    requires Linked(f) && Acyclic(f.tabs) && id in f.tabs
    ensures Linked(RemoveTab(f, id, true))
  {
    var r := RemoveTab(f, id, true);
    var kids := f.tabs[id].childIds;
    forall x | x in kids ensures x in f.tabs {
      assert x in f.tabs[id].childIds;
    }
    KnownIdsAll(kids, f.tabs.Keys);
    RemoveTabLists(f, id, true);
    assert RemovedLists(f, r, id);
    assert IdsMatch(r.tabs) by {
      forall k | k in r.tabs ensures r.tabs[k].id == k {
        assert SameLabels(r.tabs[k], f.tabs[k]);
      }
    }
    RemovedLinked(f, r, id);
  }

  /**
   * The level argument of a removal with promotion: when the children of
   * `id` take its parent and everything below `id` moves up one level,
   * every level in `g` is right.
   */
  lemma RemovedLevelled(f: Forest, g: Forest, id: TabId)
    requires TreeShaped(f.tabs) && AllListed(f) && id in f.tabs
    requires g.tabs.Keys == f.tabs.Keys - {id}
    requires forall k :: k in g.tabs ==>
      g.tabs[k].parentId == (if k in f.tabs[id].childIds then f.tabs[id].parentId else f.tabs[k].parentId)
    requires forall k :: k in g.tabs ==>
      g.tabs[k].level == f.tabs[k].level - (if k in GetDescendants(f.tabs, id) then 1 else 0)
    ensures Levelled(g.tabs)
  {
    var tabs := f.tabs;
    var d := GetDescendants(tabs, id);
    var kids := tabs[id].childIds;
    BelowIsDeeper(tabs, id);
    WalkHoldsChildren(tabs, id);
    assert LevelOK(tabs, id);
    forall k | k in g.tabs ensures LevelOK(g.tabs, k) {
      assert LevelOK(tabs, k) && Listed(f, k);
      if k in kids {
        assert k in d;
      } else if k in d {
        WalkParent(tabs, id, k);
        var q :| (q == id || q in d) && q in tabs && k in tabs[q].childIds;
        assert tabs[k].parentId == Some(q);
      }
    }
  }

  /**
   * With `collapseOnClose` on, removing a tab keeps the forest well formed
   * and moves every node below it up one level; every other node keeps
   * its level.
   */
  lemma RemovePromoteWellFormed(f: Forest, id: TabId)
    requires WellFormed(f)
    ensures var r := RemoveTab(f, id, true);
      && WellFormed(r)
      && (id in f.tabs ==> forall k :: k in r.tabs ==>
            r.tabs[k].level == f.tabs[k].level - (if k in GetDescendants(f.tabs, id) then 1 else 0))
  {
    if id in f.tabs {
      var r := RemoveTab(f, id, true);
      RemovePromoteLinked(f, id);
      RemoveTabLevels(f, id);
      RemoveTabLists(f, id, true);
      RemovedLevelled(f, r, id);
      LevelsAcyclic(r.tabs);
      assert CollapsedIndexed(r) by {
        forall k | k in r.tabs ensures r.tabs[k].collapsed == f.tabs[k].collapsed {
          assert SameLabels(r.tabs[k], f.tabs[k]);
        }
      }
    }
  }

  // ---------------------------------------------------------------------
  // onTabAdded / onTabClosed
  // ---------------------------------------------------------------------

  /** `onTabAdded` keeps the forest well formed: it adds only ids the map lacks. */
  lemma {:induction false} AddFoundWellFormed(f: Forest, lastActive: Option<TabId>, hs: seq<HostTab>, ids: seq<TabId>)
    requires WellFormed(f)
    ensures WellFormed(AddFound(f, lastActive, hs, ids))
    decreases |ids|
  {
    if ids != [] {
      var e := FirstEntry(hs, ids[0]);
      if e.Some? && ids[0] !in f.tabs {
        AddTabWellFormed(f, ids[0], DisplayTitle(e.value), e.value.tabType, lastActive);
      }
      var f1 := if e.Some? && ids[0] !in f.tabs then AddTab(f, ids[0], DisplayTitle(e.value), e.value.tabType, lastActive) else f;
      AddFoundWellFormed(f1, lastActive, hs, ids[1..]);
    }
  }

  /** One pass of the first loop of `syncWithZoteroTabs` keeps the forest well formed. */
  lemma MergeEntryWellFormed(f: Forest, lastActive: Option<TabId>, h: HostTab, sel: Option<TabId>)
    requires WellFormed(f)
    ensures WellFormed(MergeEntry(f, lastActive, h, sel))
  {
    if h.id !in f.tabs {
      AddTabWellFormed(f, h.id, DisplayTitle(h), h.tabType, lastActive);
    } else {
      var g := MergeEntry(f, lastActive, h, sel);
      assert CollapsedIndexed(g) by {
        forall k ensures k in g.collapsed <==> k in g.tabs && g.tabs[k].collapsed {
          assert k in f.collapsed <==> k in f.tabs && f.tabs[k].collapsed;
        }
      }
      SameShapeWellFormed(f, g);
    }
  }

  /** The first loop of `syncWithZoteroTabs` keeps the forest well formed. */
  lemma {:induction false} MergeAllWellFormed(f: Forest, lastActive: Option<TabId>, hs: seq<HostTab>, sel: Option<TabId>)
    requires WellFormed(f)
    ensures WellFormed(MergeAll(f, lastActive, hs, sel))
    decreases |hs|
  {
    if hs != [] {
      MergeEntryWellFormed(f, lastActive, hs[0], sel);
      MergeAllWellFormed(MergeEntry(f, lastActive, hs[0], sel), lastActive, hs[1..], sel);
    }
  }

  /**
   * With `collapseOnClose` on, `syncWithZoteroTabs` keeps the forest well
   * formed, whatever order the stale ids are removed in.
   */
  lemma SyncWellFormed(f: Forest, lastActive: Option<TabId>, h: HostTabs, order: seq<TabId>)
    requires WellFormed(f)
    ensures WellFormed(Sync(f, lastActive, h, order, true))
  {
    var m := MergeAll(f, lastActive, h.tabs, h.selectedId);
    MergeAllWellFormed(f, lastActive, h.tabs, h.selectedId);
    RemoveAllWellFormed(m, order);
    SelectWellFormed(RemoveAll(m, order, true), h.selectedId);
  }

  /** With `collapseOnClose` on, `onTabClosed` keeps the forest well formed. */
  lemma {:induction false} RemoveAllWellFormed(f: Forest, ids: seq<TabId>)
    requires WellFormed(f)
    ensures WellFormed(RemoveAll(f, ids, true))
    decreases |ids|
  {
    if ids != [] {
      RemovePromoteWellFormed(f, ids[0]);
      RemoveAllWellFormed(RemoveTab(f, ids[0], true), ids[1..]);
    }
  }

  // ---------------------------------------------------------------------
  // where the invariant breaks
  // ---------------------------------------------------------------------

  /**
   * Removing a tab without promotion (`collapseOnClose` off) leaves each
   * of its children pointing at the removed node, so the forest is no
   * longer well formed.
   */
  lemma RemoveWithoutPromoteBreaks(f: Forest, id: TabId, c: TabId)
    requires WellFormed(f) && id in f.tabs && c in f.tabs[id].childIds
    ensures var r := RemoveTab(f, id, false);
      && id !in r.tabs && c in r.tabs && r.tabs[c].parentId == Some(id)
      && !WellFormed(r)
  {
    var r := RemoveTab(f, id, false);
    RemoveTabLists(f, id, false);
    NotOwnChild(f.tabs, id, c);
    assert !Listed(r, c);
  }

  /**
   * Attaching a tab to an id that names no node records that id as its
   * parent while no node lists it, so the forest is no longer well formed.
   */
  lemma AttachToUnknownBreaks(f: Forest, t: TabId, p: TabId)
    requires WellFormed(f) && t in f.tabs && p !in f.tabs
    ensures var r := AttachTo(f, t, Some(p));
      r.tabs[t].parentId == Some(p) && !WellFormed(r)
  {
    AttachToLists(f, t, Some(p));
    assert !Listed(AttachTo(f, t, Some(p)), t);
  }

  /**
   * Restoring a saved forest keeps its links but puts every node at level
   * 0, so a forest in which some node has a parent does not come back well
   * formed.
   */
  lemma LoadLosesLevels(f: Forest, k: TabId)
    requires WellFormed(f) && k in f.tabs && f.tabs[k].parentId.Some?
    ensures var r := Load(EmptyForest, Some(Save(f)));
      && Linked(r) && CollapsedIndexed(r)
      && r.tabs[k].level == 0 && !WellFormed(r)
  {
    var r := Load(EmptyForest, Some(Save(f)));
    LoadSaveRestoresStructure(f);
    LoadSaveIndexed(f);
    LoadLinked(f);
    assert !LevelOK(r.tabs, k);
  }

  lemma LoadLinked(f: Forest)
    requires Linked(f)
    ensures Linked(Load(EmptyForest, Some(Save(f))))
  {
    var r := Load(EmptyForest, Some(Save(f)));
    LoadSaveRestoresStructure(f);
    assert IdsMatch(r.tabs);
    SameLinksLinked(f, r);
  }

  // ---------------------------------------------------------------------
  // facts about well-formed forests
  // ---------------------------------------------------------------------

  /** Two maps with the same keys whose nodes have the same parent and children. */
  ghost predicate SameLinks(a: Tabs, b: Tabs)
  {
    a.Keys == b.Keys && forall k :: k in a ==> b[k].parentId == a[k].parentId && b[k].childIds == a[k].childIds
  }

  /** The links, lists and ids of a forest depend on nothing but the parent and child links. */
  lemma SameLinksLinked(f: Forest, g: Forest)
    requires Linked(f) && SameLinks(f.tabs, g.tabs) && g.roots == f.roots && IdsMatch(g.tabs)
    ensures Linked(g)
  {
    forall p, x | p in g.tabs && x in g.tabs[p].childIds ensures x in g.tabs && g.tabs[x].parentId == Some(p) {
      assert x in f.tabs[p].childIds;
    }
    forall k | k in g.tabs ensures Listed(g, k) {
      assert Listed(f, k);
    }
    assert IdsMatch(g.tabs);
    assert LinksAgree(g.tabs);
    assert AllListed(g);
    assert RootsOK(g);
    assert ChildListsNoDup(g.tabs);
  }

  /** Without cycles no node lists itself as a child. */
  lemma NotOwnChild(tabs: Tabs, a: TabId, x: TabId)
    requires Acyclic(tabs) && a in tabs && x in tabs[a].childIds
    ensures x != a
  {
    assert ReachesIn(tabs, a, x, 1);
    assert Reaches(tabs, a, x);
  }
}
