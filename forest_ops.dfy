/**
 * The operations of `TreeTabManager` (src/modules/treeTabManager.ts) as
 * functions from the forest before the call to the forest after it. The
 * class in tree_tab_manager.dfy performs them in place and is proved to
 * reach exactly these forests.
 */
module ForestOps {
  import opened Wrappers
  import opened SeqUtil
  import opened TabForest

  /** The ids of `kids` that name a node, in order (the `if (child)` filter). */
  function KnownIds(kids: seq<TabId>, keys: set<TabId>): seq<TabId>
  {
    if kids == [] then []
    else (if kids[0] in keys then [kids[0]] else []) + KnownIds(kids[1..], keys)
  }

  lemma {:induction false} KnownIdsMembers(kids: seq<TabId>, keys: set<TabId>)
    ensures forall x :: x in KnownIds(kids, keys) <==> x in kids && x in keys
  {
    if kids != [] {
      KnownIdsMembers(kids[1..], keys);
      assert kids == [kids[0]] + kids[1..];
    }
  }

  /** Promotion to the roots: each id is pushed unless `roots` already lists it. */
  function PushAllAbsent(s: seq<TabId>, xs: seq<TabId>): seq<TabId>
    decreases |xs|
  {
    if xs == [] then s else PushAllAbsent(PushAbsent(s, xs[0]), xs[1..])
  }

  /** Pushing without repeats keeps a repeat-free list repeat-free and loses nothing. */
  lemma {:induction false} PushAllAbsentMembers(s: seq<TabId>, xs: seq<TabId>)
    ensures forall y :: y in PushAllAbsent(s, xs) <==> y in s || y in xs
    ensures NoDup(s) ==> NoDup(PushAllAbsent(s, xs))
    decreases |xs|
  {
    if xs != [] {
      PushAllAbsentMembers(PushAbsent(s, xs[0]), xs[1..]);
      assert xs == [xs[0]] + xs[1..];
    }
  }

  /** Nodes agree on everything but their position in the forest. */
  predicate SameLabels(a: TabNode, b: TabNode)
  {
    a.id == b.id && a.collapsed == b.collapsed && a.title == b.title
    && a.tabType == b.tabType && a.selected == b.selected
  }

  // ---------------------------------------------------------------------
  // addTab
  // ---------------------------------------------------------------------

  /**
   * `parentId || this.lastActiveTabId`: the caller's parent when it gave
   * one, otherwise the last active tab; no parent only when neither is set.
   */
  function EffectiveParent(parentId: Option<TabId>, lastActive: Option<TabId>): (r: Option<TabId>)
    ensures parentId.Some? ==> r == parentId
    ensures parentId.None? ==> r == lastActive
    ensures r.None? <==> parentId.None? && lastActive.None?
  {
    if parentId.Some? then parentId else lastActive
  }

  /**
   * `addTab(id, title, type, parentId)` with `parent` the effective parent:
   * a known parent receives `id` as its last child and the node its level
   * + 1; otherwise the node is a new last root with level 0.
   */
  function AddTab(f: Forest, id: TabId, title: string, tabType: string, parent: Option<TabId>): (r: Forest)
    ensures r.tabs.Keys == f.tabs.Keys + {id} && r.collapsed == f.collapsed
    ensures r.tabs[id].id == id && r.tabs[id].childIds == [] && r.tabs[id].title == title
    ensures r.tabs[id].tabType == tabType && !r.tabs[id].collapsed && !r.tabs[id].selected
    ensures parent.Some? && parent.value in f.tabs && parent.value != id ==>
      && r.tabs[id].parentId == parent
      && r.tabs[id].level == f.tabs[parent.value].level + 1
      && r.tabs[parent.value] == f.tabs[parent.value].(childIds := f.tabs[parent.value].childIds + [id])
      && r.roots == f.roots
    ensures !(parent.Some? && parent.value in f.tabs) ==>
      r.tabs[id].parentId == None && r.tabs[id].level == 0 && r.roots == f.roots + [id]
    ensures forall k :: k in f.tabs && k != id && Some(k) != parent ==> r.tabs[k] == f.tabs[k]
  {
    var node := TabNode(id, parent, [], 0, false, title, tabType, false);
    if parent.Some? && parent.value in f.tabs then
      var p := f.tabs[parent.value];
      var tabs := f.tabs[parent.value := p.(childIds := p.childIds + [id])];
      Forest(tabs[id := node.(level := p.level + 1)], f.roots, f.collapsed)
    else
      Forest(f.tabs[id := node.(parentId := None)], f.roots + [id], f.collapsed)
  }

  // ---------------------------------------------------------------------
  // removeTabFromTree
  // ---------------------------------------------------------------------

  /**
   * "Remove from parent's children": the first occurrence of `id` leaves
   * the child list of its parent (when that node exists) or, for a root,
   * the root list.
   */
  function Unlist(f: Forest, id: TabId, parentId: Option<TabId>): (r: Forest)
    ensures r.tabs.Keys == f.tabs.Keys && r.collapsed == f.collapsed
    ensures parentId.None? ==> r.tabs == f.tabs && r.roots == RemoveFirst(f.roots, id)
    ensures parentId.Some? ==> r.roots == f.roots
    ensures parentId.Some? && parentId.value in f.tabs ==>
      r.tabs[parentId.value] == f.tabs[parentId.value].(childIds := RemoveFirst(f.tabs[parentId.value].childIds, id))
    ensures forall k :: k in f.tabs && Some(k) != parentId ==> r.tabs[k] == f.tabs[k]
    ensures forall k :: k in f.tabs ==> r.tabs[k].parentId == f.tabs[k].parentId && r.tabs[k].level == f.tabs[k].level
  {
    match parentId
    case Some(p) =>
      if p in f.tabs then
        f.(tabs := f.tabs[p := f.tabs[p].(childIds := RemoveFirst(f.tabs[p].childIds, id))])
      else f
    case None => f.(roots := RemoveFirst(f.roots, id))
  }

  /**
   * One pass of the promotion loop for the child `c` of the removed
   * `node`: `c` takes the node's parent and level, its subtree is
   * relevelled, and it is pushed onto the grandparent's children or, when
   * the node was a root, onto the roots unless already there.
   */
  function Promote(f: Forest, node: TabNode, c: TabId): (r: Forest)
    requires c in f.tabs
    ensures r.tabs.Keys == f.tabs.Keys && r.collapsed == f.collapsed
    ensures forall k :: k in f.tabs ==>
      r.tabs[k] == f.tabs[k].(
        parentId := if k == c then node.parentId else f.tabs[k].parentId,
        childIds := f.tabs[k].childIds + (if Some(k) == node.parentId then [c] else []),
        level := r.tabs[k].level)
    ensures r.roots == if node.parentId.None? then PushAbsent(f.roots, c) else f.roots
  {
    var t1 := f.tabs[c := f.tabs[c].(parentId := node.parentId, level := node.level)];
    var t2 := Relevel(t1, c, {});
    PromoteTabs(f.tabs, node, c);
    match node.parentId
    case Some(g) =>
      Forest(if g in t2 then t2[g := t2[g].(childIds := t2[g].childIds + [c])] else t2, f.roots, f.collapsed)
    case None =>
      Forest(t2, PushAbsent(f.roots, c), f.collapsed)
  }

  /** Re-parenting `c` and relevelling its subtree changes only `c`'s parent and levels. */
  lemma PromoteTabs(tabs: Tabs, node: TabNode, c: TabId)
    requires c in tabs
    ensures var t2 := Relevel(tabs[c := tabs[c].(parentId := node.parentId, level := node.level)], c, {});
      && t2.Keys == tabs.Keys
      && forall k :: k in tabs ==>
           t2[k] == tabs[k].(parentId := if k == c then node.parentId else tabs[k].parentId, level := t2[k].level)
  {
    var t1 := tabs[c := tabs[c].(parentId := node.parentId, level := node.level)];
    var t2 := Relevel(t1, c, {});
    forall k | k in tabs
      ensures t2[k] == tabs[k].(parentId := if k == c then node.parentId else tabs[k].parentId, level := t2[k].level)
    {
      assert t2[k] == t1[k].(level := t2[k].level);
    }
  }

  /**
   * The promoted child takes the removed node's level, unless it lies
   * below itself (cyclic data), where the relevelling reaches it again.
   */
  lemma PromoteLevel(f: Forest, node: TabNode, c: TabId)
    requires c in f.tabs && c !in Descendants(f.tabs, c, {})
    ensures Promote(f, node, c).tabs[c].level == node.level
  {
    var t1 := f.tabs[c := f.tabs[c].(parentId := node.parentId, level := node.level)];
    assert SameChildren(f.tabs, t1);
    DescendantsSameChildren(f.tabs, t1, c, {});
    RelevelFrame(t1, c, {});
    assert Relevel(t1, c, {})[c].level == node.level;
    PromoteLevelIsRelevel(f, node, c);
  }

  /** The promoted child's level is the one the relevelling of its subtree leaves. */
  lemma PromoteLevelIsRelevel(f: Forest, node: TabNode, c: TabId)
    requires c in f.tabs
    ensures Promote(f, node, c).tabs[c].level ==
      Relevel(f.tabs[c := f.tabs[c].(parentId := node.parentId, level := node.level)], c, {})[c].level
  {
    var t1 := f.tabs[c := f.tabs[c].(parentId := node.parentId, level := node.level)];
    var t2 := Relevel(t1, c, {});
    match node.parentId
    case Some(g) =>
      if g in t2 {
        assert Promote(f, node, c).tabs == t2[g := t2[g].(childIds := t2[g].childIds + [c])];
      } else {
        assert Promote(f, node, c).tabs == t2;
      }
    case None =>
      assert Promote(f, node, c).tabs == t2;
  }

  /** The promotion loop over the removed node's children `kids`. */
  function PromoteChildren(f: Forest, node: TabNode, kids: seq<TabId>): (r: Forest)
    ensures r.tabs.Keys == f.tabs.Keys && r.collapsed == f.collapsed
    ensures forall k :: k in f.tabs ==> SameLabels(r.tabs[k], f.tabs[k])
    decreases |kids|
  {
    if kids == [] then f
    else
      var f1 := if kids[0] in f.tabs then Promote(f, node, kids[0]) else f;
      PromoteChildren(f1, node, kids[1..])
  }

  /**
   * The promotion loop appends the known children, in order, to the
   * grandparent's child list and leaves every other child list alone.
   */
  lemma {:induction false} PromoteChildrenLists(f: Forest, node: TabNode, kids: seq<TabId>, k: TabId)
    requires k in f.tabs
    ensures PromoteChildren(f, node, kids).tabs[k].childIds ==
      f.tabs[k].childIds + (if Some(k) == node.parentId then KnownIds(kids, f.tabs.Keys) else [])
    decreases |kids|
  {
    if kids != [] {
      var c := kids[0];
      var f1 := if c in f.tabs then Promote(f, node, c) else f;
      PromoteChildrenLists(f1, node, kids[1..], k);
      assert f1.tabs.Keys == f.tabs.Keys;
      assert KnownIds(kids, f.tabs.Keys) == (if c in f.tabs then [c] else []) + KnownIds(kids[1..], f.tabs.Keys);
    }
  }

  /** Each known child, and no other node, takes the removed node's parent. */
  lemma {:induction false} PromoteChildrenParents(f: Forest, node: TabNode, kids: seq<TabId>, k: TabId)
    requires k in f.tabs
    ensures PromoteChildren(f, node, kids).tabs[k].parentId == (if k in kids then node.parentId else f.tabs[k].parentId)
    decreases |kids|
  {
    if kids != [] {
      var c := kids[0];
      var f1 := if c in f.tabs then Promote(f, node, c) else f;
      PromoteChildrenParents(f1, node, kids[1..], k);
    }
  }

  /** A root's known children are pushed onto the roots, each unless already there. */
  lemma {:induction false} PromoteChildrenRoots(f: Forest, node: TabNode, kids: seq<TabId>)
    ensures PromoteChildren(f, node, kids).roots ==
      (if node.parentId.None? then PushAllAbsent(f.roots, KnownIds(kids, f.tabs.Keys)) else f.roots)
    decreases |kids|
  {
    if kids != [] {
      var c := kids[0];
      var f1 := if c in f.tabs then Promote(f, node, c) else f;
      PromoteChildrenRoots(f1, node, kids[1..]);
      var rest := KnownIds(kids[1..], f.tabs.Keys);
      assert f1.tabs.Keys == f.tabs.Keys;
      assert KnownIds(kids, f.tabs.Keys) == (if c in f.tabs then [c] else []) + rest;
      if c in f.tabs {
        assert ([c] + rest)[0] == c && ([c] + rest)[1..] == rest;
        assert f1.roots == if node.parentId.None? then PushAbsent(f.roots, c) else f.roots;
      } else {
        assert KnownIds(kids, f.tabs.Keys) == rest;
      }
    }
  }

  /**
   * `removeTabFromTree(id)`; `promote` is the `collapseOnClose` preference.
   * Without it the children keep a `parentId` naming the deleted node.
   */
  function RemoveTab(f: Forest, id: TabId, promote: bool): (r: Forest)
    ensures id !in f.tabs ==> r == f
    ensures id in f.tabs ==> r.tabs.Keys == f.tabs.Keys - {id} && r.collapsed == f.collapsed - {id}
    ensures forall k :: k in r.tabs ==> SameLabels(r.tabs[k], f.tabs[k])
  {
    if id !in f.tabs then f
    else
      var node := f.tabs[id];
      var f1 := if promote then PromoteChildren(f, node, node.childIds) else f;
      var f2 := Unlist(f1, id, node.parentId);
      Forest(f2.tabs - {id}, f2.roots, f2.collapsed - {id})
  }

  /** The ids promoted by a removal: the removed node's known children, or none. */
  function Promoted(f: Forest, id: TabId, promote: bool): seq<TabId>
    requires id in f.tabs
  {
    if promote then KnownIds(f.tabs[id].childIds, f.tabs.Keys) else []
  }

  /**
   * Where a removal leaves the lists: the promoted children are appended
   * to the grandparent's children (or pushed onto the roots when absent),
   * then the removed id loses its first occurrence in its parent's list or
   * in the roots; every other list is untouched, and the promoted
   * children, and only they, take the removed node's parent.
   */
  lemma RemoveTabLists(f: Forest, id: TabId, promote: bool)
    requires id in f.tabs
    ensures var r := RemoveTab(f, id, promote);
      var node := f.tabs[id];
      var moved := Promoted(f, id, promote);
      && (node.parentId.None? ==> r.roots == RemoveFirst(if promote then PushAllAbsent(f.roots, moved) else f.roots, id))
      && (node.parentId.Some? ==> r.roots == f.roots)
      && (forall k :: k in r.tabs && Some(k) != node.parentId ==> r.tabs[k].childIds == f.tabs[k].childIds)
      && (node.parentId.Some? && node.parentId.value in r.tabs ==>
            r.tabs[node.parentId.value].childIds == RemoveFirst(f.tabs[node.parentId.value].childIds + moved, id))
      && (forall k :: k in r.tabs ==>
            r.tabs[k].parentId == (if promote && k in node.childIds then node.parentId else f.tabs[k].parentId))
  {
    var node := f.tabs[id];
    var moved := Promoted(f, id, promote);
    var f1 := if promote then PromoteChildren(f, node, node.childIds) else f;
    assert f1.tabs.Keys == f.tabs.Keys;
    forall k | k in f.tabs
      ensures f1.tabs[k].childIds == f.tabs[k].childIds + (if Some(k) == node.parentId then moved else [])
      ensures f1.tabs[k].parentId == (if promote && k in node.childIds then node.parentId else f.tabs[k].parentId)
    {
      if promote {
        PromoteChildrenLists(f, node, node.childIds, k);
        PromoteChildrenParents(f, node, node.childIds, k);
      }
    }
    if promote {
      PromoteChildrenRoots(f, node, node.childIds);
    }
    assert f1.roots == if node.parentId.None? && promote then PushAllAbsent(f.roots, moved) else f.roots;
    var f2 := Unlist(f1, id, node.parentId);
    assert RemoveTab(f, id, promote) == Forest(f2.tabs - {id}, f2.roots, f2.collapsed - {id});
  }

  /**
   * When the removed id is listed once in its parent's children (or in the
   * roots) and is not its own child, it is listed there no longer.
   */
  lemma RemoveTabUnlists(f: Forest, id: TabId, promote: bool)
    requires id in f.tabs && id !in f.tabs[id].childIds
    requires f.tabs[id].parentId.None? ==> NoDup(f.roots)
    requires f.tabs[id].parentId.Some? && f.tabs[id].parentId.value in f.tabs ==>
      NoDup(f.tabs[f.tabs[id].parentId.value].childIds)
    ensures var r := RemoveTab(f, id, promote);
      && id !in r.tabs && id !in r.collapsed
      && (f.tabs[id].parentId.None? ==> id !in r.roots)
      && (f.tabs[id].parentId.Some? && f.tabs[id].parentId.value in r.tabs ==>
            id !in r.tabs[f.tabs[id].parentId.value].childIds)
  {
    var node := f.tabs[id];
    var moved := Promoted(f, id, promote);
    RemoveTabLists(f, id, promote);
    KnownIdsMembers(node.childIds, f.tabs.Keys);
    assert id !in moved;
    match node.parentId
    case None =>
      var pushed := if promote then PushAllAbsent(f.roots, moved) else f.roots;
      PushAllAbsentMembers(f.roots, moved);
      RemoveFirstNoDup(pushed, id);
    case Some(p) =>
      if p in RemoveTab(f, id, promote).tabs {
        RemoveFirstAppended(f.tabs[p].childIds, moved, id);
      }
  }

  // ---------------------------------------------------------------------
  // attachTabTo / makeRootTab
  // ---------------------------------------------------------------------

  /**
   * The re-parenting half of `attachTabTo`: `t` takes `p` as its parent;
   * a known `p` gets `t` appended to its children and `t` gets `p`'s
   * level + 1; for `p` None `t` gets level 0.
   */
  function Adopt(tabs: Tabs, t: TabId, p: Option<TabId>): (r: Tabs)
    requires t in tabs
    ensures r.Keys == tabs.Keys
    ensures forall k :: k in tabs ==> SameLabels(r[k], tabs[k])
    ensures r[t].parentId == p
    ensures forall k :: k in tabs && k != t ==> r[k].parentId == tabs[k].parentId && r[k].level == tabs[k].level
    ensures forall k :: k in tabs && Some(k) != p ==> r[k].childIds == tabs[k].childIds
    ensures p.Some? && p.value in tabs ==> r[p.value].childIds == tabs[p.value].childIds + [t]
    ensures p.Some? && p.value in tabs && p.value != t ==> r[t].level == tabs[p.value].level + 1
    ensures p.None? ==> r[t].level == 0
  {
    match p
    case Some(q) =>
      if q !in tabs then tabs[t := tabs[t].(parentId := p)]
      else if q == t then
        tabs[t := tabs[t].(parentId := p, childIds := tabs[t].childIds + [t], level := tabs[t].level + 1)]
      else
        tabs[q := tabs[q].(childIds := tabs[q].childIds + [t])][t := tabs[t].(parentId := p, level := tabs[q].level + 1)]
    case None => tabs[t := tabs[t].(parentId := p, level := 0)]
  }

  /** `Adopt` done as the source does it: first the parent link, then the new parent's list, then the level. */
  lemma AdoptInSteps(tabs: Tabs, t: TabId, p: Option<TabId>)
    requires t in tabs
    ensures var t2 := tabs[t := tabs[t].(parentId := p)];
      Adopt(tabs, t, p) ==
        if p.None? then t2[t := t2[t].(level := 0)]
        else if p.value !in t2 then t2
        else
          var t3 := t2[p.value := t2[p.value].(childIds := t2[p.value].childIds + [t])];
          t3[t := t3[t].(level := t3[p.value].level + 1)]
  {
    var t2 := tabs[t := tabs[t].(parentId := p)];
    if p.None? {
      assert Adopt(tabs, t, p) == t2[t := t2[t].(level := 0)];
    } else if p.value !in t2 {
      assert Adopt(tabs, t, p) == t2;
    } else {
      var q := p.value;
      var t3 := t2[q := t2[q].(childIds := t2[q].childIds + [t])];
      if q == t {
        assert t3[t := t3[t].(level := t3[q].level + 1)]
          == tabs[t := tabs[t].(parentId := p, childIds := tabs[t].childIds + [t], level := tabs[t].level + 1)];
      } else {
        assert t3[t := t3[t].(level := t3[q].level + 1)]
          == tabs[q := tabs[q].(childIds := tabs[q].childIds + [t])][t := tabs[t].(parentId := p, level := tabs[q].level + 1)];
      }
      assert Adopt(tabs, t, p) == t3[t := t3[t].(level := t3[q].level + 1)];
    }
  }

  /**
   * `attachTabTo(t, p)`: nothing happens for an unknown `t` or when `p`
   * is one of `t`'s descendants. Otherwise `t` leaves its old list, is
   * adopted by `p` (appended to the roots when `p` is None; listed nowhere
   * when `p` names no node), and its subtree is relevelled.
   */
  function AttachTo(f: Forest, t: TabId, p: Option<TabId>): (r: Forest)
    ensures t !in f.tabs || (p.Some? && p.value in GetDescendants(f.tabs, t)) ==> r == f
    ensures r.tabs.Keys == f.tabs.Keys && r.collapsed == f.collapsed
    ensures forall k :: k in f.tabs ==> SameLabels(r.tabs[k], f.tabs[k])
  {
    if t !in f.tabs then f
    else if p.Some? && p.value in GetDescendants(f.tabs, t) then f
    else
      var f1 := Unlist(f, t, f.tabs[t].parentId);
      var adopted := Adopt(f1.tabs, t, p);
      Forest(Relevel(adopted, t, {}), f1.roots + (if p.None? then [t] else []), f1.collapsed)
  }

  /**
   * `makeRootTab(t)`: a known `t` loses its parent, leaves its old list
   * and becomes the last root; no other node changes parent or children.
   */
  function MakeRoot(f: Forest, t: TabId): (r: Forest)
    ensures t !in f.tabs ==> r == f
    ensures r.tabs.Keys == f.tabs.Keys && r.collapsed == f.collapsed
    ensures t in f.tabs ==>
      var old_ := f.tabs[t].parentId;
      && r.tabs[t].parentId.None?
      && r.roots == (if old_.None? then RemoveFirst(f.roots, t) else f.roots) + [t]
      && (forall k :: k in f.tabs && k != t ==> r.tabs[k].parentId == f.tabs[k].parentId)
      && (forall k :: k in f.tabs && Some(k) != old_ ==> r.tabs[k].childIds == f.tabs[k].childIds)
      && (old_.Some? && old_.value in f.tabs ==>
            r.tabs[old_.value].childIds == RemoveFirst(f.tabs[old_.value].childIds, t))
  {
    MakeRootLists(f, t);
    AttachTo(f, t, None)
  }

  /** `AttachToLists` for a move to the roots, stated for any `t`. */
  lemma MakeRootLists(f: Forest, t: TabId)
    ensures t in f.tabs ==>
      var r := AttachTo(f, t, None);
      var old_ := f.tabs[t].parentId;
      && r.tabs[t].parentId.None?
      && r.roots == (if old_.None? then RemoveFirst(f.roots, t) else f.roots) + [t]
      && (forall k :: k in f.tabs && k != t ==> r.tabs[k].parentId == f.tabs[k].parentId)
      && (forall k :: k in f.tabs && Some(k) != old_ ==> r.tabs[k].childIds == f.tabs[k].childIds)
      && (old_.Some? && old_.value in f.tabs ==>
            r.tabs[old_.value].childIds == RemoveFirst(f.tabs[old_.value].childIds, t))
  {
    if t in f.tabs {
      AttachToLists(f, t, None);
    }
  }

  /**
   * Where a move leaves the lists: `t` loses its first occurrence in its
   * old list and is appended to the new one; `t` takes the new parent and
   * no other node changes its parent or its children.
   */
  lemma AttachToLists(f: Forest, t: TabId, p: Option<TabId>)
    requires t in f.tabs && p != Some(t)
    requires p.Some? ==> p.value !in GetDescendants(f.tabs, t)
    ensures var r := AttachTo(f, t, p);
      var old_ := f.tabs[t].parentId;
      && r.tabs[t].parentId == p
      && (forall k :: k in f.tabs && k != t ==> r.tabs[k].parentId == f.tabs[k].parentId)
      && (forall k :: k in f.tabs && Some(k) != old_ && Some(k) != p ==> r.tabs[k].childIds == f.tabs[k].childIds)
      && (old_.Some? && old_.value in f.tabs && old_ != p ==>
            r.tabs[old_.value].childIds == RemoveFirst(f.tabs[old_.value].childIds, t))
      && (p.Some? && p.value in f.tabs ==>
            r.tabs[p.value].childIds ==
              (if old_ == p then RemoveFirst(f.tabs[p.value].childIds, t) else f.tabs[p.value].childIds) + [t])
      && r.roots == (if old_.None? then RemoveFirst(f.roots, t) else f.roots) + (if p.None? then [t] else [])
  {
    var old_ := f.tabs[t].parentId;
    var f1 := Unlist(f, t, old_);
    var adopted := Adopt(f1.tabs, t, p);
    assert SameButLevels(adopted, Relevel(adopted, t, {}));
  }

  // ---------------------------------------------------------------------
  // moveUp / moveDown
  // ---------------------------------------------------------------------

  /**
   * `moveUp`'s splices on a sibling list: `x` changes place with the
   * sibling before it; nothing happens when `x` is first or absent.
   */
  function MoveUpIn(s: seq<TabId>, x: TabId): (r: seq<TabId>)
    ensures multiset(r) == multiset(s)
    ensures IndexOf(s, x) <= 0 ==> r == s
    ensures var i := IndexOf(s, x); i > 0 ==>
      |r| == |s| && r[i - 1] == x && r[i] == s[i - 1]
      && forall j :: 0 <= j < |s| && j != i - 1 && j != i ==> r[j] == s[j]
  {
    var i := IndexOf(s, x);
    if i > 0 then
      SwapAdjacent(s, i - 1);
      s[..i - 1] + [x, s[i - 1]] + s[i + 1..]
    else s
  }

  /** Exchanging the neighbours at `i` and `i + 1` keeps the elements and every other position. */
  lemma SwapAdjacent(s: seq<TabId>, i: int)
    requires 0 <= i < |s| - 1
    ensures var r := s[..i] + [s[i + 1], s[i]] + s[i + 2..];
      && |r| == |s| && multiset(r) == multiset(s) && r[i] == s[i + 1] && r[i + 1] == s[i]
      && forall j :: 0 <= j < |s| && j != i && j != i + 1 ==> r[j] == s[j]
  {
    var r := s[..i] + [s[i + 1], s[i]] + s[i + 2..];
    assert s == s[..i] + [s[i], s[i + 1]] + s[i + 2..];
    forall j | 0 <= j < |s| && j != i && j != i + 1
      ensures r[j] == s[j]
    {
      if j < i {
        assert r[j] == s[..i][j];
      } else {
        assert r[j] == s[i + 2..][j - i - 2];
      }
    }
  }

  /**
   * `moveDown`'s splices: `x` changes place with the sibling after it and
   * nothing happens when `x` is last. When `x` is absent from a non-empty
   * list, `indexOf` gives -1, `splice(-1, 1)` drops the LAST sibling and
   * `splice(0, 0, x)` puts `x` first.
   */
  function MoveDownIn(s: seq<TabId>, x: TabId): (r: seq<TabId>)
    ensures x in s ==> multiset(r) == multiset(s)
    ensures x in s && IndexOf(s, x) == |s| - 1 ==> r == s
    ensures var i := IndexOf(s, x); 0 <= i < |s| - 1 ==>
      |r| == |s| && r[i + 1] == x && r[i] == s[i + 1]
      && forall j :: 0 <= j < |s| && j != i && j != i + 1 ==> r[j] == s[j]
    ensures x !in s ==> r == if s == [] then s else [x] + s[..|s| - 1]
  {
    var i := IndexOf(s, x);
    if i < |s| - 1 then
      if i == -1 then [x] + s[..|s| - 1]
      else
        SwapAdjacent(s, i);
        s[..i] + [s[i + 1], x] + s[i + 2..]
    else s
  }

  /**
   * Applies a reordering of one sibling list to `t`'s list: its parent's
   * children, or the roots for a root; nothing when `t` is unknown or its
   * parent id names no node (`if (!siblings) return`).
   */
  function ReorderSiblings(f: Forest, t: TabId, up: bool): (r: Forest)
    ensures r.tabs.Keys == f.tabs.Keys && r.collapsed == f.collapsed
    ensures t in f.tabs ==>
      var par := f.tabs[t].parentId;
      && (forall k :: k in f.tabs && Some(k) != par ==> r.tabs[k] == f.tabs[k])
      && (par.Some? ==> r.roots == f.roots)
      && (par.Some? && par.value in f.tabs ==>
            r.tabs[par.value] == f.tabs[par.value].(childIds := r.tabs[par.value].childIds))
  {
    if t !in f.tabs then f
    else
      match f.tabs[t].parentId
      case Some(p) =>
        if p in f.tabs then
          var s := f.tabs[p].childIds;
          f.(tabs := f.tabs[p := f.tabs[p].(childIds := if up then MoveUpIn(s, t) else MoveDownIn(s, t))])
        else f
      case None => f.(roots := if up then MoveUpIn(f.roots, t) else MoveDownIn(f.roots, t))
  }

  /** `t` is known and its sibling list exists (`if (!siblings) return` does not fire). */
  predicate HasSiblings(f: Forest, t: TabId)
  {
    t in f.tabs && (f.tabs[t].parentId.Some? ==> f.tabs[t].parentId.value in f.tabs)
  }

  /**
   * `moveUp(t)`: when `t`'s sibling list exists, it becomes
   * `MoveUpIn` of that list and nothing else changes; otherwise nothing
   * happens.
   */
  function MoveUp(f: Forest, t: TabId): (r: Forest)
    ensures !HasSiblings(f, t) ==> r == f
    ensures HasSiblings(f, t) ==> SameButSiblings(f, r, t) && SiblingList(r, t) == MoveUpIn(SiblingList(f, t), t)
  {
    ReorderFacts(f, t, true);
    ReorderSiblings(f, t, true)
  }

  /**
   * `moveDown(t)`: when `t`'s sibling list exists, it becomes
   * `MoveDownIn` of that list and nothing else changes; otherwise nothing
   * happens.
   */
  function MoveDown(f: Forest, t: TabId): (r: Forest)
    ensures !HasSiblings(f, t) ==> r == f
    ensures HasSiblings(f, t) ==> SameButSiblings(f, r, t) && SiblingList(r, t) == MoveDownIn(SiblingList(f, t), t)
  {
    ReorderFacts(f, t, false);
    ReorderSiblings(f, t, false)
  }

  /**
   * `g` differs from `f` at most in `t`'s sibling list: the same nodes,
   * parents and collapsed set, and every other list untouched.
   */
  ghost predicate SameButSiblings(f: Forest, g: Forest, t: TabId)
    requires t in f.tabs
  {
    var par := f.tabs[t].parentId;
    && g.tabs.Keys == f.tabs.Keys && g.collapsed == f.collapsed
    && (forall k :: k in f.tabs && Some(k) != par ==> g.tabs[k] == f.tabs[k])
    && (par.Some? ==> g.roots == f.roots)
    && (par.Some? && par.value in f.tabs ==> g.tabs[par.value] == f.tabs[par.value].(childIds := g.tabs[par.value].childIds))
  }

  /** What a reorder does, in terms of the sibling list. */
  lemma ReorderFacts(f: Forest, t: TabId, up: bool)
    ensures !HasSiblings(f, t) ==> ReorderSiblings(f, t, up) == f
    ensures HasSiblings(f, t) ==>
      var s := SiblingList(f, t);
      && SameButSiblings(f, ReorderSiblings(f, t, up), t)
      && SiblingList(ReorderSiblings(f, t, up), t) == if up then MoveUpIn(s, t) else MoveDownIn(s, t)
  {
    if HasSiblings(f, t) {
      var s := SiblingList(f, t);
      ReorderSiblingsIs(f, t, up);
      ReorderTwiceStep(f, ReorderSiblings(f, t, up), t, if up then MoveUpIn(s, t) else MoveDownIn(s, t));
    }
  }

  // ---------------------------------------------------------------------
  // toggleCollapsed / autoCollapseSiblings / collapseAll / expandAll
  // ---------------------------------------------------------------------

  /**
   * Collapses every node among `pick` that has children, setting its flag
   * and adding it to the `collapsed` set; nodes without children and ids
   * outside `pick` are left alone. The loops of `autoCollapseSiblings` and
   * `collapseAll` both do this.
   */
  function CollapseWhere(f: Forest, pick: set<TabId>): (r: Forest)
    ensures r.tabs.Keys == f.tabs.Keys && r.roots == f.roots
    ensures forall k :: k in f.tabs ==>
      r.tabs[k] == if k in pick && |f.tabs[k].childIds| > 0 then f.tabs[k].(collapsed := true) else f.tabs[k]
    ensures r.collapsed == f.collapsed + set k | k in pick && k in f.tabs && |f.tabs[k].childIds| > 0
  {
    var hit := set k | k in pick && k in f.tabs && |f.tabs[k].childIds| > 0;
    Forest(map k | k in f.tabs :: if k in hit then f.tabs[k].(collapsed := true) else f.tabs[k],
           f.roots, f.collapsed + hit)
  }

  /** `x`'s sibling list: its parent's children ([] for an unknown parent), or the roots. */
  function SiblingList(f: Forest, x: TabId): seq<TabId>
    requires x in f.tabs
  {
    match f.tabs[x].parentId
    case Some(p) => if p in f.tabs then f.tabs[p].childIds else []
    case None => f.roots
  }

  /**
   * `autoCollapseSiblings(x)`: every other sibling that has children is
   * collapsed (flag set, id added to the set); nothing else changes.
   */
  function AutoCollapseSiblings(f: Forest, x: TabId): (r: Forest)
    ensures x !in f.tabs ==> r == f
    ensures x in f.tabs ==>
      var sib := SiblingList(f, x);
      && r.tabs.Keys == f.tabs.Keys && r.roots == f.roots
      && (forall k :: k in f.tabs ==>
            r.tabs[k] == if k != x && k in sib && |f.tabs[k].childIds| > 0 then f.tabs[k].(collapsed := true) else f.tabs[k])
      && r.collapsed == f.collapsed + set k | k in sib && k != x && k in f.tabs && |f.tabs[k].childIds| > 0
  {
    if x !in f.tabs then f
    else CollapseWhere(f, Others(SiblingList(f, x), x))
  }

  /**
   * `toggleCollapsed(id)` with `autoCollapse` the preference of that name:
   * nothing for an unknown or childless node; otherwise the flag flips, the
   * `collapsed` set follows it, and an expansion with `autoCollapse` on
   * collapses the siblings.
   */
  function ToggleCollapsed(f: Forest, id: TabId, autoCollapse: bool): (r: Forest)
    ensures id !in f.tabs || |f.tabs[id].childIds| == 0 ==> r == f
    ensures id in f.tabs && |f.tabs[id].childIds| > 0 ==>
      && r.tabs.Keys == f.tabs.Keys && r.roots == f.roots
      && r.tabs[id] == f.tabs[id].(collapsed := !f.tabs[id].collapsed)
      && (id in r.collapsed <==> r.tabs[id].collapsed)
    ensures id in f.tabs && |f.tabs[id].childIds| > 0 && (!f.tabs[id].collapsed || !autoCollapse) ==>
      && (forall k :: k in f.tabs && k != id ==> r.tabs[k] == f.tabs[k])
      && r.collapsed - {id} == f.collapsed - {id}
  {
    if id !in f.tabs || |f.tabs[id].childIds| == 0 then f
    else
      var n := f.tabs[id];
      var f1 := f.(tabs := f.tabs[id := n.(collapsed := !n.collapsed)]);
      if !n.collapsed then f1.(collapsed := f1.collapsed + {id})
      else
        var f2 := f1.(collapsed := f1.collapsed - {id});
        if autoCollapse then AutoCollapseSiblings(f2, id) else f2
  }

  /**
   * `collapseAll()`: every node that has children is collapsed and joins
   * the set; childless nodes are left as they were.
   */
  function CollapseAll(f: Forest): (r: Forest)
    ensures r.tabs.Keys == f.tabs.Keys && r.roots == f.roots
    ensures forall k :: k in f.tabs ==>
      r.tabs[k] == if |f.tabs[k].childIds| > 0 then f.tabs[k].(collapsed := true) else f.tabs[k]
    ensures r.collapsed == f.collapsed + set k | k in f.tabs && |f.tabs[k].childIds| > 0
  {
    CollapseWhere(f, f.tabs.Keys)
  }

  /** `expandAll()`: every flag is cleared and the set emptied. */
  function ExpandAll(f: Forest): (r: Forest)
    ensures r.tabs.Keys == f.tabs.Keys && r.roots == f.roots && r.collapsed == {}
    ensures forall k :: k in f.tabs ==> r.tabs[k] == f.tabs[k].(collapsed := false)
  {
    Forest(map k | k in f.tabs :: f.tabs[k].(collapsed := false), f.roots, {})
  }

  // ---------------------------------------------------------------------
  // selection (the last loop of syncWithZoteroTabs, and onTabSelected)
  // ---------------------------------------------------------------------

  /** Every node's `selected` flag becomes "its id is the selected id". */
  function Select(f: Forest, sel: Option<TabId>): (r: Forest)
    ensures r.tabs.Keys == f.tabs.Keys && r.roots == f.roots && r.collapsed == f.collapsed
    ensures forall k :: k in f.tabs ==> r.tabs[k] == f.tabs[k].(selected := Some(k) == sel)
  {
    Forest(map k | k in f.tabs :: f.tabs[k].(selected := Some(k) == sel), f.roots, f.collapsed)
  }

  // ---------------------------------------------------------------------
  // properties relating several calls
  // ---------------------------------------------------------------------

  /** `MoveUpIn` when it moves something, written out. */
  lemma MoveUpInAt(s: seq<TabId>, x: TabId)
    requires IndexOf(s, x) > 0
    ensures var i := IndexOf(s, x); MoveUpIn(s, x) == s[..i - 1] + [x, s[i - 1]] + s[i + 1..]
  {
  }

  /** `MoveDownIn` when it moves a present tab, written out. */
  lemma MoveDownInAt(s: seq<TabId>, x: TabId)
    requires 0 <= IndexOf(s, x) < |s| - 1
    ensures var i := IndexOf(s, x); MoveDownIn(s, x) == s[..i] + [s[i + 1], x] + s[i + 2..]
  {
  }

  /** After swapping `x` one place up, it is found there, and swapping it back gives `s`. */
  lemma SwapUpFacts(s: seq<TabId>, x: TabId, i: int)
    requires 0 < i < |s| && s[i] == x && x !in s[..i]
    ensures var u := s[..i - 1] + [x, s[i - 1]] + s[i + 1..];
      && IndexOf(u, x) == i - 1 && i - 1 < |u| - 1
      && u[..i - 1] + [u[i], x] + u[i + 1..] == s
  {
    var u := s[..i - 1] + [x, s[i - 1]] + s[i + 1..];
    assert u[..i - 1] == s[..i - 1] == s[..i][..i - 1];
    IndexOfIs(u, x, i - 1);
    assert u[i + 1..] == s[i + 1..];
    assert s == s[..i - 1] + [s[i - 1], s[i]] + s[i + 1..];
  }

  /** After swapping `x` one place down in a repeat-free list, it is found there, and swapping it back gives `s`. */
  lemma SwapDownFacts(s: seq<TabId>, x: TabId, i: int)
    requires NoDup(s) && 0 <= i < |s| - 1 && s[i] == x && x !in s[..i]
    ensures var d := s[..i] + [s[i + 1], x] + s[i + 2..];
      && IndexOf(d, x) == i + 1 && i + 1 > 0
      && d[..i] + [x, d[i]] + d[i + 2..] == s
  {
    var d := s[..i] + [s[i + 1], x] + s[i + 2..];
    assert d[..i] == s[..i];
    assert d[i] == s[i + 1] != x;
    assert d[..i + 1] == s[..i] + [d[i]];
    IndexOfIs(d, x, i + 1);
    assert d[i + 2..] == s[i + 2..];
    assert s == s[..i] + [s[i], s[i + 1]] + s[i + 2..];
  }

  /** Moving a tab up and then down again restores its sibling list. */
  lemma MoveUpThenDownIn(s: seq<TabId>, x: TabId)
    requires IndexOf(s, x) > 0
    ensures MoveDownIn(MoveUpIn(s, x), x) == s
  {
    var i := IndexOf(s, x);
    MoveUpInAt(s, x);
    SwapUpFacts(s, x, i);
    MoveDownInAt(MoveUpIn(s, x), x);
  }

  /** Moving a tab down and then up again restores a repeat-free sibling list. */
  lemma MoveDownThenUpIn(s: seq<TabId>, x: TabId)
    requires NoDup(s) && 0 <= IndexOf(s, x) < |s| - 1
    ensures MoveUpIn(MoveDownIn(s, x), x) == s
  {
    var i := IndexOf(s, x);
    MoveDownInAt(s, x);
    SwapDownFacts(s, x, i);
    MoveUpInAt(MoveDownIn(s, x), x);
  }

  /** A reorder of a known tab's list, written out: only that one list is replaced. */
  lemma ReorderSiblingsIs(f: Forest, t: TabId, up: bool)
    requires t in f.tabs && (f.tabs[t].parentId.Some? ==> f.tabs[t].parentId.value in f.tabs)
    ensures var s := SiblingList(f, t);
      var s' := if up then MoveUpIn(s, t) else MoveDownIn(s, t);
      && (f.tabs[t].parentId.Some? ==> ReorderSiblings(f, t, up) == f.(tabs := f.tabs[f.tabs[t].parentId.value := f.tabs[f.tabs[t].parentId.value].(childIds := s')]))
      && (f.tabs[t].parentId.None? ==> ReorderSiblings(f, t, up) == f.(roots := s'))
  {
  }

  /** Two reorders of a known tab's list compose on that list. */
  lemma ReorderTwice(f: Forest, t: TabId, up: bool, s': seq<TabId>)
    requires t in f.tabs && (f.tabs[t].parentId.Some? ==> f.tabs[t].parentId.value in f.tabs)
    requires s' == if up then MoveUpIn(SiblingList(f, t), t) else MoveDownIn(SiblingList(f, t), t)
    requires (if up then MoveDownIn(s', t) else MoveUpIn(s', t)) == SiblingList(f, t)
    ensures ReorderSiblings(ReorderSiblings(f, t, up), t, !up) == f
  {
    var g := ReorderSiblings(f, t, up);
    ReorderSiblingsIs(f, t, up);
    ReorderTwiceStep(f, g, t, s');
    ReorderSiblingsIs(g, t, !up);
    ReorderTwiceBack(f, g, t, s');
  }

  /** After the first reorder, the tab keeps its parent and its list is `s'`. */
  lemma ReorderTwiceStep(f: Forest, g: Forest, t: TabId, s': seq<TabId>)
    requires t in f.tabs && (f.tabs[t].parentId.Some? ==> f.tabs[t].parentId.value in f.tabs)
    requires f.tabs[t].parentId.Some? ==> g == f.(tabs := f.tabs[f.tabs[t].parentId.value := f.tabs[f.tabs[t].parentId.value].(childIds := s')])
    requires f.tabs[t].parentId.None? ==> g == f.(roots := s')
    ensures t in g.tabs && g.tabs[t].parentId == f.tabs[t].parentId
    ensures g.tabs[t].parentId.Some? ==> g.tabs[t].parentId.value in g.tabs
    ensures SiblingList(g, t) == s'
  {
  }

  /** Putting the original list back restores the forest. */
  lemma ReorderTwiceBack(f: Forest, g: Forest, t: TabId, s': seq<TabId>)
    requires t in f.tabs && (f.tabs[t].parentId.Some? ==> f.tabs[t].parentId.value in f.tabs)
    requires f.tabs[t].parentId.Some? ==> g == f.(tabs := f.tabs[f.tabs[t].parentId.value := f.tabs[f.tabs[t].parentId.value].(childIds := s')])
    requires f.tabs[t].parentId.None? ==> g == f.(roots := s')
    requires t in g.tabs && g.tabs[t].parentId == f.tabs[t].parentId
    ensures g.tabs[t].parentId.Some? ==>
      g.(tabs := g.tabs[g.tabs[t].parentId.value := g.tabs[g.tabs[t].parentId.value].(childIds := SiblingList(f, t))]) == f
    ensures g.tabs[t].parentId.None? ==> g.(roots := SiblingList(f, t)) == f
  {
    if f.tabs[t].parentId.Some? {
      var p := f.tabs[t].parentId.value;
      assert g.tabs[p := g.tabs[p].(childIds := f.tabs[p].childIds)] == f.tabs;
    }
  }

  /** `moveDown` undoes a `moveUp` that moved something. */
  lemma MoveUpThenDown(f: Forest, t: TabId)
    requires t in f.tabs && (f.tabs[t].parentId.Some? ==> f.tabs[t].parentId.value in f.tabs)
    requires IndexOf(SiblingList(f, t), t) > 0
    ensures MoveDown(MoveUp(f, t), t) == f
  {
    MoveUpThenDownIn(SiblingList(f, t), t);
    ReorderTwice(f, t, true, MoveUpIn(SiblingList(f, t), t));
  }

  /** `moveUp` undoes a `moveDown` that moved something, in a repeat-free list. */
  lemma MoveDownThenUp(f: Forest, t: TabId)
    requires t in f.tabs && (f.tabs[t].parentId.Some? ==> f.tabs[t].parentId.value in f.tabs)
    requires NoDup(SiblingList(f, t)) && 0 <= IndexOf(SiblingList(f, t), t) < |SiblingList(f, t)| - 1
    ensures MoveUp(MoveDown(f, t), t) == f
  {
    MoveDownThenUpIn(SiblingList(f, t), t);
    ReorderTwice(f, t, false, MoveDownIn(SiblingList(f, t), t));
  }

  /** With `autoCollapse` off, toggling twice restores the forest when the flag and the set agree. */
  lemma ToggleTwice(f: Forest, id: TabId)
    requires id in f.tabs ==> (id in f.collapsed <==> f.tabs[id].collapsed)
    ensures ToggleCollapsed(ToggleCollapsed(f, id, false), id, false) == f
  {
    if id in f.tabs && |f.tabs[id].childIds| > 0 {
      var g := ToggleCollapsed(f, id, false);
      var h := ToggleCollapsed(g, id, false);
      assert h.tabs == f.tabs;
      assert h.collapsed == f.collapsed;
    }
  }

  /**
   * Collapsing one more id is one more pass of the collapsing loops: the
   * id's node, when it has children, gets its flag set and joins the set.
   */
  lemma CollapseWhereAdd(f: Forest, pick: set<TabId>, s: TabId)
    ensures var g := CollapseWhere(f, pick);
      CollapseWhere(f, pick + {s}) ==
        if s in g.tabs && |g.tabs[s].childIds| > 0
        then Forest(g.tabs[s := g.tabs[s].(collapsed := true)], g.roots, g.collapsed + {s})
        else g
  {
    var g := CollapseWhere(f, pick);
    var h := CollapseWhere(f, pick + {s});
    if s in g.tabs && |g.tabs[s].childIds| > 0 {
      CollapseWhereAddTabs(f, pick, s);
      assert h.collapsed == g.collapsed + {s};
    } else {
      CollapseWhereSkipTabs(f, pick, s);
      assert h.collapsed == g.collapsed;
    }
  }

  /** Adding a node with children to the picked set collapses that one node more. */
  lemma CollapseWhereAddTabs(f: Forest, pick: set<TabId>, s: TabId)
    requires s in f.tabs && |f.tabs[s].childIds| > 0
    ensures var g := CollapseWhere(f, pick);
      CollapseWhere(f, pick + {s}).tabs == g.tabs[s := g.tabs[s].(collapsed := true)]
  {
  }

  /** Adding an unknown or childless node to the picked set changes no node. */
  lemma CollapseWhereSkipTabs(f: Forest, pick: set<TabId>, s: TabId)
    requires !(s in f.tabs && |f.tabs[s].childIds| > 0)
    ensures CollapseWhere(f, pick + {s}).tabs == CollapseWhere(f, pick).tabs
  {
  }

  /** Extending a sibling list by one id extends its other members by that id unless it is `x`. */
  lemma OthersSnoc(siblings: seq<TabId>, y: TabId, x: TabId)
    ensures Others(siblings + [y], x) == Others(siblings, x) + (if y != x then {y} else {})
  {
  }

  /** Collapsing nothing changes nothing. */
  lemma CollapseWhereNone(f: Forest)
    ensures CollapseWhere(f, {}) == f
  {
    assert CollapseWhere(f, {}).tabs == f.tabs;
  }

  /** The other members of a sibling list. */
  function Others(siblings: seq<TabId>, x: TabId): set<TabId>
  {
    set s | s in siblings && s != x
  }

  /** Collapsing a set of nodes keeps the flags and the `collapsed` set in agreement. */
  lemma CollapseWhereIndexed(f: Forest, pick: set<TabId>)
    requires CollapsedIndexed(f)
    ensures CollapsedIndexed(CollapseWhere(f, pick))
  {
  }

  /**
   * Toggling keeps the flags and the `collapsed` set in agreement; an
   * expansion with `autoCollapse` on collapses every other sibling that
   * has children, and touches nothing else.
   */
  lemma ToggleIndexed(f: Forest, id: TabId, autoCollapse: bool)
    requires CollapsedIndexed(f)
    ensures CollapsedIndexed(ToggleCollapsed(f, id, autoCollapse))
    ensures id in f.tabs && |f.tabs[id].childIds| > 0 && f.tabs[id].collapsed && autoCollapse ==>
      var r := ToggleCollapsed(f, id, autoCollapse);
      forall s :: s in f.tabs && s != id ==>
        r.tabs[s] == if s in SiblingList(f, id) && |f.tabs[s].childIds| > 0 then f.tabs[s].(collapsed := true) else f.tabs[s]
  {
    if id in f.tabs && |f.tabs[id].childIds| > 0 {
      var n := f.tabs[id];
      var f1 := f.(tabs := f.tabs[id := n.(collapsed := !n.collapsed)]);
      if n.collapsed {
        var f2 := f1.(collapsed := f1.collapsed - {id});
        assert CollapsedIndexed(f2);
        assert SiblingList(f2, id) == SiblingList(f, id);
        if autoCollapse {
          CollapseWhereIndexed(f2, Others(SiblingList(f, id), id));
        }
      }
    }
  }

  /** `collapseAll` and `expandAll` each do nothing the second time. */
  lemma CollapseExpandIdempotent(f: Forest)
    ensures CollapseAll(CollapseAll(f)) == CollapseAll(f)
    ensures ExpandAll(ExpandAll(f)) == ExpandAll(f)
  {
    var c := CollapseAll(f);
    assert CollapseAll(c).tabs == c.tabs;
    assert CollapseAll(c).collapsed == c.collapsed;
    var e := ExpandAll(f);
    assert ExpandAll(e).tabs == e.tabs;
  }

  /** After `collapseAll` or `expandAll` the flags and the set agree. */
  lemma CollapseExpandIndexed(f: Forest)
    requires CollapsedIndexed(f)
    ensures CollapsedIndexed(CollapseAll(f)) && CollapsedIndexed(ExpandAll(f))
  {
    CollapseWhereIndexed(f, f.tabs.Keys);
  }
}
