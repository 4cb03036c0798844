/**
 * The tab forest kept by the tree-style-tabs add-on: one `TabNode` per
 * host tab, the ordered list of root ids and the set of collapsed ids
 * (src/addon.ts:52-66), plus the read-only walks over it that
 * src/modules/treeTabManager.ts performs: `getDescendants`,
 * `updateChildLevels` (as a function on the map), `getTabsInTreeOrder`
 * and the parent-chain walk of `isTabVisible`.
 *
 * The source walks recurse (or loop) without any guard, so on cyclic data
 * they never return. Each walk here carries the set of ids on the current
 * path (or already visited) and stops at an id it has met before; that
 * happens only on cyclic data, where the source does not terminate.
 *
 * The last section states the shape the manager's operations aim to keep
 * (`WellFormed`) and what follows from it.
 */
module TabForest {
  import opened Wrappers
  import opened SeqUtil

  /**
   * Host tab ids. JavaScript treats "" as false in `if (node.parentId)`
   * and `parentId || lastActiveTabId`; host ids are never empty, so with
   * this type "the id is set" is exactly `Some?`.
   */
  type TabId = s: string | s != "" witness "t"

  /** `TabNode` (src/addon.ts:52-61); `type` is a Dafny keyword, so `tabType`. */
  datatype TabNode = TabNode(
    id: TabId,
    parentId: Option<TabId>,
    childIds: seq<TabId>,
    level: nat,
    collapsed: bool,
    title: string,
    tabType: string,
    selected: bool)

  type Tabs = map<TabId, TabNode>

  /** The `tabs` map with the `TreeStructure` (src/addon.ts:63-66). */
  datatype Forest = Forest(tabs: Tabs, roots: seq<TabId>, collapsed: set<TabId>)

  /** The state the add-on starts from (src/addon.ts:36-42). */
  const EmptyForest := Forest(map[], [], {})

  /** Two maps that agree on every node except, possibly, its `level`. */
  ghost predicate SameButLevels(a: Tabs, b: Tabs)
  {
    a.Keys == b.Keys && forall k :: k in a ==> b[k] == a[k].(level := b[k].level)
  }

  // ---------------------------------------------------------------------
  // reachability along child links
  // ---------------------------------------------------------------------

  /**
   * `x` lies `n` child links below `a`: there is a chain from `a` to `x`
   * in which each id is listed among the children of the stored node
   * before it. The last id need not name a node.
   */
  ghost predicate ReachesIn(tabs: Tabs, a: TabId, x: TabId, n: nat)
    decreases n
  {
    n > 0 && a in tabs &&
    if n == 1 then x in tabs[a].childIds
    else exists c :: c in tabs[a].childIds && ReachesIn(tabs, c, x, n - 1)
  }

  /** `x` lies one or more child links below `a`. */
  ghost predicate Reaches(tabs: Tabs, a: TabId, x: TabId)
  {
    exists n: nat :: ReachesIn(tabs, a, x, n)
  }

  /** A chain extends by one child link at its lower end. */
  lemma {:induction false} ReachesSnoc(tabs: Tabs, a: TabId, q: TabId, x: TabId, n: nat)
    requires ReachesIn(tabs, a, q, n) && q in tabs && x in tabs[q].childIds
    ensures ReachesIn(tabs, a, x, n + 1)
    decreases n
  {
    if n == 1 {
      assert ReachesIn(tabs, q, x, 1);
    } else {
      var c :| c in tabs[a].childIds && ReachesIn(tabs, c, q, n - 1);
      ReachesSnoc(tabs, c, q, x, n - 1);
    }
  }

  /** A chain of two or more links ends with a link from a stored node it reaches. */
  lemma {:induction false} ReachesLast(tabs: Tabs, a: TabId, x: TabId, n: nat)
    requires n > 0 && ReachesIn(tabs, a, x, n + 1)
    ensures exists q :: ReachesIn(tabs, a, q, n) && q in tabs && x in tabs[q].childIds
    decreases n
  {
    var c :| c in tabs[a].childIds && ReachesIn(tabs, c, x, n);
    if n == 1 {
      assert ReachesIn(tabs, a, c, 1);
    } else {
      ReachesLast(tabs, c, x, n - 1);
      var q :| ReachesIn(tabs, c, q, n - 1) && q in tabs && x in tabs[q].childIds;
      assert ReachesIn(tabs, a, q, n);
    }
  }

  // ---------------------------------------------------------------------
  // getDescendants
  // ---------------------------------------------------------------------

  /**
   * `getDescendants(id)`: every child id, each followed by the walk below
   * it. A child id is listed even when no node carries it. `path` holds
   * the ids whose walk is in progress.
   */
  function Descendants(tabs: Tabs, id: TabId, path: set<TabId>): (r: seq<TabId>)
    ensures forall x :: x in r ==> x in ChildLinks(tabs)
    ensures id in tabs && id !in path ==> forall c :: c in tabs[id].childIds ==> c in r
    decreases tabs.Keys - path, 0
  {
    if id !in tabs || id in path then []
    else DescendantsOfList(tabs, tabs[id].childIds, path + {id})
  }

  /** The loop of `getDescendants` over one child list. */
  function DescendantsOfList(tabs: Tabs, kids: seq<TabId>, path: set<TabId>): (r: seq<TabId>)
    ensures forall x :: x in r ==> x in kids || x in ChildLinks(tabs)
    ensures forall c :: c in kids ==> c in r
    decreases tabs.Keys - path, 1, |kids|
  {
    if kids == [] then []
    else [kids[0]] + Descendants(tabs, kids[0], path) + DescendantsOfList(tabs, kids[1..], path)
  }

  /** Every id some node lists as a child. */
  function ChildLinks(tabs: Tabs): set<TabId>
  {
    set p, c | p in tabs && c in tabs[p].childIds :: c
  }

  /**
   * The query the manager exposes: the walk from `id` with an empty path.
   * It lists exactly the ids that lie below `id`, whatever the data; `id`
   * itself is listed only when it lies on a cycle.
   */
  function GetDescendants(tabs: Tabs, id: TabId): (r: seq<TabId>)
    ensures forall x :: x in r <==> Reaches(tabs, id, x)
  {
    DescendantsReach(tabs, id, {});
    ReachableListed(tabs, id);
    Descendants(tabs, id, {})
  }

  /** Everything the walk lists lies below `id`. */
  lemma {:induction false} DescendantsReach(tabs: Tabs, id: TabId, path: set<TabId>)
    ensures forall x :: x in Descendants(tabs, id, path) ==> Reaches(tabs, id, x)
    decreases tabs.Keys - path, 0
  {
    if id in tabs && id !in path {
      var kids := tabs[id].childIds;
      DescendantsOfListReach(tabs, kids, path + {id});
      forall x | x in Descendants(tabs, id, path) ensures Reaches(tabs, id, x) {
        assert x in DescendantsOfList(tabs, kids, path + {id});
        var c :| c in kids && (x == c || Reaches(tabs, c, x));
        if x == c {
          assert ReachesIn(tabs, id, x, 1);
        } else {
          var n: nat :| ReachesIn(tabs, c, x, n);
          assert ReachesIn(tabs, id, x, n + 1);
        }
      }
    }
  }

  /** Everything the list loop lists is one of `kids` or lies below one. */
  lemma {:induction false} DescendantsOfListReach(tabs: Tabs, kids: seq<TabId>, path: set<TabId>)
    ensures forall x :: x in DescendantsOfList(tabs, kids, path) ==>
      exists c :: c in kids && (x == c || Reaches(tabs, c, x))
    decreases tabs.Keys - path, 1, |kids|
  {
    if kids != [] {
      var c := kids[0];
      DescendantsReach(tabs, c, path);
      DescendantsOfListReach(tabs, kids[1..], path);
      forall x | x in DescendantsOfList(tabs, kids, path)
        ensures exists c :: c in kids && (x == c || Reaches(tabs, c, x))
      {
        assert c in kids;
        if x in Descendants(tabs, c, path) {
          assert Reaches(tabs, c, x);
        } else if x != c {
          assert x in DescendantsOfList(tabs, kids[1..], path);
          var d :| d in kids[1..] && (x == d || Reaches(tabs, d, x));
          assert d in kids;
        }
      }
    }
  }

  /** Stored node `q` has every child in `s`. */
  ghost predicate ChildrenListed(tabs: Tabs, q: TabId, s: seq<TabId>)
  {
    q in tabs ==> forall x :: x in tabs[q].childIds ==> x in s
  }

  /**
   * The walk expands every id it lists that is not on its path: the
   * children of such an id are listed too.
   */
  lemma {:induction false} DescendantsClosed(tabs: Tabs, id: TabId, path: set<TabId>)
    ensures forall q :: q in Descendants(tabs, id, path) && q !in path && q != id ==>
      ChildrenListed(tabs, q, Descendants(tabs, id, path))
    decreases tabs.Keys - path, 0
  {
    if id in tabs && id !in path {
      DescendantsOfListClosed(tabs, tabs[id].childIds, path + {id});
    }
  }

  lemma {:induction false} DescendantsOfListClosed(tabs: Tabs, kids: seq<TabId>, path: set<TabId>)
    ensures forall q :: q in DescendantsOfList(tabs, kids, path) && q !in path ==>
      ChildrenListed(tabs, q, DescendantsOfList(tabs, kids, path))
    decreases tabs.Keys - path, 1, |kids|
  {
    if kids != [] {
      var c := kids[0];
      var dc := Descendants(tabs, c, path);
      var dl := DescendantsOfList(tabs, kids, path);
      assert dl == [c] + dc + DescendantsOfList(tabs, kids[1..], path);
      DescendantsClosed(tabs, c, path);
      DescendantsOfListClosed(tabs, kids[1..], path);
    }
  }

  /** Everything below `id` is listed by the walk from `id`. */
  lemma ReachableListed(tabs: Tabs, id: TabId)
    ensures forall x :: Reaches(tabs, id, x) ==> x in Descendants(tabs, id, {})
  {
    forall x | Reaches(tabs, id, x) ensures x in Descendants(tabs, id, {}) {
      var n: nat :| ReachesIn(tabs, id, x, n);
      ReachesListed(tabs, id, x, n);
    }
  }

  lemma {:induction false} ReachesListed(tabs: Tabs, id: TabId, x: TabId, n: nat)
    requires ReachesIn(tabs, id, x, n)
    ensures x in Descendants(tabs, id, {})
    decreases n
  {
    DescendantsClosed(tabs, id, {});
    if n > 1 {
      ReachesLast(tabs, id, x, n - 1);
      var q :| ReachesIn(tabs, id, q, n - 1) && q in tabs && x in tabs[q].childIds;
      ReachesListed(tabs, id, q, n - 1);
      assert q == id || ChildrenListed(tabs, q, Descendants(tabs, id, {}));
    }
  }

  /**
   * Every id listed below `id` is a child of `id` or of another listed
   * id: the walk only ever follows child links.
   */
  lemma WalkParent(tabs: Tabs, id: TabId, x: TabId)
    requires x in GetDescendants(tabs, id)
    ensures exists q :: (q == id || q in GetDescendants(tabs, id)) && q in tabs && x in tabs[q].childIds
  {
    var n: nat :| ReachesIn(tabs, id, x, n);
    if n > 1 {
      ReachesLast(tabs, id, x, n - 1);
      var q :| ReachesIn(tabs, id, q, n - 1) && q in tabs && x in tabs[q].childIds;
      assert q in GetDescendants(tabs, id);
    }
  }

  /** Two maps with the same keys whose nodes have the same child lists. */
  ghost predicate SameChildren(a: Tabs, b: Tabs)
  {
    a.Keys == b.Keys && forall k :: k in a ==> b[k].childIds == a[k].childIds
  }

  /** The walk reads only the child lists, so a change of levels or parents does not change it. */
  lemma {:induction false} DescendantsSameChildren(a: Tabs, b: Tabs, id: TabId, path: set<TabId>)
    requires SameChildren(a, b)
    ensures Descendants(a, id, path) == Descendants(b, id, path)
    decreases a.Keys - path, 0
  {
    if id in a && id !in path {
      assert b[id].childIds == a[id].childIds;
      DescendantsOfListSameChildren(a, b, a[id].childIds, path + {id});
    }
  }

  lemma {:induction false} DescendantsOfListSameChildren(a: Tabs, b: Tabs, kids: seq<TabId>, path: set<TabId>)
    requires SameChildren(a, b)
    ensures DescendantsOfList(a, kids, path) == DescendantsOfList(b, kids, path)
    decreases a.Keys - path, 1, |kids|
  {
    if kids != [] {
      DescendantsSameChildren(a, b, kids[0], path);
      DescendantsOfListSameChildren(a, b, kids[1..], path);
    }
  }

  /** `k` is stored in both maps or in neither, and with the same children. */
  ghost predicate SameAt(a: Tabs, b: Tabs, k: TabId)
  {
    (k in a <==> k in b) && (k in a ==> a[k].childIds == b[k].childIds)
  }

  /** The walk from `id` reads only `id` and the ids it lists: changes elsewhere do not affect it. */
  lemma {:induction false} DescendantsLocal(a: Tabs, b: Tabs, id: TabId, path: set<TabId>)
    requires SameAt(a, b, id) && forall k :: k in Descendants(a, id, path) ==> SameAt(a, b, k)
    ensures Descendants(a, id, path) == Descendants(b, id, path)
    decreases a.Keys - path, 0
  {
    if id in a && id !in path {
      DescendantsOfListLocal(a, b, a[id].childIds, path + {id});
    }
  }

  lemma {:induction false} DescendantsOfListLocal(a: Tabs, b: Tabs, kids: seq<TabId>, path: set<TabId>)
    requires forall k :: k in DescendantsOfList(a, kids, path) ==> SameAt(a, b, k)
    ensures DescendantsOfList(a, kids, path) == DescendantsOfList(b, kids, path)
    decreases a.Keys - path, 1, |kids|
  {
    if kids != [] {
      assert DescendantsOfList(a, kids, path) ==
        [kids[0]] + Descendants(a, kids[0], path) + DescendantsOfList(a, kids[1..], path);
      DescendantsLocal(a, b, kids[0], path);
      DescendantsOfListLocal(a, b, kids[1..], path);
    }
  }

  /** The walk from `id` lists no id twice, neither `id` nor any id of `path`. */
  ghost predicate WalkSimple(tabs: Tabs, id: TabId, path: set<TabId>)
  {
    id !in path && NoDup([id] + Descendants(tabs, id, path))
    && forall q :: q in Descendants(tabs, id, path) ==> q !in path
  }

  // ---------------------------------------------------------------------
  // updateChildLevels
  // ---------------------------------------------------------------------

  /**
   * The map after `updateChildLevels(id)`: each child `c` of `id`, in
   * order, gets the parent's current level + 1 and then has its own
   * subtree updated. Only levels change.
   */
  function Relevel(tabs: Tabs, id: TabId, path: set<TabId>): (r: Tabs)
    ensures SameButLevels(tabs, r)
    decreases tabs.Keys - path, 0
  {
    if id !in tabs || id in path then tabs
    else RelevelList(tabs, id, tabs[id].childIds, path + {id})
  }

  /** The loop of `updateChildLevels` over the child list `kids` of `parent`. */
  function RelevelList(tabs: Tabs, parent: TabId, kids: seq<TabId>, path: set<TabId>): (r: Tabs)
    requires parent in tabs
    ensures SameButLevels(tabs, r)
    decreases tabs.Keys - path, 1, |kids|
  {
    if kids == [] then tabs
    else
      var c := kids[0];
      var t1 := if c in tabs then Relevel(tabs[c := tabs[c].(level := tabs[parent].level + 1)], c, path) else tabs;
      RelevelList(t1, parent, kids[1..], path)
  }

  /** Every stored child of the stored node `q` is one level below it. */
  ghost predicate ChildLevelsOK(r: Tabs, q: TabId)
  {
    q in r ==> forall x :: x in r[q].childIds && x in r ==> r[x].level == r[q].level + 1
  }

  /**
   * `updateChildLevels(id)`: only levels change, and only those of the
   * nodes the walk from `id` lists. When the walk lists no id twice (as
   * in tree-shaped data), every stored child of `id` and of each listed
   * node ends one level below its parent's new level.
   */
  function UpdateChildLevels(tabs: Tabs, id: TabId): (r: Tabs)
    ensures SameButLevels(tabs, r)
    ensures forall k :: k in tabs && k !in GetDescendants(tabs, id) ==> r[k] == tabs[k]
    ensures NoDup([id] + GetDescendants(tabs, id)) ==>
      forall q :: q == id || q in GetDescendants(tabs, id) ==> ChildLevelsOK(r, q)
  {
    RelevelFrame(tabs, id, {});
    UpdateChildLevelsLevels(tabs, id);
    Relevel(tabs, id, {})
  }

  lemma UpdateChildLevelsLevels(tabs: Tabs, id: TabId)
    ensures NoDup([id] + GetDescendants(tabs, id)) ==>
      forall q :: q == id || q in GetDescendants(tabs, id) ==> ChildLevelsOK(Relevel(tabs, id, {}), q)
  {
    if id in tabs && NoDup([id] + GetDescendants(tabs, id)) {
      RelevelLevels(tabs, id, {});
    }
  }

  /** `updateChildLevels(id)` writes only to the nodes that `getDescendants(id)` lists. */
  lemma {:induction false} RelevelFrame(tabs: Tabs, id: TabId, path: set<TabId>)
    ensures forall k :: k in tabs && k !in Descendants(tabs, id, path) ==> Relevel(tabs, id, path)[k] == tabs[k]
    decreases tabs.Keys - path, 0
  {
    if id in tabs && id !in path {
      RelevelListFrame(tabs, id, tabs[id].childIds, path + {id});
    }
  }

  lemma {:induction false} RelevelListFrame(tabs: Tabs, parent: TabId, kids: seq<TabId>, path: set<TabId>)
    requires parent in tabs
    ensures forall k :: k in tabs && k !in DescendantsOfList(tabs, kids, path) ==>
      RelevelList(tabs, parent, kids, path)[k] == tabs[k]
    decreases tabs.Keys - path, 1, |kids|
  {
    if kids != [] {
      var c := kids[0];
      if c in tabs {
        var t0 := tabs[c := tabs[c].(level := tabs[parent].level + 1)];
        var t1 := Relevel(t0, c, path);
        RelevelFrame(t0, c, path);
        DescendantsSameChildren(tabs, t0, c, path);
        RelevelListFrame(t1, parent, kids[1..], path);
        DescendantsOfListSameChildren(tabs, t1, kids[1..], path);
      } else {
        RelevelListFrame(tabs, parent, kids[1..], path);
      }
    }
  }

  /**
   * When the walk from `id` lists no id twice and none of its path, the
   * update leaves `id` as it was and puts every stored child of `id` and
   * of each listed node one level below its parent.
   */
  lemma {:induction false} RelevelLevels(tabs: Tabs, id: TabId, path: set<TabId>)
    requires id in tabs && WalkSimple(tabs, id, path)
    ensures var r := Relevel(tabs, id, path);
      r[id] == tabs[id] &&
      forall q :: q == id || q in Descendants(tabs, id, path) ==> ChildLevelsOK(r, q)
    decreases tabs.Keys - path, 0
  {
    var d := Descendants(tabs, id, path);
    NoDupConcat([id], d);
    RelevelListLevels(tabs, id, tabs[id].childIds, path + {id});
  }

  lemma {:induction false} RelevelListLevels(tabs: Tabs, parent: TabId, kids: seq<TabId>, path: set<TabId>)
    requires parent in tabs && parent in path
    requires NoDup(DescendantsOfList(tabs, kids, path))
    requires forall q :: q in DescendantsOfList(tabs, kids, path) ==> q !in path
    ensures var r := RelevelList(tabs, parent, kids, path);
      && r[parent] == tabs[parent]
      && (forall x :: x in kids && x in tabs ==> r[x].level == tabs[parent].level + 1)
      && forall q :: q in DescendantsOfList(tabs, kids, path) ==> ChildLevelsOK(r, q)
    decreases tabs.Keys - path, 1, |kids|
  {
    if kids != [] {
      var c := kids[0];
      var rest := kids[1..];
      var dc := Descendants(tabs, c, path);
      var dr := DescendantsOfList(tabs, rest, path);
      assert DescendantsOfList(tabs, kids, path) == ([c] + dc) + dr;
      NoDupConcat([c] + dc, dr);
      if c in tabs {
        var t1 := Relevel(tabs[c := tabs[c].(level := tabs[parent].level + 1)], c, path);
        RelevelFirstLevels(tabs, parent, c, path);
        DescendantsOfListSameChildren(tabs, t1, rest, path);
        RelevelListLevels(t1, parent, rest, path);
        RelevelListFrame(t1, parent, rest, path);
        var r := RelevelList(t1, parent, rest, path);
        assert RelevelList(tabs, parent, kids, path) == r;
        forall q | q in [c] + dc ensures ChildLevelsOK(r, q) {
          KeepChildLevels(t1, r, [c] + dc, dr, q);
        }
        assert c in [c] + dc;
      } else {
        RelevelListLevels(tabs, parent, rest, path);
      }
    }
  }

  /**
   * The first pass of the loop in `RelevelListLevels`: the stored first
   * child `c` gets the parent's level + 1 and its subtree is updated.
   */
  lemma {:induction false} RelevelFirstLevels(tabs: Tabs, parent: TabId, c: TabId, path: set<TabId>)
    requires parent in tabs && parent in path && c in tabs && c !in path
    requires NoDup([c] + Descendants(tabs, c, path))
    requires forall q :: q in Descendants(tabs, c, path) ==> q !in path
    ensures var dc := Descendants(tabs, c, path);
      var t1 := Relevel(tabs[c := tabs[c].(level := tabs[parent].level + 1)], c, path);
      && SameChildren(tabs, t1)
      && t1[parent] == tabs[parent]
      && t1[c].level == tabs[parent].level + 1
      && (forall k :: k in tabs && k !in [c] + dc ==> t1[k] == tabs[k])
      && forall q :: q in [c] + dc ==> ChildLevelsOK(t1, q) && ChildrenListed(t1, q, [c] + dc)
    decreases tabs.Keys - path, 1, 0
  {
    var dc := Descendants(tabs, c, path);
    var t0 := tabs[c := tabs[c].(level := tabs[parent].level + 1)];
    var t1 := Relevel(t0, c, path);
    DescendantsSameChildren(tabs, t0, c, path);
    RelevelLevels(t0, c, path);
    RelevelFrame(t0, c, path);
    DescendantsClosed(tabs, c, path);
    assert SameChildren(tabs, t1);
    forall q | q in [c] + dc ensures ChildrenListed(t1, q, [c] + dc) {
      if q != c {
        assert ChildrenListed(tabs, q, dc);
      }
    }
  }

  /** A node whose children all lie outside the part a later pass rewrites keeps its children's levels right. */
  lemma KeepChildLevels(t1: Tabs, r: Tabs, s: seq<TabId>, dr: seq<TabId>, q: TabId)
    requires q in s && ChildLevelsOK(t1, q) && ChildrenListed(t1, q, s)
    requires forall x :: x in s ==> x !in dr
    requires t1.Keys == r.Keys && forall k :: k in t1 && k !in dr ==> r[k] == t1[k]
    ensures ChildLevelsOK(r, q)
  {
  }

  // ---------------------------------------------------------------------
  // getTabsInTreeOrder
  // ---------------------------------------------------------------------

  /**
   * `addWithChildren(id)`: the node of `id` (when there is one) followed
   * by the subtrees of its children. The walk's `isHidden` argument never
   * reaches its output, so it is not modelled.
   */
  function Subtree(tabs: Tabs, id: TabId, path: set<TabId>): (r: seq<TabNode>)
    ensures forall n :: n in r ==> n in tabs.Values
    ensures id in tabs && id !in path ==> r != [] && r[0] == tabs[id]
    ensures id !in tabs ==> r == []
    decreases tabs.Keys - path, 0
  {
    if id !in tabs || id in path then []
    else [tabs[id]] + SubtreeList(tabs, tabs[id].childIds, path + {id})
  }

  function SubtreeList(tabs: Tabs, kids: seq<TabId>, path: set<TabId>): (r: seq<TabNode>)
    ensures forall n :: n in r ==> n in tabs.Values
    decreases tabs.Keys - path, 1, |kids|
  {
    if kids == [] then []
    else Subtree(tabs, kids[0], path) + SubtreeList(tabs, kids[1..], path)
  }

  /** The stored nodes of the ids `ks`, in order; ids without a node are skipped. */
  function NodesOf(tabs: Tabs, ks: seq<TabId>): seq<TabNode>
  {
    if ks == [] then []
    else (if ks[0] in tabs then [tabs[ks[0]]] else []) + NodesOf(tabs, ks[1..])
  }

  lemma {:induction false} NodesOfConcat(tabs: Tabs, a: seq<TabId>, b: seq<TabId>)
    ensures NodesOf(tabs, a + b) == NodesOf(tabs, a) + NodesOf(tabs, b)
    decreases |a|
  {
    if a == [] {
      assert a + b == b;
    } else {
      assert (a + b)[0] == a[0] && (a + b)[1..] == a[1..] + b;
      NodesOfConcat(tabs, a[1..], b);
    }
  }

  /**
   * The rendering walk and the descendant walk visit the same ids: when
   * the walk from `id` lists no id twice, `addWithChildren(id)` yields the
   * node of `id` followed by the stored nodes `getDescendants` lists, in
   * its order.
   */
  lemma {:induction false} SubtreeWalk(tabs: Tabs, id: TabId, path: set<TabId>)
    requires WalkSimple(tabs, id, path)
    ensures Subtree(tabs, id, path) == NodesOf(tabs, [id] + Descendants(tabs, id, path))
    decreases tabs.Keys - path, 0
  {
    var d := Descendants(tabs, id, path);
    assert ([id] + d)[1..] == d;
    if id in tabs {
      NoDupConcat([id], d);
      SubtreeListWalk(tabs, tabs[id].childIds, path + {id});
    }
  }

  lemma {:induction false} SubtreeListWalk(tabs: Tabs, kids: seq<TabId>, path: set<TabId>)
    requires NoDup(DescendantsOfList(tabs, kids, path))
    requires forall q :: q in DescendantsOfList(tabs, kids, path) ==> q !in path
    ensures SubtreeList(tabs, kids, path) == NodesOf(tabs, DescendantsOfList(tabs, kids, path))
    decreases tabs.Keys - path, 1, |kids|
  {
    if kids != [] {
      var c := kids[0];
      var dc := Descendants(tabs, c, path);
      var dr := DescendantsOfList(tabs, kids[1..], path);
      assert DescendantsOfList(tabs, kids, path) == ([c] + dc) + dr;
      NoDupConcat([c] + dc, dr);
      SubtreeWalk(tabs, c, path);
      SubtreeListWalk(tabs, kids[1..], path);
      NodesOfConcat(tabs, [c] + dc, dr);
    }
  }

  /** The walk over the roots: each root followed by the ids below it. */
  function RootWalk(f: Forest): seq<TabId>
  {
    DescendantsOfList(f.tabs, f.roots, {})
  }

  /**
   * `getTabsInTreeOrder()`: the subtrees of the roots, in root order. When
   * the walk over the roots lists no id twice, it is exactly the stored
   * nodes of that walk.
   */
  function TreeOrder(f: Forest): (r: seq<TabNode>)
    ensures forall n :: n in r ==> n in f.tabs.Values
    ensures NoDup(RootWalk(f)) ==> r == NodesOf(f.tabs, RootWalk(f))
  {
    RootWalkNodes(f);
    SubtreeList(f.tabs, f.roots, {})
  }

  /** When the walk over the roots lists no id twice, the subtrees of the roots are its stored nodes. */
  lemma RootWalkNodes(f: Forest)
    ensures NoDup(RootWalk(f)) ==> SubtreeList(f.tabs, f.roots, {}) == NodesOf(f.tabs, RootWalk(f))
  {
    if NoDup(RootWalk(f)) {
      SubtreeListWalk(f.tabs, f.roots, {});
    }
  }

  /** The walk over a list with an empty path lists exactly the list and what lies below its members. */
  lemma {:induction false} RootWalkMembers(tabs: Tabs, kids: seq<TabId>)
    ensures forall x :: x in DescendantsOfList(tabs, kids, {}) <==>
      exists c :: c in kids && (x == c || Reaches(tabs, c, x))
    decreases |kids|
  {
    DescendantsOfListReach(tabs, kids, {});
    if kids != [] {
      RootWalkMembers(tabs, kids[1..]);
      var c := kids[0];
      assert DescendantsOfList(tabs, kids, {}) == [c] + GetDescendants(tabs, c) + DescendantsOfList(tabs, kids[1..], {});
      forall x, d | d in kids && (x == d || Reaches(tabs, d, x))
        ensures x in DescendantsOfList(tabs, kids, {})
      {
        if d != c {
          assert d in kids[1..];
        }
      }
    }
  }

  // ---------------------------------------------------------------------
  // isTabVisible
  // ---------------------------------------------------------------------

  /**
   * The parent-chain loop of `isTabVisible`, from the id `cur`: false as
   * soon as a known ancestor is collapsed; true at a missing parent id, at
   * an id not in the map (`if (!parent) break`) or at an id already seen.
   * It answers true exactly when no ancestor it meets is collapsed.
   */
  function VisibleFrom(tabs: Tabs, cur: Option<TabId>, seen: set<TabId>): (r: bool)
    ensures r <==> forall a :: a in AncestorsFrom(tabs, cur, seen) ==> !tabs[a].collapsed
    decreases tabs.Keys - seen
  {
    match cur
    case None => true
    case Some(p) =>
      if p !in tabs || p in seen then true
      else if tabs[p].collapsed then false
      else VisibleFrom(tabs, tabs[p].parentId, seen + {p})
  }

  /** `isTabVisible(id)`: a tab is visible exactly when it is known and none of its ancestors is collapsed. */
  function IsVisible(tabs: Tabs, id: TabId): (r: bool)
    ensures r <==> id in tabs && forall a :: a in Ancestors(tabs, id) ==> !tabs[a].collapsed
  {
    id in tabs && VisibleFrom(tabs, tabs[id].parentId, {})
  }

  /** The known ancestors met by following `parentId` links from `cur`, nearest first. */
  function AncestorsFrom(tabs: Tabs, cur: Option<TabId>, seen: set<TabId>): (r: seq<TabId>)
    ensures forall a :: a in r ==> a in tabs
    decreases tabs.Keys - seen
  {
    match cur
    case None => []
    case Some(p) =>
      if p !in tabs || p in seen then []
      else [p] + AncestorsFrom(tabs, tabs[p].parentId, seen + {p})
  }

  /** The strict ancestors of `id`. */
  function Ancestors(tabs: Tabs, id: TabId): seq<TabId>
  {
    if id in tabs then AncestorsFrom(tabs, tabs[id].parentId, {}) else []
  }

  // ---------------------------------------------------------------------
  // the shape the operations keep
  // ---------------------------------------------------------------------

  /** `collapsed` holds exactly the ids whose node has its `collapsed` flag set. */
  ghost predicate CollapsedIndexed(f: Forest)
  {
    forall k :: k in f.collapsed <==> k in f.tabs && f.tabs[k].collapsed
  }

  /** Every child entry names a stored node whose `parentId` names the listing node. */
  ghost predicate LinksAgree(tabs: Tabs)
  {
    forall p, x {:trigger x in tabs[p].childIds} :: p in tabs && x in tabs[p].childIds ==> x in tabs && tabs[x].parentId == Some(p)
  }

  /** A stored node is listed by its parent, or among the roots when it has none. */
  ghost predicate Listed(f: Forest, k: TabId)
    requires k in f.tabs
  {
    match f.tabs[k].parentId
    case None => k in f.roots
    case Some(p) => p in f.tabs && k in f.tabs[p].childIds
  }

  /** A stored node's level is its stored parent's level + 1, or 0 without a parent. */
  ghost predicate LevelOK(tabs: Tabs, k: TabId)
    requires k in tabs
  {
    match tabs[k].parentId
    case None => tabs[k].level == 0
    case Some(p) => p in tabs && tabs[k].level == tabs[p].level + 1
  }

  /** Every stored node's level is right. */
  ghost predicate Levelled(tabs: Tabs)
  {
    forall k {:trigger LevelOK(tabs, k)} :: k in tabs ==> LevelOK(tabs, k)
  }

  /** No id lies below itself. */
  ghost predicate Acyclic(tabs: Tabs)
  {
    forall y :: !Reaches(tabs, y, y)
  }

  /** Every node is filed under its own id. */
  ghost predicate IdsMatch(tabs: Tabs)
  {
    forall k :: k in tabs ==> tabs[k].id == k
  }

  /** Every stored node is listed where its parent link says. */
  ghost predicate AllListed(f: Forest)
  {
    forall k {:trigger Listed(f, k)} :: k in f.tabs ==> Listed(f, k)
  }

  /** The roots are stored, parentless and listed once each. */
  ghost predicate RootsOK(f: Forest)
  {
    (forall r :: r in f.roots ==> r in f.tabs && f.tabs[r].parentId.None?) && NoDup(f.roots)
  }

  /** No child list repeats an id. */
  ghost predicate ChildListsNoDup(tabs: Tabs)
  {
    forall k :: k in tabs ==> NoDup(tabs[k].childIds)
  }

  /** The links, lists and ids agree with one another. */
  ghost predicate Linked(f: Forest)
  {
    IdsMatch(f.tabs) && LinksAgree(f.tabs) && AllListed(f) && RootsOK(f) && ChildListsNoDup(f.tabs)
  }

  /**
   * The forest the manager aims to keep: nodes are filed under their own
   * id; parent links and child lists name stored nodes and agree; every
   * node is listed exactly once (in `roots` or in its parent's children);
   * levels count the ancestors; there is no cycle; and the `collapsed` set
   * follows the flags.
   */
  ghost predicate WellFormed(f: Forest)
  {
    && Linked(f)
    && Levelled(f.tabs)
    && Acyclic(f.tabs)
    && CollapsedIndexed(f)
  }

  /** The id `k` parent links above `y`, when the chain of parents gets that far. */
  function Up(tabs: Tabs, y: TabId, k: nat): Option<TabId>
    decreases k
  {
    if k == 0 then Some(y)
    else if y !in tabs || tabs[y].parentId.None? then None
    else Up(tabs, tabs[y].parentId.value, k - 1)
  }

  /**
   * With agreeing links and levels, an id `n` child links below `a` is
   * stored `n` levels below it, and `n` parent links lead back to `a`.
   */
  lemma {:induction false} ChainUp(tabs: Tabs, a: TabId, y: TabId, n: nat)
    requires LinksAgree(tabs) && Levelled(tabs) && ReachesIn(tabs, a, y, n)
    ensures y in tabs && tabs[y].level == tabs[a].level + n && Up(tabs, y, n) == Some(a)
    decreases n
  {
    if n == 1 {
      assert tabs[y].parentId == Some(a) && LevelOK(tabs, y);
    } else {
      ReachesLast(tabs, a, y, n - 1);
      var q :| ReachesIn(tabs, a, q, n - 1) && q in tabs && y in tabs[q].childIds;
      ChainUp(tabs, a, q, n - 1);
      assert tabs[y].parentId == Some(q) && LevelOK(tabs, y);
    }
  }

  /** An id at or below the node `a` climbs back to `a` in as many parent links as it is levels deeper. */
  lemma AtOrBelow(tabs: Tabs, a: TabId, y: TabId)
    requires LinksAgree(tabs) && Levelled(tabs) && a in tabs
    requires y == a || Reaches(tabs, a, y)
    ensures y in tabs && tabs[y].level >= tabs[a].level
    ensures Up(tabs, y, tabs[y].level - tabs[a].level) == Some(a)
  {
    if y != a {
      var n: nat :| ReachesIn(tabs, a, y, n);
      ChainUp(tabs, a, y, n);
    }
  }

  /** Every id met on the parent chain above a listed node lies above it. */
  lemma {:induction false} AncestorsFromReach(f: Forest, x: TabId, seen: set<TabId>, a: TabId)
    requires AllListed(f) && x in f.tabs
    requires a in AncestorsFrom(f.tabs, f.tabs[x].parentId, seen)
    ensures Reaches(f.tabs, a, x)
    decreases f.tabs.Keys - seen
  {
    var p := f.tabs[x].parentId.value;
    assert Listed(f, x);
    assert ReachesIn(f.tabs, p, x, 1);
    if a != p {
      AncestorsFromReach(f, p, seen + {p}, a);
      var n: nat :| ReachesIn(f.tabs, a, p, n);
      ReachesSnoc(f.tabs, a, p, x, n);
    }
  }

  /**
   * With agreeing links and levels, the walk up the parent links meets
   * every id above `x`: the ids already seen sit no higher than `x`, so
   * the walk is never cut short.
   */
  lemma {:induction false} ReachAncestorsFrom(tabs: Tabs, a: TabId, x: TabId, n: nat, seen: set<TabId>)
    requires LinksAgree(tabs) && Levelled(tabs) && ReachesIn(tabs, a, x, n) && x in tabs
    requires forall s :: s in seen ==> s in tabs && tabs[s].level >= tabs[x].level
    ensures a in AncestorsFrom(tabs, tabs[x].parentId, seen)
    decreases n
  {
    ChainUp(tabs, a, x, n);
    var q := a;
    if n > 1 {
      ReachesLast(tabs, a, x, n - 1);
      q :| ReachesIn(tabs, a, q, n - 1) && q in tabs && x in tabs[q].childIds;
    }
    assert tabs[x].parentId == Some(q) && LevelOK(tabs, x);
    if n > 1 {
      ReachAncestorsFrom(tabs, a, q, n - 1, seen + {q});
    }
  }

  /**
   * In a well-formed forest the ancestors `isTabVisible` checks are
   * exactly the ids the node lies below.
   */
  lemma AncestorsReach(f: Forest, id: TabId, a: TabId)
    requires WellFormed(f) && id in f.tabs
    ensures a in Ancestors(f.tabs, id) <==> Reaches(f.tabs, a, id)
  {
    if a in Ancestors(f.tabs, id) {
      AncestorsFromReach(f, id, {}, a);
    }
    if Reaches(f.tabs, a, id) {
      var n: nat :| ReachesIn(f.tabs, a, id, n);
      ReachAncestorsFrom(f.tabs, a, id, n, {});
    }
  }

  /** Levels that follow the parent links leave no room for a cycle. */
  lemma LevelsAcyclic(tabs: Tabs)
    requires LinksAgree(tabs) && Levelled(tabs)
    ensures Acyclic(tabs)
  {
    forall y, n | ReachesIn(tabs, y, y, n) ensures false {
      ChainUp(tabs, y, y, n);
    }
  }

  /** The links, levels and repeat-free child lists of a well-formed forest. */
  ghost predicate TreeShaped(tabs: Tabs)
  {
    LinksAgree(tabs) && Levelled(tabs) && ChildListsNoDup(tabs)
  }

  /** In tree-shaped data the walk from `id` lists no id twice, and never `id` itself. */
  lemma {:induction false} WalkNoDup(tabs: Tabs, id: TabId, path: set<TabId>)
    requires TreeShaped(tabs)
    ensures NoDup([id] + Descendants(tabs, id, path))
    decreases tabs.Keys - path, 0
  {
    var d := Descendants(tabs, id, path);
    if id in tabs && id !in path {
      var kids := tabs[id].childIds;
      forall c | c in kids ensures c in tabs && tabs[c].level == tabs[id].level + 1 {
        assert LevelOK(tabs, c);
      }
      WalkListNoDup(tabs, kids, path + {id}, tabs[id].level + 1);
      DescendantsReach(tabs, id, path);
      forall y | y in d ensures y != id {
        var n: nat :| ReachesIn(tabs, id, y, n);
        ChainUp(tabs, id, y, n);
      }
    }
    NoDupConcat([id], d);
  }

  /** In tree-shaped data the walk over a list of same-level siblings lists no id twice. */
  lemma {:induction false} WalkListNoDup(tabs: Tabs, kids: seq<TabId>, path: set<TabId>, lv: nat)
    requires TreeShaped(tabs) && NoDup(kids)
    requires forall c :: c in kids ==> c in tabs && tabs[c].level == lv
    ensures NoDup(DescendantsOfList(tabs, kids, path))
    decreases tabs.Keys - path, 1, |kids|
  {
    if kids != [] {
      var c := kids[0];
      var rest := kids[1..];
      var dc := Descendants(tabs, c, path);
      var dr := DescendantsOfList(tabs, rest, path);
      assert DescendantsOfList(tabs, kids, path) == ([c] + dc) + dr;
      assert NoDup(rest) by {
        forall i, j | 0 <= i < j < |rest| ensures rest[i] != rest[j] {
          assert rest[i] == kids[i + 1] && rest[j] == kids[j + 1];
        }
      }
      WalkNoDup(tabs, c, path);
      WalkListNoDup(tabs, rest, path, lv);
      DescendantsReach(tabs, c, path);
      DescendantsOfListReach(tabs, rest, path);
      SiblingWalksApart(tabs, kids, path, lv);
      NoDupConcat([c] + dc, dr);
    }
  }

  /** The step of `WalkListNoDup`: the first sibling's part and the rest share no id. */
  lemma SiblingWalksApart(tabs: Tabs, kids: seq<TabId>, path: set<TabId>, lv: nat)
    requires LinksAgree(tabs) && Levelled(tabs) && NoDup(kids) && kids != []
    requires forall c :: c in kids ==> c in tabs && tabs[c].level == lv
    requires forall x :: x in DescendantsOfList(tabs, kids[1..], path) ==>
      exists c :: c in kids[1..] && (x == c || Reaches(tabs, c, x))
    ensures forall y :: y == kids[0] || Reaches(tabs, kids[0], y) ==>
      y !in DescendantsOfList(tabs, kids[1..], path)
  {
    var c := kids[0];
    var rest := kids[1..];
    assert c !in rest by {
      forall i | 0 <= i < |rest| ensures rest[i] != c {
        assert rest[i] == kids[i + 1];
      }
    }
    assert c in tabs && tabs[c].level == lv;
    RestClimbs(tabs, rest, path, lv, c);
    forall y | y == c || Reaches(tabs, c, y) ensures y !in DescendantsOfList(tabs, rest, path) {
      AtOrBelow(tabs, c, y);
      NotBelowRest(tabs, rest, path, lv, c, y);
    }
  }

  /** An id that climbs back to `c` is not among the ids that climb back elsewhere. */
  lemma NotBelowRest(tabs: Tabs, rest: seq<TabId>, path: set<TabId>, lv: nat, c: TabId, y: TabId)
    requires c in tabs && tabs[c].level == lv
    requires y in tabs && tabs[y].level >= lv && Up(tabs, y, tabs[y].level - lv) == Some(c)
    requires forall x :: x in DescendantsOfList(tabs, rest, path) ==>
      x in tabs && tabs[x].level >= lv && Up(tabs, x, tabs[x].level - lv) != Some(c)
    ensures y !in DescendantsOfList(tabs, rest, path)
  {
  }

  /** Every id the walk over `rest` lists climbs back to a member of `rest`, so not to `c`. */
  lemma RestClimbs(tabs: Tabs, rest: seq<TabId>, path: set<TabId>, lv: nat, c: TabId)
    requires LinksAgree(tabs) && Levelled(tabs) && c !in rest
    requires forall d :: d in rest ==> d in tabs && tabs[d].level == lv
    requires forall x :: x in DescendantsOfList(tabs, rest, path) ==>
      exists d :: d in rest && (x == d || Reaches(tabs, d, x))
    ensures forall x :: x in DescendantsOfList(tabs, rest, path) ==>
      x in tabs && tabs[x].level >= lv && Up(tabs, x, tabs[x].level - lv) != Some(c)
  {
    forall x | x in DescendantsOfList(tabs, rest, path)
      ensures x in tabs && tabs[x].level >= lv && Up(tabs, x, tabs[x].level - lv) != Some(c)
    {
      var d :| d in rest && (x == d || Reaches(tabs, d, x));
      AtOrBelow(tabs, d, x);
    }
  }

  /**
   * A well-formed forest files each node exactly once: among the roots
   * when it has no parent, otherwise in its parent's children and in no
   * other node's.
   */
  lemma ListedOnce(f: Forest, k: TabId)
    requires WellFormed(f) && k in f.tabs
    ensures k in f.roots <==> f.tabs[k].parentId.None?
    ensures forall p :: p in f.tabs && k in f.tabs[p].childIds <==> f.tabs[k].parentId == Some(p)
  {
    assert Listed(f, k);
  }

  /**
   * In a well-formed forest the tree view lists every node exactly once:
   * the walk over the roots lists each stored id once and nothing else,
   * and `getTabsInTreeOrder` yields the nodes of that walk.
   */
  lemma TreeOrderListsEachNodeOnce(f: Forest)
    requires WellFormed(f)
    ensures NoDup(RootWalk(f))
    ensures forall x :: x in RootWalk(f) <==> x in f.tabs
    ensures TreeOrder(f) == NodesOf(f.tabs, RootWalk(f))
  {
    forall c | c in f.roots ensures c in f.tabs && f.tabs[c].level == 0 {
      assert LevelOK(f.tabs, c);
    }
    WalkListNoDup(f.tabs, f.roots, {}, 0);
    RootWalkMembers(f.tabs, f.roots);
    forall x | x in f.tabs ensures x in RootWalk(f) {
      RootWalkCovers(f, x);
    }
    forall x | x in RootWalk(f) ensures x in f.tabs {
      var c :| c in f.roots && (x == c || Reaches(f.tabs, c, x));
      if x != c {
        var n: nat :| ReachesIn(f.tabs, c, x, n);
        ChainUp(f.tabs, c, x, n);
      }
    }
  }

  /** Each stored node of a well-formed forest is a root or lies below one. */
  lemma {:induction false} RootWalkCovers(f: Forest, x: TabId)
    requires WellFormed(f) && x in f.tabs
    ensures exists c :: c in f.roots && (x == c || Reaches(f.tabs, c, x))
    decreases f.tabs[x].level
  {
    assert LevelOK(f.tabs, x) && Listed(f, x);
    if f.tabs[x].parentId.Some? {
      var p := f.tabs[x].parentId.value;
      RootWalkCovers(f, p);
      var c :| c in f.roots && (p == c || Reaches(f.tabs, c, p));
      if p == c {
        assert ReachesIn(f.tabs, c, x, 1);
      } else {
        var n: nat :| ReachesIn(f.tabs, c, p, n);
        ReachesSnoc(f.tabs, c, p, x, n);
      }
    }
  }
}
