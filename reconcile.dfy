/**
 * The host side of the manager: the tab list the host window reports
 * (`Zotero_Tabs._tabs` and `Zotero_Tabs.selectedID`), and the forests
 * that `syncWithZoteroTabs`, `onTabAdded` and `onTabClosed`
 * (src/modules/treeTabManager.ts:49-89, 204-226) reach by folding
 * `addTab` and `removeTabFromTree` over the host's tabs or the ids the
 * host event carries.
 */
module Reconcile {
  import opened Wrappers
  import opened TabForest
  import opened ForestOps
  import opened Persistence

  /** One host tab: its id, title (possibly empty) and type. */
  datatype HostTab = HostTab(id: TabId, title: string, tabType: string)

  /** The host's tab list and the id of its selected tab, if any. */
  datatype HostTabs = HostTabs(tabs: seq<HostTab>, selectedId: Option<TabId>)

  /** `zt.title || zt.type`: the title, or the type when the title is empty. */
  function DisplayTitle(h: HostTab): (r: string)
    ensures h.title != "" ==> r == h.title
    ensures h.title == "" ==> r == h.tabType
  {
    if h.title != "" then h.title else h.tabType
  }

  /** The ids the host lists. */
  function HostIds(hs: seq<HostTab>): set<TabId>
  {
    set h | h in hs :: h.id
  }

  /** `_tabs.find(t => t.id === id)`: the first host tab with that id. */
  function FirstEntry(hs: seq<HostTab>, id: TabId): (r: Option<HostTab>)
    ensures r.Some? <==> id in HostIds(hs)
    ensures r.Some? ==> r.value in hs && r.value.id == id
    ensures r.Some? ==> exists k :: 0 <= k < |hs| && hs[k] == r.value && forall j :: 0 <= j < k ==> hs[j].id != id
  {
    if hs == [] then None
    else if hs[0].id == id then Some(hs[0])
    else
      assert hs == [hs[0]] + hs[1..];
      var r := FirstEntry(hs[1..], id);
      assert r.Some? ==> exists k :: 0 <= k < |hs| && hs[k] == r.value && forall j :: 0 <= j < k ==> hs[j].id != id by {
        if r.Some? {
          var k :| 0 <= k < |hs| - 1 && hs[1..][k] == r.value && forall j :: 0 <= j < k ==> hs[1..][j].id != id;
          assert forall j :: 0 <= j < k + 1 ==> hs[j].id != id by {
            forall j | 1 <= j < k + 1 ensures hs[j].id != id {
              assert hs[j] == hs[1..][j - 1];
            }
          }
        }
      }
      r
  }

  /** The last host tab with that id: the one whose values a pass over the list leaves behind. */
  function LastEntry(hs: seq<HostTab>, id: TabId): (r: Option<HostTab>)
    ensures r.Some? <==> id in HostIds(hs)
    ensures r.Some? ==> r.value in hs && r.value.id == id
    ensures r.Some? ==> exists k :: 0 <= k < |hs| && hs[k] == r.value && forall j :: k < j < |hs| ==> hs[j].id != id
  {
    if hs == [] then None
    else if hs[|hs| - 1].id == id then Some(hs[|hs| - 1])
    else
      assert hs == hs[..|hs| - 1] + [hs[|hs| - 1]];
      LastEntry(hs[..|hs| - 1], id)
  }

  // ---------------------------------------------------------------------
  // syncWithZoteroTabs
  // ---------------------------------------------------------------------

  /**
   * One pass of the first loop of `syncWithZoteroTabs` for the host tab
   * `h`: a new id is added under the last active tab; a known one has its
   * title, type and selection refreshed.
   */
  function MergeEntry(f: Forest, lastActive: Option<TabId>, h: HostTab, sel: Option<TabId>): Forest
  {
    if h.id !in f.tabs then AddTab(f, h.id, DisplayTitle(h), h.tabType, lastActive)
    else f.(tabs := f.tabs[h.id := f.tabs[h.id].(title := DisplayTitle(h), tabType := h.tabType, selected := Some(h.id) == sel)])
  }

  /** The first loop of `syncWithZoteroTabs`: `MergeEntry` for each host tab, in host order. */
  function MergeAll(f: Forest, lastActive: Option<TabId>, hs: seq<HostTab>, sel: Option<TabId>): Forest
    decreases |hs|
  {
    if hs == [] then f else MergeAll(MergeEntry(f, lastActive, hs[0], sel), lastActive, hs[1..], sel)
  }

  /** The record the first loop leaves stored: `addTab` saves the forest after each new id. */
  function MergeStored(f: Forest, lastActive: Option<TabId>, hs: seq<HostTab>, sel: Option<TabId>, st: Option<Blob>): Option<Blob>
    decreases |hs|
  {
    if hs == [] then st
    else
      var f1 := MergeEntry(f, lastActive, hs[0], sel);
      MergeStored(f1, lastActive, hs[1..], sel, if hs[0].id in f.tabs then st else Some(Save(f1)))
  }

  /**
   * `syncWithZoteroTabs` with the host list `h`, removing the stale ids in
   * the order `order`: merge, remove, then set every selection flag.
   */
  function Sync(f: Forest, lastActive: Option<TabId>, h: HostTabs, order: seq<TabId>, promote: bool): Forest
  {
    Select(RemoveAll(MergeAll(f, lastActive, h.tabs, h.selectedId), order, promote), h.selectedId)
  }

  /** One pass of the first loop: the host id is stored with the host's title and type; other nodes keep their labels. */
  lemma MergeEntryFacts(f: Forest, lastActive: Option<TabId>, h: HostTab, sel: Option<TabId>)
    ensures var r := MergeEntry(f, lastActive, h, sel);
      && r.tabs.Keys == f.tabs.Keys + {h.id} && r.collapsed == f.collapsed
      && r.tabs[h.id].title == DisplayTitle(h) && r.tabs[h.id].tabType == h.tabType
      && r.tabs[h.id].id == (if h.id in f.tabs then f.tabs[h.id].id else h.id)
      && r.tabs[h.id].collapsed == (h.id in f.tabs && f.tabs[h.id].collapsed)
      && forall k :: k in f.tabs && k != h.id ==> SameLabels(r.tabs[k], f.tabs[k])
  {
  }

  /** After the first loop the map holds the old ids and every host id, and the collapsed set is unchanged. */
  lemma {:induction false} MergeAllKeys(f: Forest, lastActive: Option<TabId>, hs: seq<HostTab>, sel: Option<TabId>)
    ensures var r := MergeAll(f, lastActive, hs, sel);
      r.tabs.Keys == f.tabs.Keys + HostIds(hs) && r.collapsed == f.collapsed
    decreases |hs|
  {
    if hs != [] {
      MergeEntryFacts(f, lastActive, hs[0], sel);
      MergeAllKeys(MergeEntry(f, lastActive, hs[0], sel), lastActive, hs[1..], sel);
      HostIdsCons(hs);
    }
  }

  /**
   * After the first loop no node's id or collapse flag has changed (a new
   * node has its own id and is expanded), and a node the host does not
   * list keeps its labels.
   */
  lemma {:induction false} MergeAllNode(f: Forest, lastActive: Option<TabId>, hs: seq<HostTab>, sel: Option<TabId>, k: TabId)
    requires k in f.tabs || k in HostIds(hs)
    ensures var r := MergeAll(f, lastActive, hs, sel);
      && k in r.tabs
      && r.tabs[k].id == (if k in f.tabs then f.tabs[k].id else k)
      && r.tabs[k].collapsed == (k in f.tabs && f.tabs[k].collapsed)
      && (k in f.tabs && k !in HostIds(hs) ==> SameLabels(r.tabs[k], f.tabs[k]))
    decreases |hs|
  {
    MergeAllKeys(f, lastActive, hs, sel);
    if hs != [] {
      var f1 := MergeEntry(f, lastActive, hs[0], sel);
      MergeEntryFacts(f, lastActive, hs[0], sel);
      HostIdsCons(hs);
      MergeAllNode(f1, lastActive, hs[1..], sel, k);
    }
  }

  /** After the first loop each host id carries the title and type of its last host entry. */
  lemma {:induction false} MergeAllTitles(f: Forest, lastActive: Option<TabId>, hs: seq<HostTab>, sel: Option<TabId>, k: TabId)
    requires k in HostIds(hs)
    ensures var r := MergeAll(f, lastActive, hs, sel);
      k in r.tabs && r.tabs[k].title == DisplayTitle(LastEntry(hs, k).value) && r.tabs[k].tabType == LastEntry(hs, k).value.tabType
    decreases |hs|
  {
    var f1 := MergeEntry(f, lastActive, hs[0], sel);
    var rest := hs[1..];
    HostIdsCons(hs);
    MergeAllKeys(f1, lastActive, rest, sel);
    MergeAllNode(f1, lastActive, rest, sel, k);
    if k in HostIds(rest) {
      MergeAllTitles(f1, lastActive, rest, sel, k);
      LastEntryInRest(hs, k);
    } else {
      MergeEntryFacts(f, lastActive, hs[0], sel);
      LastEntryOutside(hs, k);
    }
  }

  /** One more pass of the first loop: merging `hs[i..]` merges `hs[i]`, then the rest. */
  lemma MergeStep(f: Forest, lastActive: Option<TabId>, hs: seq<HostTab>, i: nat, sel: Option<TabId>, st: Option<Blob>)
    requires i < |hs|
    ensures var f1 := MergeEntry(f, lastActive, hs[i], sel);
      && MergeAll(f, lastActive, hs[i..], sel) == MergeAll(f1, lastActive, hs[i + 1..], sel)
      && MergeStored(f, lastActive, hs[i..], sel, st)
         == MergeStored(f1, lastActive, hs[i + 1..], sel, if hs[i].id in f.tabs then st else Some(Save(f1)))
  {
    assert hs[i..][0] == hs[i] && hs[i..][1..] == hs[i + 1..];
  }

  /**
   * The first loop as a whole: the known ids grow by exactly the host's
   * ids, each host tab carries the labels of its last entry, and no
   * collapse flag or collapsed id changes.
   */
  lemma MergeAllResult(f: Forest, lastActive: Option<TabId>, hs: seq<HostTab>, sel: Option<TabId>)
    ensures var r := MergeAll(f, lastActive, hs, sel);
      && r.tabs.Keys == f.tabs.Keys + HostIds(hs) && r.collapsed == f.collapsed
      && (forall k :: k in HostIds(hs) ==>
            r.tabs[k].title == DisplayTitle(LastEntry(hs, k).value) && r.tabs[k].tabType == LastEntry(hs, k).value.tabType)
      && (forall k :: k in r.tabs ==> r.tabs[k].collapsed == (k in f.tabs && f.tabs[k].collapsed))
  {
    var r := MergeAll(f, lastActive, hs, sel);
    MergeAllKeys(f, lastActive, hs, sel);
    forall k | k in HostIds(hs)
      ensures r.tabs[k].title == DisplayTitle(LastEntry(hs, k).value) && r.tabs[k].tabType == LastEntry(hs, k).value.tabType
    {
      MergeAllTitles(f, lastActive, hs, sel, k);
    }
    forall k | k in r.tabs ensures r.tabs[k].collapsed == (k in f.tabs && f.tabs[k].collapsed) {
      MergeAllNode(f, lastActive, hs, sel, k);
    }
  }

  /** An id met only in the first host entry has that entry as its last. */
  lemma LastEntryOutside(hs: seq<HostTab>, id: TabId)
    requires hs != [] && hs[0].id == id && id !in HostIds(hs[1..])
    ensures LastEntry(hs, id) == Some(hs[0])
  {
    var k :| 0 <= k < |hs| && hs[k] == LastEntry(hs, id).value && forall j :: k < j < |hs| ==> hs[j].id != id;
    if k > 0 {
      assert hs[1..][k - 1] == hs[k];
    }
  }

  /** An id the later entries list has its last entry among them. */
  lemma LastEntryInRest(hs: seq<HostTab>, id: TabId)
    requires hs != [] && id in HostIds(hs[1..])
    ensures LastEntry(hs, id) == LastEntry(hs[1..], id)
  {
    var rest := hs[1..];
    assert id in HostIds(hs) by {
      HostIdsCons(hs);
    }
    var k := LastEntryAt(hs, id);
    var m := LastEntryAt(rest, id);
    assert rest[m] == hs[m + 1];
    assert 0 < k ==> rest[k - 1] == hs[k];
    assert k == m + 1;
  }

  /** Where the last entry for a listed id sits. */
  lemma LastEntryAt(hs: seq<HostTab>, id: TabId) returns (k: nat)
    requires id in HostIds(hs)
    ensures k < |hs| && hs[k] == LastEntry(hs, id).value && hs[k].id == id
    ensures forall j :: k < j < |hs| ==> hs[j].id != id
  {
    k :| 0 <= k < |hs| && hs[k] == LastEntry(hs, id).value && forall j :: k < j < |hs| ==> hs[j].id != id;
  }

  /** The ids of a non-empty host list: the first entry's and the rest's. */
  lemma HostIdsCons(hs: seq<HostTab>)
    requires hs != []
    ensures HostIds(hs) == {hs[0].id} + HostIds(hs[1..])
  {
    assert hs == [hs[0]] + hs[1..];
  }

  /** Taking one more host tab adds its id. */
  lemma HostIdsSnoc(hs: seq<HostTab>, i: nat)
    requires i < |hs|
    ensures HostIds(hs[..i + 1]) == HostIds(hs[..i]) + {hs[i].id}
  {
    assert hs[..i + 1] == hs[..i] + [hs[i]];
  }

  // ---------------------------------------------------------------------
  // onTabAdded
  // ---------------------------------------------------------------------

  /**
   * `onTabAdded(ids)`: each id the host lists and the map lacks is added
   * with the title and type of its first host entry, under the last active
   * tab (the call passes no explicit parent).
   */
  function AddFound(f: Forest, lastActive: Option<TabId>, hs: seq<HostTab>, ids: seq<TabId>): Forest
    decreases |ids|
  {
    if ids == [] then f
    else
      var e := FirstEntry(hs, ids[0]);
      var f1 := if e.Some? && ids[0] !in f.tabs then AddTab(f, ids[0], DisplayTitle(e.value), e.value.tabType, lastActive) else f;
      AddFound(f1, lastActive, hs, ids[1..])
  }

  /** After `onTabAdded` the map holds the old ids and every event id the host lists. */
  lemma {:induction false} AddFoundKeys(f: Forest, lastActive: Option<TabId>, hs: seq<HostTab>, ids: seq<TabId>)
    ensures AddFound(f, lastActive, hs, ids).tabs.Keys == f.tabs.Keys + (set id | id in ids && id in HostIds(hs))
    decreases |ids|
  {
    if ids != [] {
      var e := FirstEntry(hs, ids[0]);
      var f1 := if e.Some? && ids[0] !in f.tabs then AddTab(f, ids[0], DisplayTitle(e.value), e.value.tabType, lastActive) else f;
      AddFoundKeys(f1, lastActive, hs, ids[1..]);
      assert ids == [ids[0]] + ids[1..];
    }
  }

  /**
   * `onTabAdded` changes no node's labels, and each new node carries the
   * title and type of the host's first entry for its id, uncollapsed and
   * unselected.
   */
  lemma {:induction false} AddFoundLabels(f: Forest, lastActive: Option<TabId>, hs: seq<HostTab>, ids: seq<TabId>, k: TabId)
    requires k in AddFound(f, lastActive, hs, ids).tabs
    ensures var n := AddFound(f, lastActive, hs, ids).tabs[k];
      && (k in f.tabs ==> SameLabels(n, f.tabs[k]))
      && (k !in f.tabs ==>
            && FirstEntry(hs, k).Some?
            && n.id == k && n.title == DisplayTitle(FirstEntry(hs, k).value)
            && n.tabType == FirstEntry(hs, k).value.tabType && !n.collapsed && !n.selected)
    decreases |ids|
  {
    if ids != [] {
      var e := FirstEntry(hs, ids[0]);
      var f1 := if e.Some? && ids[0] !in f.tabs then AddTab(f, ids[0], DisplayTitle(e.value), e.value.tabType, lastActive) else f;
      AddFoundLabels(f1, lastActive, hs, ids[1..], k);
    }
  }

  // ---------------------------------------------------------------------
  // onTabClosed
  // ---------------------------------------------------------------------

  /** `onTabClosed(ids)`: `removeTabFromTree` for each id in turn. */
  function RemoveAll(f: Forest, ids: seq<TabId>, promote: bool): Forest
    decreases |ids|
  {
    if ids == [] then f else RemoveAll(RemoveTab(f, ids[0], promote), ids[1..], promote)
  }

  /**
   * After `onTabClosed` exactly the closed ids are gone from the map and
   * from the collapsed set; every remaining node keeps its labels.
   */
  lemma {:induction false} RemoveAllKeys(f: Forest, ids: seq<TabId>, promote: bool)
    ensures var r := RemoveAll(f, ids, promote);
      && r.tabs.Keys == f.tabs.Keys - (set id | id in ids)
      && r.collapsed <= f.collapsed
      && (forall k :: k in f.collapsed && k !in f.tabs ==> k in r.collapsed)
      && (forall k :: k in f.tabs ==> (k in r.collapsed <==> k in f.collapsed && k !in ids))
    decreases |ids|
  {
    if ids != [] {
      var f1 := RemoveTab(f, ids[0], promote);
      RemoveAllKeys(f1, ids[1..], promote);
      assert ids == [ids[0]] + ids[1..];
      assert f1.tabs.Keys == f.tabs.Keys - {ids[0]};
      assert (set id | id in ids) == {ids[0]} + (set id | id in ids[1..]);
    }
  }

  /** Removing one more id is one more `removeTabFromTree`. */
  lemma {:induction false} RemoveAllSnoc(f: Forest, ids: seq<TabId>, x: TabId, promote: bool)
    ensures RemoveAll(f, ids + [x], promote) == RemoveTab(RemoveAll(f, ids, promote), x, promote)
    decreases |ids|
  {
    if ids == [] {
      assert [] + [x] == [x];
    } else {
      assert (ids + [x])[0] == ids[0] && (ids + [x])[1..] == ids[1..] + [x];
      RemoveAllSnoc(RemoveTab(f, ids[0], promote), ids[1..], x, promote);
    }
  }

  lemma {:induction false} RemoveAllLabels(f: Forest, ids: seq<TabId>, promote: bool, k: TabId)
    requires k in RemoveAll(f, ids, promote).tabs
    ensures k in f.tabs && SameLabels(RemoveAll(f, ids, promote).tabs[k], f.tabs[k])
    decreases |ids|
  {
    if ids != [] {
      RemoveAllLabels(RemoveTab(f, ids[0], promote), ids[1..], promote, k);
    }
  }
}
