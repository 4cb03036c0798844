/**
 * `saveTreeStructure` and `loadTreeStructure`
 * (src/modules/treeTabManager.ts:518-582). The stored preference is a
 * JSON text; here it is the record that text encodes. The JSON array of
 * tab records becomes a map keyed by the tab id (the array's order, the
 * insertion order of the `tabs` Map, is not kept).
 */
module Persistence {
  import opened Wrappers
  import opened TabForest
  import opened ForestOps

  /** One saved tab: the fields of a `TabNode` that outlive the session. */
  datatype SavedTab = SavedTab(parentId: Option<TabId>, childIds: seq<TabId>, collapsed: bool)

  /** The stored record: `tabs`, `roots` and `collapsed`. */
  datatype Blob = Blob(tabs: map<TabId, SavedTab>, roots: seq<TabId>, collapsed: set<TabId>)

  /** `saveTreeStructure()`: levels, titles, types and selection are dropped. */
  function Save(f: Forest): (b: Blob)
    ensures b.tabs.Keys == f.tabs.Keys && b.roots == f.roots && b.collapsed == f.collapsed
  {
    Blob(map k | k in f.tabs :: SavedTab(f.tabs[k].parentId, f.tabs[k].childIds, f.tabs[k].collapsed),
         f.roots, f.collapsed)
  }

  /** The partial node `loadTreeStructure` builds from a saved tab. */
  function Restore(id: TabId, s: SavedTab): TabNode
  {
    TabNode(id, s.parentId, s.childIds, 0, s.collapsed, "", "", false)
  }

  /**
   * `loadTreeStructure()` with `stored` the preference (None when it is
   * unset or empty): the roots and the collapsed set are replaced, and
   * each saved tab that has no node yet gets a partial one (level 0, no
   * title or type, not selected). Nodes already present are kept.
   */
  function Load(f: Forest, stored: Option<Blob>): (r: Forest)
    ensures stored.None? ==> r == f
    ensures stored.Some? ==>
      && r.tabs.Keys == f.tabs.Keys + stored.value.tabs.Keys
      && r.roots == stored.value.roots && r.collapsed == stored.value.collapsed
      && (forall k :: k in f.tabs ==> r.tabs[k] == f.tabs[k])
      && (forall k :: k in stored.value.tabs && k !in f.tabs ==>
            var n := r.tabs[k];
            && n.id == k && n.level == 0 && n.title == "" && n.tabType == "" && !n.selected
            && n.parentId == stored.value.tabs[k].parentId
            && n.childIds == stored.value.tabs[k].childIds
            && n.collapsed == stored.value.tabs[k].collapsed)
  {
    match stored
    case None => f
    case Some(b) =>
      Forest(map k | k in f.tabs.Keys + b.tabs.Keys :: if k in f.tabs then f.tabs[k] else Restore(k, b.tabs[k]),
             b.roots, b.collapsed)
  }

  /** Saving what was just loaded into the empty start state gives the same record back. */
  lemma SaveLoadRoundTrip(b: Blob)
    ensures Save(Load(EmptyForest, Some(b))) == b
  {
    var s := Save(Load(EmptyForest, Some(b)));
    assert s.tabs == b.tabs;
  }

  /** Loading the saved forest into the empty start state restores its structure. */
  lemma LoadSaveRestoresStructure(f: Forest)
    ensures var r := Load(EmptyForest, Some(Save(f)));
      && r.tabs.Keys == f.tabs.Keys && r.roots == f.roots && r.collapsed == f.collapsed
      && forall k :: k in f.tabs ==>
           && r.tabs[k].parentId == f.tabs[k].parentId && r.tabs[k].childIds == f.tabs[k].childIds
           && r.tabs[k].collapsed == f.tabs[k].collapsed && r.tabs[k].level == 0
  {
  }

  /** The record ignores levels and labels other than `collapsed`. */
  lemma SaveIgnoresLevels(a: Forest, b: Forest)
    requires a.roots == b.roots && a.collapsed == b.collapsed && SameButLevels(a.tabs, b.tabs)
    ensures Save(a) == Save(b)
  {
    assert Save(a).tabs == Save(b).tabs;
  }

  /** Loading the same record twice is the same as loading it once. */
  lemma LoadIdempotent(f: Forest, b: Blob)
    ensures Load(Load(f, Some(b)), Some(b)) == Load(f, Some(b))
  {
    var once := Load(f, Some(b));
    assert Load(once, Some(b)).tabs == once.tabs;
  }

  /** A restored forest's flags and set agree when they agreed in the saved forest. */
  lemma LoadSaveIndexed(f: Forest)
    requires CollapsedIndexed(f)
    ensures CollapsedIndexed(Load(EmptyForest, Some(Save(f))))
  {
  }
}
