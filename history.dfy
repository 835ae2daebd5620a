/** The older collection view (`History.tsx`): it keeps the open
    collections and the expanded paths in its own state, as a list and a
    set, and writes them to local storage after every change (the
    collections as `{id, name, path}` under "postier-collections", the
    expanded paths under "postier-expanded-nodes"). Its state updates are
    functional (`setCollections(prev => ...)`), so refreshes compose. Asynchronous calls are
    taken in program order, and refreshes nobody awaits one after another,
    in list order. */
module History {
  import opened Wrappers
  import opened Text
  import opened Types
  import Store
  import Backend
  import TreeOps

  /** What is stored of a collection: everything but its tree. */
  datatype CollectionRef = CollectionRef(id: string, name: string, path: string)

  function RefOf(c: Collection): CollectionRef {
    CollectionRef(c.id, c.name, c.path)
  }

  /** `collections.map(c => ({ id: c.id, name: c.name, path: c.path }))`. */
  function RefsOf(cs: seq<Collection>): (r: seq<CollectionRef>)
    ensures |r| == |cs| && forall i :: 0 <= i < |cs| ==> r[i] == RefOf(cs[i])
  {
    seq(|cs|, i requires 0 <= i < |cs| => RefOf(cs[i]))
  }

  /** A stored reference as a collection whose tree has not been read;
      the loader replaces the tree and keeps the rest. */
  function Unread(r: CollectionRef): (c: Collection)
    ensures RefOf(c) == r
  {
    Collection(r.id, r.name, r.path, DirectoryTree(FileSystemEntry(r.name, r.path, true, 0, 0), []))
  }

  function UnreadAll(rs: seq<CollectionRef>): (cs: seq<Collection>)
    ensures |cs| == |rs| && forall i :: 0 <= i < |rs| ==> cs[i] == Unread(rs[i])
  {
    seq(|rs|, i requires 0 <= i < |rs| => Unread(rs[i]))
  }

  /** The stored references whose path can be read, in order. */
  function LoadableRefs(fs: Backend.FileSystem, rs: seq<CollectionRef>): seq<CollectionRef> {
    if rs == [] then []
    else (if Backend.Loadable(fs, rs[0].path) then [rs[0]] else []) + LoadableRefs(fs, rs[1..])
  }

  /** Loading the unread collections keeps those of the loadable
      references, in order. */
  lemma {:induction false} LoadableOfUnread(fs: Backend.FileSystem, rs: seq<CollectionRef>)
    ensures TreeOps.Loadable(fs, UnreadAll(rs)) == UnreadAll(LoadableRefs(fs, rs))
  {
    if rs != [] {
      LoadableOfUnread(fs, rs[1..]);
      assert UnreadAll(rs)[1..] == UnreadAll(rs[1..]);
      var head := if Backend.Loadable(fs, rs[0].path) then [rs[0]] else [];
      assert UnreadAll(head + LoadableRefs(fs, rs[1..])) == UnreadAll(head) + UnreadAll(LoadableRefs(fs, rs[1..]));
    }
  }

  /** What startup writes back: once the loadable collections are read
      again, the stored list holds exactly the references that load, in
      their stored order. */
  lemma StoredAfterLoad(fs: Backend.FileSystem, rs: seq<CollectionRef>, loaded: seq<Collection>)
    requires |loaded| == |TreeOps.Loadable(fs, UnreadAll(rs))|
    requires forall i :: 0 <= i < |loaded| ==>
      TreeOps.Reloaded(fs, loaded[i], TreeOps.Loadable(fs, UnreadAll(rs))[i])
    ensures RefsOf(loaded) == LoadableRefs(fs, rs)
  {
    LoadableOfUnread(fs, rs);
    var kept := LoadableRefs(fs, rs);
    forall i | 0 <= i < |loaded| ensures RefsOf(loaded)[i] == kept[i] {
      assert RefOf(loaded[i]) == RefOf(UnreadAll(kept)[i]);
    }
  }

  /** The roots of the collections. */
  function Roots(cs: seq<Collection>): set<string> {
    set i | 0 <= i < |cs| :: cs[i].path
  }

  /** `toggleNode(path)` on the set of expanded paths. */
  function ToggleIn(s: set<string>, p: string): (r: set<string>)
    ensures p in r <==> p !in s
    ensures r - {p} == s - {p}
  {
    if p in s then s - {p} else s + {p}
  }

  /** The paths of the first `i` children of `t`. */
  function PathsBefore(t: DirectoryTree, i: nat): set<string>
    requires i <= |t.children|
  {
    if i == 0 then {} else PathsBefore(t, i - 1) + TreeOps.TreePaths(t.children[i - 1])
  }

  /** The children before `i` and from `i` on make up all children. */
  lemma {:induction false} PathsBeforeAndFrom(t: DirectoryTree, i: nat)
    requires i <= |t.children|
    ensures PathsBefore(t, i) + TreeOps.PathsFrom(t, i) == TreeOps.PathsFrom(t, 0)
    decreases i
  {
    if i > 0 {
      PathsBeforeAndFrom(t, i - 1);
    }
  }

  /** `removeNodesFromSet(set, node)`: deletes the node's path and, child
      by child, the paths of its subtrees; the result is the set without
      every path of the tree. */
  method RemoveNodesFromSet(s: set<string>, node: DirectoryTree) returns (r: set<string>)
    ensures r == s - TreeOps.TreePaths(node)
    decreases node
  {
    r := s - {node.entry.path};
    var i := 0;
    while i < |node.children|
      invariant 0 <= i <= |node.children|
      invariant r == s - {node.entry.path} - PathsBefore(node, i)
    {
      var child := node.children[i];
      r := RemoveNodesFromSet(r, child);
      i := i + 1;
    }
    PathsBeforeAndFrom(node, |node.children|);
  }

  /** Closing by the tree snapshot keeps an expanded path under the root
      that the snapshot does not hold (a folder gone or renamed since):
      closing by prefix, as the newer view does, drops it. */
  lemma SnapshotKeepsStalePath()
    ensures var root := DirectoryTree(FileSystemEntry("api", "/ws/api", true, 0, 0), []);
      var stale := "/ws/api/old";
      && stale in {"/ws/api", stale} - TreeOps.TreePaths(root)
      && stale !in TreeOps.KeepOutside(["/ws/api", stale], "/ws/api")
  {
    var root := DirectoryTree(FileSystemEntry("api", "/ws/api", true, 0, 0), []);
    assert TreeOps.TreePaths(root) == {"/ws/api"};
    assert StartsWith("/ws/api/old", "/ws/api");
    TreeOps.KeepOutsideCount(["/ws/api", "/ws/api/old"], "/ws/api", "/ws/api/old");
  }

  /** After a refresh of all of `cs`, one collection after the other and
      each on the list as it is then: every collection whose id can be
      read again has a new tree, every other one is as it was. */
  ghost predicate RefreshedAll(fs: Backend.FileSystem, cs: seq<Collection>, ids: set<string>, r: seq<Collection>) {
    |r| == |cs| && forall i :: 0 <= i < |cs| ==> RefreshedAt(fs, cs, ids, i, r[i])
  }

  /** What the `i`-th collection is after the refreshes of `ids`. */
  ghost predicate RefreshedAt(fs: Backend.FileSystem, cs: seq<Collection>, ids: set<string>, i: int, x: Collection)
    requires 0 <= i < |cs|
  {
    if cs[i].id in ids && TreeOps.Refreshable(fs, cs, cs[i].id) then
      x == cs[i].(tree := x.tree) && Backend.Mirrors(fs, x.tree)
      && x.tree.entry.path == TreeOps.CollectionById(cs, cs[i].id).value.path
    else x == cs[i]
  }

  /** The ids of the first `k` collections. */
  function IdsBefore(cs: seq<Collection>, k: nat): set<string>
    requires k <= |cs|
  {
    set j | 0 <= j < k :: cs[j].id
  }

  /** After refreshing all of `cs`, every collection that can be read
      again has a tree read from the filesystem, whatever its position: the
      refreshes compose, unlike those of the newer view. */
  lemma EveryRefreshableRefreshed(fs: Backend.FileSystem, cs: seq<Collection>, r: seq<Collection>, i: int)
    requires RefreshedAll(fs, cs, IdsBefore(cs, |cs|), r)
    requires 0 <= i < |cs| && TreeOps.Refreshable(fs, cs, cs[i].id)
    ensures r[i] == cs[i].(tree := r[i].tree) && Backend.Mirrors(fs, r[i].tree)
  {
    assert cs[i].id in IdsBefore(cs, |cs|);
    assert RefreshedAt(fs, cs, IdsBefore(cs, |cs|), i, r[i]);
  }

  /** One refresh that succeeds: the new tree of the `k`-th collection's
      id, applied to the list as it is, extends the refresh by that id. */
  lemma RefreshStep(fs: Backend.FileSystem, cs: seq<Collection>, k: nat, cur: seq<Collection>, t: DirectoryTree)
    requires k < |cs| && RefreshedAll(fs, cs, IdsBefore(cs, k), cur)
    requires TreeOps.Refreshable(fs, cs, cs[k].id)
    requires Backend.Mirrors(fs, t) && t.entry.path == TreeOps.CollectionById(cs, cs[k].id).value.path
    ensures RefreshedAll(fs, cs, IdsBefore(cs, k + 1), TreeOps.WithTree(cur, cs[k].id, t))
  {
    var id := cs[k].id;
    var r := TreeOps.WithTree(cur, id, t);
    var before, after := IdsBefore(cs, k), IdsBefore(cs, k + 1);
    assert after == before + {id};
    forall i | 0 <= i < |cs| ensures RefreshedAt(fs, cs, after, i, r[i]) {
      assert RefreshedAt(fs, cs, before, i, cur[i]);
      if cs[i].id == id {
        assert r[i] == cur[i].(tree := t);
      } else {
        assert r[i] == cur[i];
      }
    }
  }

  /** One refresh that fails changes nothing, and the `k`-th id counts as
      refreshed. */
  lemma RefreshSkip(fs: Backend.FileSystem, cs: seq<Collection>, k: nat, cur: seq<Collection>)
    requires k < |cs| && RefreshedAll(fs, cs, IdsBefore(cs, k), cur)
    requires !TreeOps.Refreshable(fs, cs, cs[k].id)
    ensures RefreshedAll(fs, cs, IdsBefore(cs, k + 1), cur)
  {
    assert IdsBefore(cs, k + 1) == IdsBefore(cs, k) + {cs[k].id};
  }

  /** The local state of the view besides the collections and the
      expanded paths. */
  datatype Panel = Panel(
    editingNode: Option<string>, editingValue: string,
    deleteConfirmation: Option<string>, closeConfirmation: Option<TreeOps.CloseRequest>,
    duplicatePath: Option<string>, errorDialog: Option<TreeOps.Notice>,
    createDialog: Option<TreeOps.CreateRequest>, createName: string,
    loading: bool)

  const Initial := Panel(None, "", None, None, None, None, None, "", true)

  class HistoryView {
    const app: Backend.App
    var collections: seq<Collection>
    var expanded: set<string>
    var panel: Panel
    /** The two entries of local storage. */
    var storedCollections: seq<CollectionRef>
    var storedExpanded: set<string>

    /** Local storage holds what the view shows. */
    ghost predicate Persisted()
      reads this
    {
      storedCollections == RefsOf(collections) && storedExpanded == expanded
    }

    /** The first render: no collection, the expanded paths read from
        storage. */
    constructor (app: Backend.App, storedCollections: seq<CollectionRef>, storedExpanded: set<string>)
      ensures this.app == app && collections == [] && expanded == storedExpanded && panel == Initial
      ensures this.storedCollections == storedCollections && this.storedExpanded == storedExpanded
    {
      this.app := app;
      collections, expanded, panel := [], storedExpanded, Initial;
      this.storedCollections, this.storedExpanded := storedCollections, storedExpanded;
    }

    /** `setCollections` followed by the effect that stores them. */
    method SetCollections(cs: seq<Collection>)
      modifies this
      ensures collections == cs && storedCollections == RefsOf(cs)
      ensures expanded == old(expanded) && storedExpanded == old(storedExpanded) && panel == old(panel)
    {
      collections, storedCollections := cs, RefsOf(cs);
    }

    /** `setExpandedNodes` followed by the effect that stores them. */
    method SetExpanded(s: set<string>)
      modifies this
      ensures expanded == s && storedExpanded == s
      ensures collections == old(collections) && storedCollections == old(storedCollections) && panel == old(panel)
    {
      expanded, storedExpanded := s, s;
    }

    /** The mount: the stored references are read before the first
        effects store the empty list; each is then read again from its
        path, the list becomes those that load, their roots are expanded,
        the others are reported, and storage ends up holding only the
        references that load. */
    method Mount()
      requires collections == []
      modifies this
      ensures Persisted()
      ensures old(storedCollections) == [] ==>
        collections == [] && expanded == old(expanded) && panel == old(panel).(loading := false)
      ensures old(storedCollections) != [] ==>
        var cs := UnreadAll(old(storedCollections));
        var kept := TreeOps.Loadable(app.fs, cs);
        var names := TreeOps.Unloadable(app.fs, cs);
        && |collections| == |kept|
        && (forall i :: 0 <= i < |kept| ==> TreeOps.Reloaded(app.fs, collections[i], kept[i]))
        && expanded == old(expanded) + Roots(collections)
        && storedCollections == LoadableRefs(app.fs, old(storedCollections))
        && panel == old(panel).(loading := false,
                                errorDialog := if names == [] then old(panel).errorDialog
                                               else Some(TreeOps.SomeNotLoaded(names)))
    {
      var stored := storedCollections;
      SetCollections([]);
      SetExpanded(expanded);
      if |stored| == 0 {
        panel := panel.(loading := false);
        return;
      }
      var loaded, invalid := TreeOps.PartitionStored(app.fs, UnreadAll(stored));
      SetCollections(loaded);
      if |loaded| > 0 {
        SetExpanded(expanded + Roots(loaded));
      }
      if |loaded| != |stored| {
        // the explicit rewrite stores the same list as the effect
        storedCollections := RefsOf(loaded);
      }
      if |invalid| > 0 {
        panel := panel.(errorDialog := Some(TreeOps.SomeNotLoaded(invalid)));
      }
      panel := panel.(loading := false);
      StoredAfterLoad(app.fs, stored, loaded);
    }

    /** `loadCollection`, with the folder the dialog returned as a
        parameter: errors and duplicates as in the newer view; otherwise
        the collection is appended and its root expanded. */
    method LoadCollection(answer: Result<string>, id: string)
      requires Persisted()
      modifies this
      ensures Persisted()
      ensures var path := Backend.OpenFolderDialog(answer);
        var cs := old(collections);
        if path.Failure? || TreeOps.CollectionAtPath(cs, path.value).Some? || !Backend.Loadable(app.fs, path.value) then
          && collections == cs && expanded == old(expanded)
          && panel == if path.Success? && TreeOps.CollectionAtPath(cs, path.value).Some?
                      then old(panel).(duplicatePath := Some(path.value))
                      else old(panel).(errorDialog := Some(TreeOps.LoadFailed))
        else
          && panel == old(panel)
          && |collections| == |cs| + 1 && collections[..|cs|] == cs
          && collections[|cs|].id == id && collections[|cs|].path == path.value
          && collections[|cs|].name == collections[|cs|].tree.entry.name
          && collections[|cs|].tree.entry.path == path.value
          && Backend.Mirrors(app.fs, collections[|cs|].tree)
          && expanded == old(expanded) + {path.value}
    {
      var path := Backend.OpenFolderDialog(answer);
      if path.Failure? {
        panel := panel.(errorDialog := Some(TreeOps.LoadFailed));
        return;
      }
      if TreeOps.CollectionAtPath(collections, path.value).Some? {
        panel := panel.(duplicatePath := Some(path.value));
        return;
      }
      var tree := Backend.GetDirectoryTree(app.fs, path.value);
      if tree.Failure? {
        panel := panel.(errorDialog := Some(TreeOps.LoadFailed));
        return;
      }
      var t := tree.value;
      SetCollections(collections + [Collection(id, t.entry.name, t.entry.path, t)]);
      SetExpanded(expanded + {t.entry.path});
    }

    /** `requestCloseCollection(id)`: the confirmation opens for an open
        collection only. */
    method RequestCloseCollection(id: string)
      modifies this
      ensures collections == old(collections) && expanded == old(expanded)
      ensures storedCollections == old(storedCollections) && storedExpanded == old(storedExpanded)
      ensures var c := TreeOps.CollectionById(collections, id);
        panel == if c.None? then old(panel)
                 else old(panel).(closeConfirmation := Some(TreeOps.CloseRequest(id, c.value.name)))
    {
      var c := TreeOps.CollectionById(collections, id);
      if c.Some? {
        panel := panel.(closeConfirmation := Some(TreeOps.CloseRequest(id, c.value.name)));
      }
    }

    /** `confirmCloseCollection`: every collection of the id is removed,
        and so is every path of the first one's tree as it was last read. */
    method ConfirmCloseCollection()
      requires Persisted()
      modifies this
      ensures Persisted()
      ensures old(panel.closeConfirmation).None? ==>
        collections == old(collections) && expanded == old(expanded) && panel == old(panel)
      ensures old(panel.closeConfirmation).Some? ==>
        var id := old(panel.closeConfirmation).value.collectionId;
        var c := TreeOps.CollectionById(old(collections), id);
        && collections == Store.WithoutId(old(collections), id)
        && expanded == (if c.Some? then old(expanded) - TreeOps.TreePaths(c.value.tree) else old(expanded))
        && panel == old(panel).(closeConfirmation := None)
    {
      if panel.closeConfirmation.None? {
        return;
      }
      var id := panel.closeConfirmation.value.collectionId;
      var c := TreeOps.CollectionById(collections, id);
      SetCollections(Store.WithoutId(collections, id));
      var s := expanded;
      if c.Some? {
        s := RemoveNodesFromSet(s, c.value.tree);
      }
      SetExpanded(s);
      panel := panel.(closeConfirmation := None);
    }

    /** `refreshCollections` as the handlers run it: every collection of
        the list as it was is looked up and read again, and each success
        is applied to the list as it is by then. */
    method RefreshAll()
      requires Persisted()
      modifies this
      ensures Persisted()
      ensures expanded == old(expanded) && panel == old(panel)
      ensures RefreshedAll(app.fs, old(collections), IdsBefore(old(collections), |old(collections)|), collections)
    {
      var cs := collections;
      var k := 0;
      while k < |cs|
        invariant 0 <= k <= |cs|
        invariant Persisted() && expanded == old(expanded) && panel == old(panel)
        invariant RefreshedAll(app.fs, cs, IdsBefore(cs, k), collections)
      {
        RefreshIn(cs, k);
        k := k + 1;
      }
    }

    /** `refreshCollection(cs[k].id)` made while the list was `cs`: the
        collection is looked up in `cs`, and the new tree goes to every
        collection of that id in the current list. */
    method RefreshIn(cs: seq<Collection>, k: nat)
      requires k < |cs| && Persisted()
      requires RefreshedAll(app.fs, cs, IdsBefore(cs, k), collections)
      modifies this
      ensures Persisted() && expanded == old(expanded) && panel == old(panel)
      ensures RefreshedAll(app.fs, cs, IdsBefore(cs, k + 1), collections)
    {
      var id := cs[k].id;
      var c := TreeOps.CollectionById(cs, id);
      if c.None? {
        // `if (!collection) return;`: the id was taken from the list itself
        assert false;
        return;
      }
      var tree := Backend.GetDirectoryTree(app.fs, c.value.path);
      if tree.Success? {
        RefreshStep(app.fs, cs, k, collections, tree.value);
        SetCollections(TreeOps.WithTree(collections, id, tree.value));
      } else {
        RefreshSkip(app.fs, cs, k, collections);
      }
    }

    /** `toggleNode(path)`: only the expanded set changes. */
    method ToggleNode(path: string)
      requires Persisted()
      modifies this
      ensures Persisted()
      ensures expanded == ToggleIn(old(expanded), path)
      ensures collections == old(collections) && panel == old(panel)
    {
      SetExpanded(ToggleIn(expanded, path));
    }

    /** `startEdit(node)`. */
    method StartEdit(entry: FileSystemEntry)
      modifies this
      ensures collections == old(collections) && expanded == old(expanded)
      ensures storedCollections == old(storedCollections) && storedExpanded == old(storedExpanded)
      ensures panel == old(panel).(editingNode := Some(entry.path), editingValue := TreeOps.StartEditValue(entry))
    {
      panel := panel.(editingNode := Some(entry.path), editingValue := TreeOps.StartEditValue(entry));
    }

    /** `cancelEdit`. */
    method CancelEdit()
      modifies this
      ensures collections == old(collections) && expanded == old(expanded)
      ensures storedCollections == old(storedCollections) && storedExpanded == old(storedExpanded)
      ensures panel == old(panel).(editingNode := None, editingValue := "")
    {
      panel := panel.(editingNode := None, editingValue := "");
    }

    /** `saveEdit(oldPath, isDir)`, as in the newer view, with refreshes
        that compose. */
    method SaveEdit(oldPath: string, isDir: bool, now: int) returns (outcome: TreeOps.Outcome)
      requires Persisted()
      modifies this, app
      ensures Persisted() && expanded == old(expanded)
      ensures TreeOps.RenameEffect(app, old(collections), oldPath, isDir, old(panel.editingValue), now, outcome)
      ensures outcome in {TreeOps.Cancelled, TreeOps.Done} ==> panel == old(panel).(editingNode := None, editingValue := "")
      ensures outcome == TreeOps.Conflict ==> panel == old(panel).(errorDialog := Some(TreeOps.NameConflict))
      ensures outcome == TreeOps.Failed ==> panel == old(panel).(errorDialog := Some(TreeOps.RenameFailed))
      ensures outcome == TreeOps.Done ==>
        RefreshedAll(app.fs, old(collections), IdsBefore(old(collections), |old(collections)|), collections)
      ensures outcome != TreeOps.Done ==> collections == old(collections)
    {
      outcome := TreeOps.Rename(app, collections, oldPath, isDir, panel.editingValue, now);
      if outcome == TreeOps.Cancelled {
        CancelEdit();
      } else if outcome == TreeOps.Conflict {
        panel := panel.(errorDialog := Some(TreeOps.NameConflict));
      } else if outcome == TreeOps.Failed {
        panel := panel.(errorDialog := Some(TreeOps.RenameFailed));
      } else {
        RefreshAll();
        CancelEdit();
      }
    }

    /** `requestCreateNew(parentPath, isDir)`. */
    method RequestCreateNew(parentPath: string, isDir: bool)
      modifies this
      ensures collections == old(collections) && expanded == old(expanded)
      ensures storedCollections == old(storedCollections) && storedExpanded == old(storedExpanded)
      ensures panel == old(panel).(createDialog := Some(TreeOps.CreateRequest(parentPath, isDir)), createName := "")
    {
      panel := panel.(createDialog := Some(TreeOps.CreateRequest(parentPath, isDir)), createName := "");
    }

    /** `confirmCreateNew`: as in the newer view; the parent is added to
        the expanded set. */
    method ConfirmCreateNew(now: int) returns (outcome: TreeOps.Outcome)
      requires Persisted()
      modifies this, app
      ensures Persisted() && panel.createDialog.None?
      ensures old(panel.createDialog).None? ==>
        && outcome == TreeOps.Cancelled && panel == old(panel)
        && collections == old(collections) && expanded == old(expanded)
        && app.fs == old(app.fs) && app.calls == old(app.calls)
      ensures old(panel.createDialog).Some? ==>
        var req := old(panel.createDialog).value;
        && TreeOps.CreateEffect(app, old(collections), req.parentPath, req.isDir, old(panel.createName), now, outcome)
        && panel == old(panel).(createDialog := None,
             errorDialog := if outcome == TreeOps.Conflict then Some(TreeOps.NameConflict)
                            else if outcome == TreeOps.Failed then Some(TreeOps.CreateFailed)
                            else old(panel).errorDialog)
        && (outcome != TreeOps.Done ==> collections == old(collections) && expanded == old(expanded))
        && (outcome == TreeOps.Done ==>
              && RefreshedAll(app.fs, old(collections), IdsBefore(old(collections), |old(collections)|), collections)
              && expanded == old(expanded) + {req.parentPath})
    {
      if panel.createDialog.None? {
        return TreeOps.Cancelled;
      }
      var req := panel.createDialog.value;
      outcome := TreeOps.Create(app, collections, req.parentPath, req.isDir, panel.createName, now);
      if outcome == TreeOps.Conflict {
        panel := panel.(errorDialog := Some(TreeOps.NameConflict));
      } else if outcome == TreeOps.Failed {
        panel := panel.(errorDialog := Some(TreeOps.CreateFailed));
      } else if outcome == TreeOps.Done {
        RefreshAll();
        SetExpanded(expanded + {req.parentPath});
      }
      panel := panel.(createDialog := None);
    }

    /** `deleteNode(path)`: as in the newer view, without changing the
        selection (this view has none). */
    method DeleteNode(path: string) returns (outcome: TreeOps.Outcome)
      requires Persisted()
      modifies this, app
      ensures Persisted() && expanded == old(expanded)
      ensures TreeOps.DeleteEffect(app, old(collections), path, outcome)
      ensures panel == old(panel).(
        deleteConfirmation := if outcome == TreeOps.NeedsConfirm then Some(path) else old(panel).deleteConfirmation,
        errorDialog := if outcome == TreeOps.Failed then Some(TreeOps.DeleteFailed) else old(panel).errorDialog)
      ensures outcome == TreeOps.Done ==>
        RefreshedAll(app.fs, old(collections), IdsBefore(old(collections), |old(collections)|), collections)
      ensures outcome != TreeOps.Done ==> collections == old(collections)
    {
      outcome := TreeOps.Delete(app, collections, path);
      if outcome == TreeOps.NeedsConfirm {
        panel := panel.(deleteConfirmation := Some(path));
      } else if outcome == TreeOps.Failed {
        panel := panel.(errorDialog := Some(TreeOps.DeleteFailed));
      } else if outcome == TreeOps.Done {
        RefreshAll();
      }
    }

    /** `confirmDelete`: the confirmed path is removed as a directory. */
    method ConfirmDelete()
      requires Persisted()
      modifies this, app
      ensures Persisted() && expanded == old(expanded)
      ensures app.refused == old(app.refused)
      ensures old(panel.deleteConfirmation).None? ==>
        panel == old(panel) && collections == old(collections)
        && app.fs == old(app.fs) && app.calls == old(app.calls)
      ensures old(panel.deleteConfirmation).Some? ==>
        var path := old(panel.deleteConfirmation).value;
        var r := Backend.RemoveAllResult(old(app.fs), app.refused, path);
        && app.calls == old(app.calls) + [Backend.RemoveTree(path)]
        && app.fs == (if r.Some? then r.value else old(app.fs))
        && panel == old(panel).(deleteConfirmation := None,
             errorDialog := if r.None? then Some(TreeOps.DeleteFailed) else old(panel).errorDialog)
        && (r.Some? ==> RefreshedAll(app.fs, old(collections), IdsBefore(old(collections), |old(collections)|), collections))
        && (r.None? ==> collections == old(collections))
    {
      if panel.deleteConfirmation.None? {
        return;
      }
      var ok := app.DeleteDirectory(panel.deleteConfirmation.value);
      if ok {
        RefreshAll();
      } else {
        panel := panel.(errorDialog := Some(TreeOps.DeleteFailed));
      }
      panel := panel.(deleteConfirmation := None);
    }
  }
}
