/** The collection tree view (`FileTree.tsx`): the open collections live
    in the workspace store, the view keeps only its dialogs. Its handlers
    call the storage backend, update the store, and talk to the request
    editor through two window events, which this model turns into direct
    calls of the editor's listeners (`postier-load-file` runs
    `loadRequestFromFile`, `postier-clear-request` runs `clearRequest`).
    Asynchronous calls are taken in program order, and a
    `collections.forEach(c => refreshCollection(c.id))` that nobody awaits
    is taken as the refreshes one after another, in list order. */
module FileTree {
  import opened Wrappers
  import opened Text
  import opened Types
  import Store
  import Backend
  import TreeOps
  import HttpClient

  /** The local state of the view: the rename field, the dialogs, and
      whether the startup load is still running. */
  datatype Panel = Panel(
    editingNode: Option<string>, editingValue: string,
    deleteConfirmation: Option<string>, closeConfirmation: Option<TreeOps.CloseRequest>,
    duplicatePath: Option<string>, errorDialog: Option<TreeOps.Notice>,
    createDialog: Option<TreeOps.CreateRequest>, createName: string,
    loading: bool, selectDialog: bool)

  const Initial := Panel(None, "", None, None, None, None, None, "", true, false)

  /** The collections after a refresh of all of them through the stale
      list `cs`: every refresh rebuilds the list from `cs`, so only the
      last one that succeeds is left; when none succeeds nothing changes. */
  ghost predicate RefreshedLast(fs: Backend.FileSystem, cs: seq<Collection>, r: seq<Collection>) {
    RefreshedUpTo(fs, cs, |cs|, r)
  }

  /** The same after the refreshes of the first `k` collections. */
  ghost predicate RefreshedUpTo(fs: Backend.FileSystem, cs: seq<Collection>, k: nat, r: seq<Collection>)
    requires k <= |cs|
  {
    var j := TreeOps.LastRefreshable(fs, cs, k);
    if j < 0 then r == cs else TreeOps.RefreshedOnly(fs, cs, cs[j].id, r)
  }

  /** Refreshing all collections whose last one can be read again leaves
      every collection with another id as it was, even one that could be
      read again too. */
  lemma OnlyLastRefreshed(fs: Backend.FileSystem, cs: seq<Collection>, r: seq<Collection>, i: int)
    requires RefreshedLast(fs, cs, r)
    requires cs != [] && TreeOps.Refreshable(fs, cs, cs[|cs| - 1].id)
    requires 0 <= i < |cs| && cs[i].id != cs[|cs| - 1].id
    ensures r[i] == cs[i]
  {
  }

  /** Closing a collection by id and by path prefix leaves no collection
      of that id and no expanded path under its path, whatever the tree
      looks like now. */
  lemma {:induction false} ClosedCollectionGone(cs: seq<Collection>, xs: seq<string>, c: Collection)
    ensures forall d :: d in Store.WithoutId(cs, c.id) ==> d.id != c.id
    ensures forall p :: p in TreeOps.KeepOutside(xs, c.path) ==> !StartsWith(p, c.path)
  {
    Store.WithoutIdMembers(cs, c.id);
    forall p | p in TreeOps.KeepOutside(xs, c.path) ensures !StartsWith(p, c.path) {
      TreeOps.KeepOutsideCount(xs, c.path, p);
    }
  }

  /** No two collections are open at the same path. */
  predicate DistinctPaths(cs: seq<Collection>) {
    forall i, j :: 0 <= i < j < |cs| ==> cs[i].path != cs[j].path
  }

  class FileTreeView {
    const store: Store.WorkspaceStore
    const app: Backend.App
    const client: HttpClient.RequestController
    var panel: Panel

    /** The view and the editor share the store and the backend. */
    predicate Wired() {
      client.store == store && client.app == app
    }

    constructor (store: Store.WorkspaceStore, app: Backend.App, client: HttpClient.RequestController)
      requires client.store == store && client.app == app
      ensures this.store == store && this.app == app && this.client == client
      ensures Wired() && panel == Initial
    {
      this.store, this.app, this.client := store, app, client;
      panel := Initial;
    }

    /** The mount effect `loadStoredCollections`: every collection the
        store kept is read again from its path; those that load replace
        the list, in order, with their new trees, the roots of those are
        expanded, and the names of the others are reported. */
    method LoadStoredCollections()
      modifies this, store
      ensures old(store.collections) == [] ==>
        store.State() == old(store.State()) && panel == old(panel).(loading := false)
      ensures old(store.collections) != [] ==>
        var cs := old(store.collections);
        var kept := TreeOps.Loadable(app.fs, cs);
        var names := TreeOps.Unloadable(app.fs, cs);
        && |store.collections| == |kept|
        && (forall i :: 0 <= i < |kept| ==> TreeOps.Reloaded(app.fs, store.collections[i], kept[i]))
        && TreeOps.Expanded(old(store.expandedNodes), store.collections, store.expandedNodes)
        && store.State() == old(store.State()).(collections := store.collections,
                                                 expandedNodes := store.expandedNodes)
        && panel == old(panel).(loading := false,
                                errorDialog := if names == [] then old(panel).errorDialog
                                               else Some(TreeOps.SomeNotLoaded(names)))
    {
      if |store.collections| == 0 {
        panel := panel.(loading := false);
        return;
      }
      var loaded, invalid := TreeOps.PartitionStored(app.fs, store.collections);
      store.SetCollections(loaded);
      if |loaded| > 0 {
        var ys := TreeOps.ExpandRoots(store.expandedNodes, loaded);
        store.SetExpandedNodes(ys);
      }
      if |invalid| > 0 {
        panel := panel.(errorDialog := Some(TreeOps.SomeNotLoaded(invalid)));
      }
      panel := panel.(loading := false);
    }

    /** The default-selection effect: once loading is over and some
        collection is open, a selection that names no open collection is
        replaced by the only collection, or the chooser opens. Afterwards
        the selection names an open collection or the chooser is open. */
    method SelectDefault()
      modifies this, store
      ensures store.State() == old(store.State()).(selectedCollection := store.selectedCollection)
      ensures store.selectedCollection != old(store.selectedCollection) ==> |store.collections| == 1
      ensures panel == old(panel) || panel == old(panel).(selectDialog := true)
      ensures !panel.loading && store.collections != [] ==>
        TreeOps.CollectionById(store.collections, store.selectedCollection).Some? || panel.selectDialog
      ensures TreeOps.CollectionById(store.collections, old(store.selectedCollection)).Some?
              && old(store.selectedCollection) != "" ==>
        store.selectedCollection == old(store.selectedCollection) && panel == old(panel)
      ensures var cs, sel := store.collections, old(store.selectedCollection);
        var fires := !old(panel.loading) && cs != [] && (sel == "" || TreeOps.CollectionById(cs, sel).None?);
        && (fires && |cs| == 1 ==> store.selectedCollection == cs[0].id && panel == old(panel))
        && (fires && |cs| > 1 ==> store.selectedCollection == sel && panel == old(panel).(selectDialog := true))
        && (!fires ==> store.selectedCollection == sel && panel == old(panel))
    {
      var cs := store.collections;
      var sel := store.selectedCollection;
      if !panel.loading && |cs| > 0 {
        if sel == "" || TreeOps.CollectionById(cs, sel).None? {
          if |cs| == 1 {
            store.SetSelectedCollection(cs[0].id);
          } else {
            panel := panel.(selectDialog := true);
          }
        }
      }
    }

    /** `loadCollection`, with the folder the dialog returned as a
        parameter. A cancelled dialog is an error of the backend, so it
        shows "Failed to load collection" like a folder that cannot be
        read; a folder already open shows the duplicate dialog. Otherwise
        the new collection is appended, its root is appended to the
        expanded paths without checking whether it is listed already, and
        it becomes the selection when nothing is selected. */
    method LoadCollection(answer: Result<string>, id: string)
      modifies this, store
      ensures var path := Backend.OpenFolderDialog(answer);
        var cs := old(store.collections);
        if path.Failure? then
          store.State() == old(store.State()) && panel == old(panel).(errorDialog := Some(TreeOps.LoadFailed))
        else if TreeOps.CollectionAtPath(cs, path.value).Some? then
          store.State() == old(store.State()) && panel == old(panel).(duplicatePath := Some(path.value))
        else if !Backend.Loadable(app.fs, path.value) then
          store.State() == old(store.State()) && panel == old(panel).(errorDialog := Some(TreeOps.LoadFailed))
        else
          && panel == old(panel)
          && |store.collections| == |cs| + 1 && store.collections[..|cs|] == cs
          && store.collections[|cs|].id == id
          && store.collections[|cs|].path == path.value
          && store.collections[|cs|].tree.entry.path == path.value
          && store.collections[|cs|].name == store.collections[|cs|].tree.entry.name
          && Backend.Mirrors(app.fs, store.collections[|cs|].tree)
          && store.State() == old(store.State()).(
               collections := store.collections,
               expandedNodes := old(store.expandedNodes) + [path.value],
               selectedCollection := if old(store.selectedCollection) == "" then id
                                     else old(store.selectedCollection))
      ensures DistinctPaths(old(store.collections)) ==> DistinctPaths(store.collections)
    {
      var path := Backend.OpenFolderDialog(answer);
      if path.Failure? {
        panel := panel.(errorDialog := Some(TreeOps.LoadFailed));
        return;
      }
      // `if (!path) return;` never returns: a folder that comes back is not empty.
      var cs := store.collections;
      if TreeOps.CollectionAtPath(cs, path.value).Some? {
        panel := panel.(duplicatePath := Some(path.value));
        return;
      }
      var tree := Backend.GetDirectoryTree(app.fs, path.value);
      if tree.Failure? {
        panel := panel.(errorDialog := Some(TreeOps.LoadFailed));
        return;
      }
      var t := tree.value;
      var selected := store.selectedCollection;
      store.AddCollection(Collection(id, t.entry.name, t.entry.path, t));
      store.SetExpandedNodes(store.expandedNodes + [t.entry.path]);
      if selected == "" {
        store.SetSelectedCollection(id);
      }
    }

    /** `requestCloseCollection(id)`: the confirmation opens for an open
        collection only. */
    method RequestCloseCollection(id: string)
      modifies this
      ensures var c := TreeOps.CollectionById(store.collections, id);
        panel == if c.None? then old(panel)
                 else old(panel).(closeConfirmation := Some(TreeOps.CloseRequest(id, c.value.name)))
    {
      var c := TreeOps.CollectionById(store.collections, id);
      if c.Some? {
        panel := panel.(closeConfirmation := Some(TreeOps.CloseRequest(id, c.value.name)));
      }
    }

    /** `confirmCloseCollection`: the editor is cleared when the current
        file lies under the collection's path, the selection is reset when
        it is the closed id, every collection of that id is removed and so
        is every expanded path under the collection's path. */
    method ConfirmCloseCollection()
      requires Wired()
      modifies this, store, client
      ensures old(panel.closeConfirmation).None? ==>
        store.State() == old(store.State()) && panel == old(panel)
        && client.Fields() == old(client.Fields()) && client.isSaved == old(client.isSaved)
      ensures old(panel.closeConfirmation).Some? ==>
        var id := old(panel.closeConfirmation).value.collectionId;
        var c := TreeOps.CollectionById(old(store.collections), id);
        var closing := old(store.currentFile) != "" && c.Some? && StartsWith(old(store.currentFile), c.value.path);
        && panel == old(panel).(closeConfirmation := None)
        && store.autoSave == old(store.autoSave)
        && store.selectedCollection == (if old(store.selectedCollection) == id then "" else old(store.selectedCollection))
        && store.currentFile == (if closing then "" else old(store.currentFile))
        && store.collections == (if c.Some? then Store.WithoutId(old(store.collections), id) else old(store.collections))
        && store.expandedNodes == (if c.Some? then TreeOps.KeepOutside(old(store.expandedNodes), c.value.path)
                                   else old(store.expandedNodes))
        && (closing ==> client.Fields() == HttpClient.Cleared && !client.isSaved)
        && (!closing ==> client.Fields() == old(client.Fields()) && client.isSaved == old(client.isSaved))
      ensures client.dialogs == old(client.dialogs)
    {
      if panel.closeConfirmation.None? {
        return;
      }
      var id := panel.closeConfirmation.value.collectionId;
      var c := TreeOps.CollectionById(store.collections, id);
      if c.Some? {
        ReleaseFile(c.value.path);
      }
      DropCollection(id, c);
      panel := panel.(closeConfirmation := None);
    }

    /** The editor is cleared when the current file lies under `path`:
        `resetCurrentFile()` and the clear event, whose listener resets
        the current file again. */
    method ReleaseFile(path: string)
      requires Wired()
      modifies store, client
      ensures var closing := old(store.currentFile) != "" && StartsWith(old(store.currentFile), path);
        && store.State() == old(store.State()).(currentFile := if closing then "" else old(store.currentFile))
        && (closing ==> client.Fields() == HttpClient.Cleared && !client.isSaved)
        && (!closing ==> client.Fields() == old(client.Fields()) && client.isSaved == old(client.isSaved))
      ensures client.dialogs == old(client.dialogs)
    {
      if store.currentFile != "" && StartsWith(store.currentFile, path) {
        client.ClearRequest();
      }
    }

    /** Resets the selection when it is `id`, and when `c` is open removes
        every collection with its id and every expanded path that starts
        with its path. */
    method DropCollection(id: string, c: Option<Collection>)
      requires c.Some? ==> c.value.id == id
      modifies store
      ensures store.State() == old(store.State()).(
        selectedCollection := if old(store.selectedCollection) == id then "" else old(store.selectedCollection),
        collections := if c.Some? then Store.WithoutId(old(store.collections), id) else old(store.collections),
        expandedNodes := if c.Some? then TreeOps.KeepOutside(old(store.expandedNodes), c.value.path)
                         else old(store.expandedNodes))
    {
      if store.selectedCollection == id {
        store.ResetSelectedCollection();
      }
      if c.Some? {
        var xs := store.expandedNodes;
        store.RemoveCollection(c.value);
        store.SetExpandedNodes(TreeOps.KeepOutside(xs, c.value.path));
      }
    }

    /** `selectCollection(id)`, from the chooser. */
    method SelectCollection(id: string)
      modifies this, store
      ensures store.State() == old(store.State()).(selectedCollection := id)
      ensures panel == old(panel).(selectDialog := false)
    {
      store.SetSelectedCollection(id);
      panel := panel.(selectDialog := false);
    }

    /** A click on a collection's header: it becomes the selection and the
        editor is cleared. */
    method ClickCollection(id: string)
      requires Wired()
      modifies store, client
      ensures store.State() == old(store.State()).(selectedCollection := id, currentFile := "")
      ensures client.Fields() == HttpClient.Cleared && !client.isSaved
      ensures client.dialogs == old(client.dialogs)
    {
      store.SetSelectedCollection(id);
      client.ClearRequest();
    }

    /** The selection after a click on `path`: the first collection whose
        path is a prefix of it, or the selection as it was. */
    function OwnerSelection(path: string): string
      reads store
    {
      var owner := TreeOps.OwnerOf(store.collections, path);
      if owner.Some? then owner.value.id else store.selectedCollection
    }

    /** Selects the owner of `path`, when there is one. */
    method SelectOwner(path: string)
      modifies store
      ensures store.State() == old(store.State()).(selectedCollection := old(OwnerSelection(path)))
    {
      var owner := TreeOps.OwnerOf(store.collections, path);
      if owner.Some? {
        store.SetSelectedCollection(owner.value.id);
      }
    }

    /** `handleFileClick(filePath)`: the owner becomes the selection; a
        request file becomes the current file, whether or not it can be
        read, and is loaded into the editor. */
    method HandleFileClick(filePath: string)
      requires Wired()
      modifies store, client
      ensures store.collections == old(store.collections) && store.expandedNodes == old(store.expandedNodes)
      ensures store.autoSave == old(store.autoSave)
      ensures store.selectedCollection == old(OwnerSelection(filePath))
      ensures !EndsWith(filePath, ".postier") ==>
        store.currentFile == old(store.currentFile)
        && client.Fields() == old(client.Fields()) && client.isSaved == old(client.isSaved)
      ensures EndsWith(filePath, ".postier") ==>
        var doc := HttpClient.StoredAt(app.fs, filePath);
        && store.currentFile == filePath
        && (doc.Some? ==> HttpClient.Shows(client.Fields(), doc.value) && client.isSaved)
        && (doc.None? ==> client.Fields() == old(client.Fields()) && client.isSaved == old(client.isSaved))
      ensures client.dialogs == old(client.dialogs)
    {
      SelectOwner(filePath);
      if EndsWith(filePath, ".postier") {
        store.SetCurrentFile(filePath);
        client.LoadRequestFromFile(filePath);
      }
    }

    /** `refreshCollection(id)`: the collection is read again and given
        its new tree; a failure changes nothing. */
    method RefreshCollection(id: string)
      modifies store
      ensures store.State() == old(store.State()).(collections := store.collections)
      ensures var cs := old(store.collections);
        if TreeOps.Refreshable(app.fs, cs, id) then TreeOps.RefreshedOnly(app.fs, cs, id, store.collections)
        else store.collections == cs
    {
      var r := TreeOps.RefreshTree(app.fs, store.collections, id);
      if r.Some? {
        store.SetCollections(r.value);
      }
    }

    /** `refreshCollections`, and the refresh after a rename, a create and
        a delete: each collection in turn is refreshed, but through the
        list as it was when the handler was made, so each success throws
        away the one before it. */
    method RefreshCollections()
      modifies store
      ensures store.State() == old(store.State()).(collections := store.collections)
      ensures RefreshedLast(app.fs, old(store.collections), store.collections)
    {
      var cs := store.collections;
      var k := 0;
      while k < |cs|
        invariant 0 <= k <= |cs|
        invariant store.State() == old(store.State()).(collections := store.collections)
        invariant RefreshedUpTo(app.fs, cs, k, store.collections)
      {
        RefreshFrom(cs, k);
        k := k + 1;
      }
    }

    /** One refresh of a refresh-all: the `k`-th collection of the stale
        list `cs` is read again, and on success the list becomes `cs` with
        its new tree. */
    method RefreshFrom(cs: seq<Collection>, k: nat)
      requires k < |cs|
      modifies store
      ensures store.State() == old(store.State()).(collections := store.collections)
      ensures RefreshedUpTo(app.fs, cs, k, old(store.collections)) ==>
        RefreshedUpTo(app.fs, cs, k + 1, store.collections)
    {
      var r := TreeOps.RefreshTree(app.fs, cs, cs[k].id);
      if r.Some? {
        store.SetCollections(r.value);
      }
    }

    /** `toggleNode(path)`: the owner becomes the selection, the editor
        is cleared, and the path is expanded or collapsed. */
    method ToggleNode(path: string)
      requires Wired()
      modifies store, client
      ensures store.State() == old(store.State()).(
        selectedCollection := old(OwnerSelection(path)), currentFile := "",
        expandedNodes := TreeOps.Toggle(old(store.expandedNodes), path))
      ensures client.Fields() == HttpClient.Cleared && !client.isSaved
      ensures client.dialogs == old(client.dialogs)
    {
      var xs := store.expandedNodes;
      SelectOwner(path);
      client.ClearRequest();
      store.SetExpandedNodes(TreeOps.Toggle(xs, path));
    }

    /** `startEdit(node)`: the owner becomes the selection and the rename
        field opens on the node with its name, a file's without its
        extension. */
    method StartEdit(entry: FileSystemEntry)
      modifies this, store
      ensures store.State() == old(store.State()).(selectedCollection := old(OwnerSelection(entry.path)))
      ensures panel == old(panel).(editingNode := Some(entry.path), editingValue := TreeOps.StartEditValue(entry))
    {
      SelectOwner(entry.path);
      panel := panel.(editingNode := Some(entry.path), editingValue := TreeOps.StartEditValue(entry));
    }

    /** `cancelEdit`. */
    method CancelEdit()
      modifies this
      ensures panel == old(panel).(editingNode := None, editingValue := "")
    {
      panel := panel.(editingNode := None, editingValue := "");
    }

    /** `saveEdit(oldPath, isDir)`: a cancelled edit closes the field, a
        conflict or a failure shows its dialog and leaves the field open,
        a rename done refreshes the collections and closes the field. */
    method SaveEdit(oldPath: string, isDir: bool, now: int) returns (outcome: TreeOps.Outcome)
      modifies this, store, app
      ensures TreeOps.RenameEffect(app, old(store.collections), oldPath, isDir, old(panel.editingValue), now, outcome)
      ensures outcome in {TreeOps.Cancelled, TreeOps.Done} ==> panel == old(panel).(editingNode := None, editingValue := "")
      ensures outcome == TreeOps.Conflict ==> panel == old(panel).(errorDialog := Some(TreeOps.NameConflict))
      ensures outcome == TreeOps.Failed ==> panel == old(panel).(errorDialog := Some(TreeOps.RenameFailed))
      ensures store.State() == old(store.State()).(collections := store.collections)
      ensures outcome == TreeOps.Done ==> RefreshedLast(app.fs, old(store.collections), store.collections)
      ensures outcome != TreeOps.Done ==> store.collections == old(store.collections)
    {
      outcome := TreeOps.Rename(app, store.collections, oldPath, isDir, panel.editingValue, now);
      if outcome == TreeOps.Cancelled {
        CancelEdit();
      } else if outcome == TreeOps.Conflict {
        panel := panel.(errorDialog := Some(TreeOps.NameConflict));
      } else if outcome == TreeOps.Failed {
        panel := panel.(errorDialog := Some(TreeOps.RenameFailed));
      } else {
        RefreshCollections();
        CancelEdit();
      }
    }

    /** `requestCreateNew(parentPath, isDir)`: the owner becomes the
        selection and the create dialog opens with an empty name. */
    method RequestCreateNew(parentPath: string, isDir: bool)
      modifies this, store
      ensures store.State() == old(store.State()).(selectedCollection := old(OwnerSelection(parentPath)))
      ensures panel == old(panel).(createDialog := Some(TreeOps.CreateRequest(parentPath, isDir)), createName := "")
    {
      SelectOwner(parentPath);
      panel := panel.(createDialog := Some(TreeOps.CreateRequest(parentPath, isDir)), createName := "");
    }

    /** `confirmCreateNew`: the dialog closes in every case; a conflict or
        a failure shows its dialog; a create done refreshes the
        collections and makes sure the parent is expanded. */
    method ConfirmCreateNew(now: int) returns (outcome: TreeOps.Outcome)
      modifies this, store, app
      ensures panel.createDialog.None?
      ensures old(panel.createDialog).None? ==>
        && outcome == TreeOps.Cancelled && panel == old(panel)
        && store.State() == old(store.State()) && app.fs == old(app.fs) && app.calls == old(app.calls)
      ensures old(panel.createDialog).Some? ==>
        var req := old(panel.createDialog).value;
        && TreeOps.CreateEffect(app, old(store.collections), req.parentPath, req.isDir, old(panel.createName), now, outcome)
        && panel == old(panel).(createDialog := None,
             errorDialog := if outcome == TreeOps.Conflict then Some(TreeOps.NameConflict)
                            else if outcome == TreeOps.Failed then Some(TreeOps.CreateFailed)
                            else old(panel).errorDialog)
        && (outcome != TreeOps.Done ==> store.State() == old(store.State()))
        && (outcome == TreeOps.Done ==>
              && RefreshedLast(app.fs, old(store.collections), store.collections)
              && store.State() == old(store.State()).(collections := store.collections,
                   expandedNodes := TreeOps.AppendIfAbsent(old(store.expandedNodes), req.parentPath)))
    {
      if panel.createDialog.None? {
        return TreeOps.Cancelled;
      }
      var req := panel.createDialog.value;
      var xs := store.expandedNodes;
      outcome := TreeOps.Create(app, store.collections, req.parentPath, req.isDir, panel.createName, now);
      if outcome == TreeOps.Conflict {
        panel := panel.(errorDialog := Some(TreeOps.NameConflict));
      } else if outcome == TreeOps.Failed {
        panel := panel.(errorDialog := Some(TreeOps.CreateFailed));
      } else if outcome == TreeOps.Done {
        RefreshCollections();
        store.SetExpandedNodes(TreeOps.AppendIfAbsent(xs, req.parentPath));
      }
      panel := panel.(createDialog := None);
    }

    /** `deleteNode(path)`: the owner becomes the selection; a node with
        children only opens the confirmation; a delete done refreshes the
        collections, a failure shows its dialog. */
    method DeleteNode(path: string) returns (outcome: TreeOps.Outcome)
      modifies this, store, app
      ensures TreeOps.DeleteEffect(app, old(store.collections), path, outcome)
      ensures panel == old(panel).(
        deleteConfirmation := if outcome == TreeOps.NeedsConfirm then Some(path) else old(panel).deleteConfirmation,
        errorDialog := if outcome == TreeOps.Failed then Some(TreeOps.DeleteFailed) else old(panel).errorDialog)
      ensures store.State() == old(store.State()).(
        selectedCollection := old(OwnerSelection(path)), collections := store.collections)
      ensures outcome == TreeOps.Done ==> RefreshedLast(app.fs, old(store.collections), store.collections)
      ensures outcome != TreeOps.Done ==> store.collections == old(store.collections)
    {
      SelectOwner(path);
      outcome := TreeOps.Delete(app, store.collections, path);
      if outcome == TreeOps.NeedsConfirm {
        panel := panel.(deleteConfirmation := Some(path));
      } else if outcome == TreeOps.Failed {
        panel := panel.(errorDialog := Some(TreeOps.DeleteFailed));
      } else if outcome == TreeOps.Done {
        RefreshCollections();
      }
    }

    /** `confirmDelete`: the confirmed path is removed as a directory with
        everything in it; the confirmation closes in every case. */
    method ConfirmDelete()
      modifies this, store, app
      ensures app.refused == old(app.refused)
      ensures old(panel.deleteConfirmation).None? ==>
        panel == old(panel) && store.State() == old(store.State())
        && app.fs == old(app.fs) && app.calls == old(app.calls)
      ensures old(panel.deleteConfirmation).Some? ==>
        var path := old(panel.deleteConfirmation).value;
        var r := Backend.RemoveAllResult(old(app.fs), app.refused, path);
        && app.calls == old(app.calls) + [Backend.RemoveTree(path)]
        && app.fs == (if r.Some? then r.value else old(app.fs))
        && panel == old(panel).(deleteConfirmation := None,
             errorDialog := if r.None? then Some(TreeOps.DeleteFailed) else old(panel).errorDialog)
        && store.State() == old(store.State()).(collections := store.collections)
        && (r.Some? ==> RefreshedLast(app.fs, old(store.collections), store.collections))
        && (r.None? ==> store.collections == old(store.collections))
    {
      if panel.deleteConfirmation.None? {
        return;
      }
      var ok := app.DeleteDirectory(panel.deleteConfirmation.value);
      if ok {
        RefreshCollections();
      } else {
        panel := panel.(errorDialog := Some(TreeOps.DeleteFailed));
      }
      panel := panel.(deleteConfirmation := None);
    }
  }
}
