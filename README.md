# Postier workspace core, modelled in Dafny

Postier is a desktop HTTP client. A Go backend (`app.go`) reads and writes
the user's folders, and a React front end edits requests. A *collection* is
a folder the user opened. Its *tree* is a snapshot of the folder. Every
request is a `.postier` file inside it.

This project models four cooperating pieces of that program:

- **The backend's tree builder and request-file naming** (module `Backend`):
  - `GetDirectoryTree` over an abstract filesystem: a map from path to a
    directory (readable or not) or a file holding a request document or
    raw text;
  - `ListPostierFiles`, and how `SavePostierRequest` names and stamps
    documents;
  - the folder dialog's answer;
  - the storage calls (`CreateDirectory`, `CreateFile`, `DeleteFile`,
    `DeleteDirectory`, `LoadPostierRequest`) as a class `App` whose
    filesystem map and call log they update.
- **The workspace store** (module `Store`): a class with the five fields of
  the zustand store and one method per setter.
- **The request editor** (modules `RequestDoc` and `HttpClient`):
  - the header and query rows, and the payload a save builds from them
    (pairs with empty parts dropped, a later key wins, `Content-Type` from
    the body type, the body blanked for `none`, the `METHOD@url` name);
  - the save-as file name;
  - the dirty check, which sorts both sides and compares them row by row,
    so a reordering of rows is not a change;
  - the class `RequestController`, with the load, clear, save, save-as,
    send and row-edit handlers.
- **The collection tree views** (modules `TreeOps`, `FileTree` and
  `History`). `FileTree.tsx` is the mounted view and keeps its state in the
  store. `History.tsx` is an older view that keeps it in `localStorage` and
  in a `Set`. Both are modelled, with these handlers:
  - startup: the stored collections are split into the ones that load
    again and the ones that do not;
  - the default selection;
  - opening a folder, with a duplicate check;
  - closing a collection, which cascades into the expanded paths, the
    selection and the current file;
  - rename, create, delete and delete-with-confirmation, which check for
    name conflicts against the in-memory tree;
  - expanding and collapsing nodes, and refreshing the trees.

Shared modules: `Wrappers` (`Option`, `Result`), `Text` (the JavaScript and
Go string operations the code relies on: `trim`, `startsWith`,
`lastIndexOf`, `substring` with its clamping, the two regular expressions)
and `Ordering` (total preorders, and an in-place insertion sort that stands
for `sort.Slice` and `Array.prototype.sort`).

Each handler is a method of a class. Each method states its whole new state
against a specification function or predicate: `PlanRename`, `PlanCreate`,
`Mirrors`, `ObjectOf`, `Clean`, `RenameEffect`, `RefreshedLast` and
`RefreshedAll`. The properties the program relies on are proved as lemmas
about those.

Modelled as written, including these behaviours:

- **Saving drops fields.** The Go request struct has no `bodyType` and no
  `response`, so both are lost when a document is saved (`ToStored`).
- **The body-type fallback is dead.** The fallback in `loadRequestFromFile`
  compares a value with itself. A document read back therefore leaves the
  body type `undefined`.
- **A reloaded document never counts as saved.**
  - A document read back has no response, and
    `JSON.stringify(undefined)` equals no string.
  - So the dirty check never finds the editor clean against it
    (`ReloadedNeverClean`).
- **Prefix matching has no separator.**
  - Owner lookups and closing a collection use `startsWith(collection.path)`,
    so `/ws/api` also owns `/ws/api2/...` (`OwnerWithoutSeparator`).
  - The older view closes by its tree snapshot instead. It keeps an
    expanded path the snapshot lacks (`SnapshotKeepsStalePath`).
- **Renaming a file whose name has no dot doubles the name.**
  - `lastIndexOf` returns -1 and `substring(-1)` is the whole name.
  - So confirming the rename unchanged turns `notes` into `notesnotes`
    (`UnchangedRenameOfDotlessFile`).
- **Rename is create-then-delete.** A renamed file is written empty. A
  renamed directory is created empty and the old tree is removed.
- **The backend restamps a save.** The front end sends `createdAt` and
  `updatedAt` from the browser's clock. The backend replaces `updatedAt`
  with its own time and keeps `createdAt`, which is never zero. So the
  file's two timestamps differ whenever the two clocks do
  (`BackendRestampsSave`).
- **Refresh-all behaves differently in the two views.**
  - In `FileTree.tsx` every `refreshCollection` rebuilds the list from the
    list its render saw. Only the last success survives (`RefreshedLast`,
    `OnlyLastRefreshed`).
  - In `History.tsx` the refreshes use functional updates and compose
    (`RefreshedAll`, `EveryRefreshableRefreshed`).
- **A cancelled folder dialog reports "Failed to load collection".** The
  backend answers a cancel with an error, so the handler's
  `if (!path) return` is never reached.
- **Two more differences in `FileTree.tsx`.**
  - Opening a folder appends its root to the expanded paths without a
    membership check.
  - In the model, a clicked `.postier` file becomes the current file even
    when it cannot be read (the program as written fails earlier; see
    "## Left out").
- **The older view's mount reads storage before the first effects store
  the empty list.** Its explicit rewrite of storage then stores the same
  list the effect stores.

## Model

| member | source | states |
|---|---|---|
| Backend.GetDirectoryTree | app.go:194-238 | succeeds exactly when the root exists and, if it is a directory, can be listed (children that fail are skipped); the tree has the root's path and mirrors the filesystem: every child is `Join(root, name)`, named by `Base`, loaded children only, directories first then by name, files without children |
| Backend.LoadChildren | app.go:216-224 | the children loop keeps exactly the entries that load, each mirrored, each once |
| Backend.MirrorsDirectory | app.go:208-235 | a readable directory whose sorted loaded children are each mirrored is mirrored |
| Backend.ChildOrderIsTotalPreorder | app.go:227-232 | the comparator "directories first, then name ascending" is a total preorder, so the sort is well defined |
| Backend.ReachShrinks | app.go:218-219 | a child path is strictly deeper, so the recursion terminates |
| Backend.BaseOfJoin | app.go:200-218 | the name of `Join(dir, name)` is `name` |
| Backend.JoinInjective | app.go:218 | distinct names give distinct child paths |
| Backend.ListingMember | app.go:211-218 | a listed name is a plain name whose joined path exists |
| Backend.TrimTrailingSlashes | app.go:201 | `filepath.Base` ignores trailing slashes: a prefix with no slash at its end |
| Backend.ListPostierFiles | app.go:317-347 | succeeds exactly for a readable directory; the result holds each non-directory entry ending in `.postier` exactly once, with its joined path, size and time, sorted by name ascending |
| Backend.PostierEntries | app.go:323-339 | the filter loop keeps exactly the `.postier` files, each once |
| Backend.NameOrderIsTotalPreorder | app.go:342-344 | ordering by name is a total preorder |
| Backend.ListedFileIsEntry | app.go:331-337 | a listed entry is the filesystem's entry for its path |
| Backend.PostierPathSpec | app.go:291-294 | the saved path ends in `.postier`; it is unchanged exactly when it already did; normalising twice changes nothing more |
| Backend.StampedSpec | app.go:281-284 | `updatedAt` becomes now; `createdAt` becomes now only when it was zero; nothing else changes |
| Backend.OpenFolderDialog | app.go:350-365 | a cancel (empty answer) or a dialog error is an error, otherwise the chosen path |
| Backend.RemoveAllSpec | app.go:275-277 | `RemoveAll` removes the path and everything below it and keeps every other path |
| Backend.App.CreateDirectory | app.go:241-243 | logs the call; the filesystem is the `MkdirAll` result on success, unchanged on failure |
| Backend.App.CreateFile | app.go:246-253 | logs the call; the file is written on success, nothing changes on failure |
| Backend.App.DeleteFile | app.go:270-272 | logs the call; the file is removed on success |
| Backend.App.DeleteDirectory | app.go:275-277 | logs the call; the tree is removed on success |
| Backend.App.LoadPostierRequest | app.go:300-314 | succeeds exactly for a file holding a request document, and returns that document |
| Backend.App.SavePostierRequest | app.go:280-297 | writes the stamped document to the path with `.postier` made sure of, and logs that one write |
| Types.PersistDropsBodyTypeAndResponse | app.go:181-191 | a saved and reloaded document loses exactly its body type and response; saving it again stores the same thing |
| Ordering.SortBy | app.go:227-232 | the in-place sort leaves the array sorted and a permutation of what it was |
| Ordering.Sorted | frontend/src/components/HttpClient.tsx:417-420 | a sorted permutation of the input |
| Ordering.SortedUnique | frontend/src/components/HttpClient.tsx:415-423 | under an antisymmetric total order, two sorted permutations of each other are equal |
| Store.WorkspaceStore.constructor | frontend/src/stores/store.ts:26-30 | the initial state: no collections, no expanded paths, no selection, no current file, autosave on |
| Store.WorkspaceStore.SetCollections | frontend/src/stores/store.ts:32 | replaces the collections, nothing else |
| Store.WorkspaceStore.AddCollection | frontend/src/stores/store.ts:33 | appends at the end, existing ones in order, nothing else changes |
| Store.WorkspaceStore.RemoveCollection | frontend/src/stores/store.ts:34 | removes every collection with that id, keeps the order of the rest, nothing else changes |
| Store.WorkspaceStore.SetSelectedCollection | frontend/src/stores/store.ts:36 | replaces the selection, nothing else |
| Store.WorkspaceStore.ResetSelectedCollection | frontend/src/stores/store.ts:37 | the selection becomes empty, nothing else changes |
| Store.WorkspaceStore.SetCurrentFile | frontend/src/stores/store.ts:39 | replaces the current file, nothing else |
| Store.WorkspaceStore.ResetCurrentFile | frontend/src/stores/store.ts:40 | the current file becomes empty, nothing else changes |
| Store.WorkspaceStore.SetExpandedNodes | frontend/src/stores/store.ts:42 | replaces the expanded paths, nothing else |
| Store.WorkspaceStore.ResetExpandedNodes | frontend/src/stores/store.ts:43 | the expanded paths become empty, nothing else changes |
| Store.WorkspaceStore.SetAutoSave | frontend/src/stores/store.ts:45 | replaces the autosave flag, nothing else |
| Store.WithoutIdMembers | frontend/src/stores/store.ts:34 | the filter keeps exactly the collections with another id |
| Store.WithoutIdAppend | frontend/src/stores/store.ts:34 | the filter keeps order |
| Store.WithoutAbsentId | frontend/src/stores/store.ts:34 | removing an id no collection has changes nothing |
| Store.AddThenRemove | frontend/src/stores/store.ts:33-34 | removing an added collection's id undoes the add, and also removes earlier collections with that id |
| RequestDoc.ArraysEqual | frontend/src/components/HttpClient.tsx:47-53 | true exactly when both lists are the same rows in the same order |
| RequestDoc.SortedRows | frontend/src/components/HttpClient.tsx:415-420 | sorted by key then value, a permutation of the rows |
| RequestDoc.PairOrderIsTotalPreorder | frontend/src/components/HttpClient.tsx:415 | the comparator is a total preorder |
| RequestDoc.PairOrderAntisymmetric | frontend/src/components/HttpClient.tsx:415 | rows equal under the comparator are equal rows |
| RequestDoc.SameRows | frontend/src/components/HttpClient.tsx:415-423 | sort-then-compare is true exactly when the two lists are permutations of each other |
| RequestDoc.BuildObject | frontend/src/components/HttpClient.tsx:170-175 | the `forEach` assignment builds `ObjectOf(rows)`, the object whose own keys the rows assign |
| RequestDoc.ObjectOfKeys | frontend/src/components/HttpClient.tsx:170-189 | a key is in the object exactly when some row with non-empty key and value other than `__proto__` has it; keys and values are non-empty and no key is `__proto__` |
| RequestDoc.ObjectOfLastWins | frontend/src/components/HttpClient.tsx:170-175 | for a repeated key, the last kept row's value wins |
| RequestDoc.ProtoRowDropped | frontend/src/components/HttpClient.tsx:171-175 | a `__proto__` row passes the filter but reaches the inherited setter, so the object stays empty, while an ordinary key is stored |
| RequestDoc.WithContentType | frontend/src/components/HttpClient.tsx:178-181 | json, text, xml and sparql set `Content-Type` over any user value; `none` or a missing body type adds nothing; other keys are untouched |
| RequestDoc.ContentTypeDeterminesBodyType | frontend/src/components/HttpClient.tsx:178-181 | distinct body types imply distinct content types |
| RequestDoc.StripSchemeOfUrl | frontend/src/components/HttpClient.tsx:191-193 | the first `http`, any number of `s`, `://` is removed from the name |
| RequestDoc.StripSchemeNoMatch | frontend/src/components/HttpClient.tsx:191-193 | a URL without a scheme match is kept whole |
| RequestDoc.SaveAsName | frontend/src/components/HttpClient.tsx:141-143 | the name is the trimmed input, with `.postier` appended exactly when it is not already there |
| RequestDoc.SaveAsPathIsFinal | frontend/src/components/HttpClient.tsx:145 | the save-as path already ends in `.postier` |
| RequestDoc.PayloadSpec | frontend/src/components/HttpClient.tsx:169-203 | the payload is named `METHOD@url`; keeps method, URL and body type; blanks the body for `none`; its query has exactly the keys of rows with non-empty key and value other than `__proto__`, each with the last such row's value; its headers likewise, except that json, text, xml and sparql overwrite `Content-Type`; the response passed in wins over the editor's, else `null`; both timestamps are the browser's time |
| RequestDoc.ObjectOfMadeFrom | frontend/src/components/HttpClient.tsx:170-175 | the object has exactly the kept rows' keys (non-empty key and value, not `__proto__`), each with the value of the last kept row of that key |
| RequestDoc.RequestNameOfUrl | frontend/src/components/HttpClient.tsx:191-193 | a request to `http[s…]://rest` is named `METHOD@rest` |
| RequestDoc.Entries | frontend/src/components/HttpClient.tsx:412-413 | `Object.entries` lists every entry of the object once, array-index keys first by numeric value, then the other keys ascending (the order `JSON.parse` inserts the Go encoder's sorted keys) |
| RequestDoc.NumericKeysFirst | frontend/src/components/HttpClient.tsx:65-69 | keys `9` and `10` are listed `9, 10`, before a header name, although `10` is the smaller string |
| RequestDoc.PairsMatchPermutation | frontend/src/components/HttpClient.tsx:412-423 | two listings of the same object are permutations of each other, and a permutation of a listing is one |
| RequestDoc.DirtyCheck | frontend/src/components/HttpClient.tsx:408-436 | `isSaved` exactly when body, body type, method, response and URL match and the header and query rows match the file's up to order |
| RequestDoc.ReloadedNeverClean | frontend/src/components/HttpClient.tsx:429 | a document read back from the backend never counts as clean |
| RequestDoc.CleanUpToOrder | frontend/src/components/HttpClient.tsx:415-423 | reordering rows does not make the editor dirty |
| HttpClient.RemoveAt | frontend/src/components/HttpClient.tsx:226-228 | the row at the index is removed and the others keep their order; an index outside the list changes nothing |
| HttpClient.RemoveAddedRow | frontend/src/components/HttpClient.tsx:216-228 | removing the row just added restores the list |
| HttpClient.UpdateAt | frontend/src/components/HttpClient.tsx:220-224 | only the key or only the value of that row changes |
| HttpClient.Loaded | frontend/src/components/HttpClient.tsx:60-86 | the editor shows the document's method, URL, body, headers and query (each entry once, in `Object.entries` order), no body type, no response |
| HttpClient.RequestController.constructor | frontend/src/components/HttpClient.tsx:30-44 | the editor starts cleared and not saved |
| HttpClient.RequestController.LoadRequestFromFile | frontend/src/components/HttpClient.tsx:56-93 | a readable document becomes the current file, is shown and is saved; otherwise nothing changes |
| HttpClient.RequestController.Apply | frontend/src/components/HttpClient.tsx:60-89 | the document is shown, made current and marked saved |
| HttpClient.RequestController.ClearRequest | frontend/src/components/HttpClient.tsx:96-107 | every field gets its default (GET, empty, no rows, `none`, no response), not saved, no current file |
| HttpClient.RequestController.Mount | frontend/src/components/HttpClient.tsx:384-388 | with a readable current file, the editor shows it and is saved; otherwise nothing changes |
| HttpClient.RequestController.OpenSaveAsDialog | frontend/src/components/HttpClient.tsx:110-117 | without a selected collection only the alert opens; otherwise the dialog opens with an empty name |
| HttpClient.RequestController.BuildPayload | frontend/src/components/HttpClient.tsx:169-205 | the request object is `Payload` of the editor |
| HttpClient.RequestController.Persist | frontend/src/components/HttpClient.tsx:197-210 | one write of the payload built at the browser's time and stamped by the backend at its own time; on success the target becomes current and the editor is saved, on failure only the log changes |
| HttpClient.RequestController.SaveRequest | frontend/src/components/HttpClient.tsx:155-214 | no selected collection: only its alert; no target: only the no-file alert; otherwise Persisted to the given path or the current file |
| HttpClient.RequestController.ConfirmSaveAs | frontend/src/components/HttpClient.tsx:120-152 | a blank name closes the dialog and saves nothing; no selected collection closes it and alerts; otherwise saves to `collection.path + "/" + name` |
| HttpClient.RequestController.SaveShortcut | frontend/src/components/HttpClient.tsx:439-453 | Ctrl+S saves to the current file when there is one, else opens save-as |
| HttpClient.RequestController.RecomputeDirty | frontend/src/components/HttpClient.tsx:408-436 | with a readable current file, `isSaved` becomes the dirty check's answer, which is false |
| HttpClient.RequestController.AddHeader | frontend/src/components/HttpClient.tsx:216-218 | an empty row is appended, nothing else changes |
| HttpClient.RequestController.UpdateHeader | frontend/src/components/HttpClient.tsx:220-224 | only that part of that row changes |
| HttpClient.RequestController.RemoveHeader | frontend/src/components/HttpClient.tsx:226-228 | only that row is removed |
| HttpClient.RequestController.AddQueryParam | frontend/src/components/HttpClient.tsx:230-232 | an empty row is appended, nothing else changes |
| HttpClient.RequestController.UpdateQueryParam | frontend/src/components/HttpClient.tsx:234-238 | only that part of that row changes |
| HttpClient.RequestController.RemoveQueryParam | frontend/src/components/HttpClient.tsx:240-242 | only that row is removed |
| HttpClient.RequestController.SendRequest | frontend/src/components/HttpClient.tsx:244-289 | the response is cleared, then set on success; if showing it runs `JSON.parse` on a body that does not parse, nothing else changes (no save, `isSaved` kept); otherwise with autosave the request is saved with that response, and without it the editor becomes unsaved; a failed call changes nothing else |
| HttpClient.FirstContentTypeKey | frontend/src/components/HttpClient.tsx:356-358 | `Object.entries(...).filter(...)[0]`: none exactly when no header name, lower-cased, contains "content-type"; otherwise the first such name in `Object.entries` order |
| HttpClient.FirstContentTypeUnique | frontend/src/components/HttpClient.tsx:356-361 | that first content-type header is unique |
| HttpClient.ParsesForDisplay | frontend/src/components/HttpClient.tsx:352-362 | `generateResponseContent` calls `JSON.parse` exactly when the body is non-empty and the first content-type header lists "application/json" |
| HttpClient.ContentTypeNames | frontend/src/components/HttpClient.tsx:356-358 | any header name with `Content-Type` inside, such as `X-Content-Type-Options`, counts as a content-type header |
| HttpClient.JsonRenderOfHtml | frontend/src/components/HttpClient.tsx:352-362 | a JSON content type with a non-empty body is parsed; a `text/html` one or an empty body is not |
| HttpClient.SaveAsTarget | frontend/src/components/HttpClient.tsx:141-147 | the save-as path is never blank, and the backend writes exactly there |
| HttpClient.BackendRestampsSave | app.go:280-284 | the file's `createdAt` is the browser's time sent with the payload, its `updatedAt` the backend's time; every other field is stored as sent; the two timestamps agree only when the two clocks do |
| HttpClient.SaveThenReload | frontend/src/components/HttpClient.tsx:192-203 | a saved document reads back with the editor's method, URL and saved body, without body type and response, created at the browser's time and updated at the backend's |
| TreeOps.GetAllNodes | frontend/src/components/FileTree.tsx:433-439 | the root comes first |
| TreeOps.AllNodesMembers | frontend/src/components/FileTree.tsx:433-439 | a node is listed exactly when it is the root or in a child's listing |
| TreeOps.AllNodesInMembers | frontend/src/components/FileTree.tsx:345-346 | `flatMap` over the collections lists exactly the nodes of their trees |
| TreeOps.TreePathsOfAllNodes | frontend/src/components/History.tsx:404-410 | the tree's paths are the paths of its listed nodes |
| TreeOps.MirroredNodesBelowRoot | frontend/src/components/FileTree.tsx:433-439 | every node of a freshly read tree is itself mirrored and lies under the root |
| TreeOps.Find | frontend/src/components/FileTree.tsx:122 | `find`: none exactly when nothing matches; otherwise the first match |
| TreeOps.OwnerWithoutSeparator | frontend/src/components/FileTree.tsx:196 | `/ws/api` owns `/ws/api2/get.postier` |
| TreeOps.DirectoryOf | frontend/src/components/FileTree.tsx:282 | everything before the last `/`, so the path is that, a slash and its last element |
| TreeOps.RenameTarget | frontend/src/components/FileTree.tsx:276-290 | a rename that goes ahead has non-blank input and a changed path `directory + "/" + newName`; a directory's name is the trimmed input; a file's is the trimmed input plus the old name from its last dot |
| TreeOps.UnchangedRenameCancels | frontend/src/components/FileTree.tsx:258-290 | confirming the starting text unchanged cancels, for a directory and for a file with an extension |
| TreeOps.UnchangedRenameOfDotlessFile | frontend/src/components/FileTree.tsx:283-285 | a dotless file confirmed unchanged is renamed to its name twice |
| TreeOps.CreateTarget | frontend/src/components/FileTree.tsx:340-342 | `parentPath + "/" + fullName`; a directory takes the trimmed name; a file ends in `.postier` and shows its base name again when renamed |
| TreeOps.CreateInParent | frontend/src/components/FileTree.tsx:340-342 | a name without a slash creates a direct child of the parent |
| TreeOps.JoinIsChild | frontend/src/components/FileTree.tsx:342 | a plain name joined to a directory is its child |
| TreeOps.ConflictFindsExisting | frontend/src/components/FileTree.tsx:345-352 | against a current snapshot the conflict check finds every loadable sibling of that name |
| TreeOps.IndexOf | frontend/src/components/FileTree.tsx:249 | `indexOf`: the first position, or -1 exactly when absent |
| TreeOps.Toggle | frontend/src/components/FileTree.tsx:248-255 | a listed path loses one occurrence; an unlisted one is appended |
| TreeOps.ToggleTwice | frontend/src/components/FileTree.tsx:248-255 | other paths keep their counts; toggling twice restores membership |
| TreeOps.AppendIfAbsent | frontend/src/components/FileTree.tsx:374-378 | the path is listed afterwards, once if it was absent; every other path and the order are unchanged |
| TreeOps.KeepOutsideCount | frontend/src/components/FileTree.tsx:180-182 | the filter drops exactly the paths starting with the root and keeps the count of every other |
| TreeOps.KeepOutsideAppend | frontend/src/components/FileTree.tsx:180-182 | the filter keeps order |
| TreeOps.KeepOutsideDropsTree | frontend/src/components/FileTree.tsx:180-182 | closing by prefix removes every path of the collection's current tree |
| TreeOps.ExpandRoots | frontend/src/components/FileTree.tsx:74-82 | the old list stays in front; each loaded root not yet listed is pushed once |
| TreeOps.PartitionStored | frontend/src/components/FileTree.tsx:53-69 | in stored order, the collections that load get a tree read again at their path and keep id, name and path; the names of the others are collected |
| TreeOps.WithTree | frontend/src/components/FileTree.tsx:227-231 | every collection with that id gets the tree, the others are unchanged |
| TreeOps.RefreshTree | frontend/src/components/FileTree.tsx:221-236 | succeeds exactly when the id is open and its path loads; then only collections with that id change, to a tree read from the first one's path |
| TreeOps.LastRefreshable | frontend/src/components/FileTree.tsx:215-236 | the last collection whose refresh succeeds |
| TreeOps.NoneRefreshableAfter | frontend/src/components/FileTree.tsx:215-236 | no collection after it refreshes |
| TreeOps.RunRename | frontend/src/components/FileTree.tsx:303-312 | a directory is created then the old tree removed; a file is written empty then the old one removed; the second call only after the first succeeded |
| TreeOps.Rename | frontend/src/components/FileTree.tsx:275-320 | cancelled exactly when the plan is; a conflict exactly when the parent has a child of the new name; neither calls storage; otherwise the two calls run |
| TreeOps.Create | frontend/src/components/FileTree.tsx:333-385 | cancelled for a blank name; a conflict exactly when the parent node found has a child of the full name (no node, no conflict); otherwise one call: make the directory, or write a GET request with empty url, body, headers and query |
| TreeOps.Delete | frontend/src/components/FileTree.tsx:387-417 | a path in no tree is left alone; a node with children only asks for confirmation; otherwise `DeleteDirectory` for a directory, `DeleteFile` for a file |
| FileTree.OnlyLastRefreshed | frontend/src/components/FileTree.tsx:215-236 | after refresh-all, every collection with another id than the last refreshable one keeps its old tree |
| FileTree.ClosedCollectionGone | frontend/src/components/FileTree.tsx:159-186 | after a close no collection of that id and no path under its root remains |
| FileTree.FileTreeView.constructor | frontend/src/components/FileTree.tsx:29-38 | the view starts loading, with no dialog open |
| FileTree.FileTreeView.LoadStoredCollections | frontend/src/components/FileTree.tsx:45-99 | no stored collections: only loading ends; otherwise the collections become those that load, read again, their roots are expanded once each, the names of the others are reported iff there are any |
| FileTree.FileTreeView.SelectDefault | frontend/src/components/FileTree.tsx:101-114 | once loading ended and there are collections, a valid selection stays; otherwise, with exactly one collection it is selected and no dialog opens, and with several the selection is kept and only the selection dialog opens; when the effect does not fire nothing changes |
| FileTree.FileTreeView.LoadCollection | frontend/src/components/FileTree.tsx:116-150 | a dialog error or cancel reports "Failed to load collection"; a path already open flags a duplicate; an unreadable path reports failure; otherwise the collection is appended with a mirrored tree, its root appended to the expanded paths, and selected when nothing was |
| FileTree.FileTreeView.RequestCloseCollection | frontend/src/components/FileTree.tsx:152-157 | the confirmation opens for an open collection only |
| FileTree.FileTreeView.ConfirmCloseCollection | frontend/src/components/FileTree.tsx:159-186 | removes the collection by id; keeps exactly the expanded paths not under its root; clears the current file and the editor only for a file under the root; resets the selection only if it was this id; nothing else changes |
| FileTree.FileTreeView.ReleaseFile | frontend/src/components/FileTree.tsx:165-169 | a current file under the root is reset and the editor cleared |
| FileTree.FileTreeView.DropCollection | frontend/src/components/FileTree.tsx:172-184 | selection reset for this id; the collection and its expanded paths removed |
| FileTree.FileTreeView.SelectCollection | frontend/src/components/FileTree.tsx:188-191 | selects the id and closes the selection dialog |
| FileTree.FileTreeView.ClickCollection | frontend/src/components/FileTree.tsx:545-549 | selects the id and clears the editor and the current file |
| FileTree.FileTreeView.SelectOwner | frontend/src/components/FileTree.tsx:196-199 | the first collection whose root prefixes the path becomes selected, if any |
| FileTree.FileTreeView.HandleFileClick | frontend/src/components/FileTree.tsx:193-213 | selects the owner; a `.postier` file becomes current and is loaded into the editor when readable |
| FileTree.FileTreeView.RefreshCollection | frontend/src/components/FileTree.tsx:221-236 | only the collections change, as RefreshTree says, or not at all |
| FileTree.FileTreeView.RefreshCollections | frontend/src/components/FileTree.tsx:215-219 | only the collections change; only the last successful refresh survives |
| FileTree.FileTreeView.RefreshFrom | frontend/src/components/FileTree.tsx:221-236 | one refresh from the stale list extends the refreshes up to it by one |
| FileTree.FileTreeView.ToggleNode | frontend/src/components/FileTree.tsx:238-256 | selects the owner, clears the editor and the current file, toggles the path |
| FileTree.FileTreeView.StartEdit | frontend/src/components/FileTree.tsx:258-268 | selects the owner; the rename field starts with the name, a file's without its last extension |
| FileTree.FileTreeView.CancelEdit | frontend/src/components/FileTree.tsx:270-273 | the rename field closes |
| FileTree.FileTreeView.SaveEdit | frontend/src/components/FileTree.tsx:275-320 | storage as `Rename` says; a cancel or success closes the field; a conflict or failure opens its dialog; on success the trees are refreshed |
| FileTree.FileTreeView.RequestCreateNew | frontend/src/components/FileTree.tsx:322-331 | selects the owner and opens the create dialog with an empty name |
| FileTree.FileTreeView.ConfirmCreateNew | frontend/src/components/FileTree.tsx:333-385 | storage as `Create` says; on success the trees are refreshed and the parent is expanded once; the dialog closes |
| FileTree.FileTreeView.DeleteNode | frontend/src/components/FileTree.tsx:387-417 | selects the owner; storage as `Delete` says; a node with children opens the confirmation; on success the trees are refreshed |
| FileTree.FileTreeView.ConfirmDelete | frontend/src/components/FileTree.tsx:419-431 | the confirmed path is removed as a directory, then the trees are refreshed; a failure opens its dialog |
| History.RefsOf | frontend/src/components/History.tsx:22-34 | only id, name and path of each collection are stored, in order |
| History.StoredAfterLoad | frontend/src/components/History.tsx:127-130 | after startup, storage holds exactly the references that load, in order |
| History.LoadableOfUnread | frontend/src/components/History.tsx:98-114 | the loaded collections are those of the loadable references |
| History.ToggleIn | frontend/src/components/History.tsx:239-249 | the path is in the new set exactly when it was not; no other path changes |
| History.RemoveNodesFromSet | frontend/src/components/History.tsx:218-221 | the set loses exactly every path of the node's subtree |
| History.SnapshotKeepsStalePath | frontend/src/components/History.tsx:201-216 | an expanded path under the root that the snapshot lacks survives the close |
| History.EveryRefreshableRefreshed | frontend/src/components/History.tsx:223-237 | after refresh-all every collection that loads has a fresh tree |
| History.RefreshStep | frontend/src/components/History.tsx:228-232 | a successful functional update extends the refreshes by one |
| History.RefreshSkip | frontend/src/components/History.tsx:233-235 | a failed refresh changes nothing |
| History.HistoryView.constructor | frontend/src/components/History.tsx:72-84 | no collections, the expanded set read from storage |
| History.HistoryView.SetCollections | frontend/src/components/History.tsx:153-158 | the collections change and their references are stored |
| History.HistoryView.SetExpanded | frontend/src/components/History.tsx:160-162 | the expanded set changes and is stored |
| History.HistoryView.Mount | frontend/src/components/History.tsx:86-150 | the collections become those that load, read again; their roots are added to the set; the others are reported; storage ends up holding exactly the references that load |
| History.HistoryView.LoadCollection | frontend/src/components/History.tsx:164-192 | errors and duplicates change nothing but a dialog; otherwise the collection is appended with a mirrored tree and its root expanded |
| History.HistoryView.RequestCloseCollection | frontend/src/components/History.tsx:194-199 | the confirmation opens for an open collection only |
| History.HistoryView.ConfirmCloseCollection | frontend/src/components/History.tsx:201-216 | every collection with the id is removed; exactly the paths of its tree snapshot leave the set |
| History.HistoryView.RefreshAll | frontend/src/components/History.tsx:223-237 | every collection that loads gets a new tree; the others are unchanged |
| History.HistoryView.RefreshIn | frontend/src/components/History.tsx:223-237 | one refresh through the handler's list, applied to the current list |
| History.HistoryView.ToggleNode | frontend/src/components/History.tsx:239-249 | only the expanded set changes, by ToggleIn |
| History.HistoryView.StartEdit | frontend/src/components/History.tsx:251-255 | the rename field opens with the name, a file's without its last extension |
| History.HistoryView.CancelEdit | frontend/src/components/History.tsx:257-260 | the rename field closes |
| History.HistoryView.SaveEdit | frontend/src/components/History.tsx:262-307 | storage as `Rename` says; on success every tree that loads is refreshed |
| History.HistoryView.RequestCreateNew | frontend/src/components/History.tsx:309-312 | opens the create dialog with an empty name |
| History.HistoryView.ConfirmCreateNew | frontend/src/components/History.tsx:314-362 | storage as `Create` says; on success the trees are refreshed and the parent added to the set |
| History.HistoryView.DeleteNode | frontend/src/components/History.tsx:364-388 | storage as `Delete` says; a node with children opens the confirmation |
| History.HistoryView.ConfirmDelete | frontend/src/components/History.tsx:390-402 | the confirmed path is removed as a directory, then the trees are refreshed |
| Text.TrimStart | frontend/src/components/FileTree.tsx:284 | removes exactly the leading whitespace |
| Text.TrimEnd | frontend/src/components/FileTree.tsx:284 | removes exactly the trailing whitespace |
| Text.TrimIdempotent | frontend/src/components/FileTree.tsx:284 | trimming twice is trimming once |
| Text.BlankIffAllSpace | frontend/src/components/FileTree.tsx:277 | `!s.trim()` exactly when every character is whitespace |
| Text.LastIndexOf | frontend/src/components/FileTree.tsx:282-283 | the last position of the character, or -1 |
| Text.AfterLast | frontend/src/components/FileTree.tsx:281 | `split('/').pop()`: a suffix without the separator |
| Text.StripExtensionMatches | frontend/src/components/FileTree.tsx:265 | `/\.[^/.]+$/` removes a final dot followed by one or more characters that are neither dot nor slash, and nothing when there is none |
| Text.StripPostierExtension | frontend/src/components/FileTree.tsx:340-341 | stripping the extension of `name + ".postier"` gives `name` |
| Text.LexLessTransitive | app.go:231 | string order is transitive |
| Text.LexLessTotal | app.go:231 | any two strings are equal or ordered |
| Text.LexLessAsymmetric | app.go:231 | string order is asymmetric |
| Text.ArrayIndexInjective | frontend/src/components/HttpClient.tsx:65-69 | distinct array-index keys have distinct numeric values |
| Text.PropertyBeforeTransitive | frontend/src/components/HttpClient.tsx:65-69 | the `Object.entries` key order is transitive |
| Text.PropertyBeforeTotal | frontend/src/components/HttpClient.tsx:65-69 | any two distinct keys are ordered one way or the other |

## Left out

- `MakeRequest` (the HTTP call): network I/O, timeouts and URL parsing. `SendRequest` takes its result as a parameter.
- JSON encoding and decoding. A file holds either a request document or raw text, and the backend's `json.MarshalIndent` and `json.Unmarshal` are identity on the document.
- `ReadFile` and `UpdateFile`. The front end does not call them. `LoadPostierRequest` reads a file directly from the filesystem map.
- Parent folders made by `MkdirAll`. The model makes only the named directory.
- Backend.App.CreateFile: does not model the `MkdirAll` of the parent folder (`app.go:246-249`). The model takes the parents to exist, so a write whose ancestor is a regular file succeeds here, while the program fails with "failed to create directory".
- `filepath.Join` cleaning of `..` and doubled slashes. `Join` is `dir + "/" + name`.
- File sizes and modification times, which are opaque numbers from the filesystem map.
- The race between `ReadDir` and `entry.Info`.
- `localStorage`, the zustand `persist` middleware and their serialisation. The older view's storage is two fields of its class.
- `localeCompare`, which is taken as plain lexicographic order on characters.
- Rendering and layout: `formatSize`, the pretty-printed text `generateResponseContent` returns, the response-time display, JSX, and the `.postier` suffix stripped for display. Whether `generateResponseContent` runs `JSON.parse`, and whether that parse throws, is modelled, because a throw skips the save after a send (`SendRequest`). `JSON.parse` itself is a parameter: whether the body is valid JSON.
- HttpClient.IsContentTypeName: lower-cases ASCII letters only. Against the ASCII needle "content-type" this gives the same answer as JavaScript's full Unicode `toLowerCase`.
- Dialogs that only close (`setX(null)` on cancel), console logging, and every `alert()` of the editor: those in its `catch` blocks, and the "Selected collection (...) not found" alert of `confirmSaveAs` (`HttpClient.tsx:136-139`), which `ConfirmSaveAs` models as a change of nothing.
- Collection ids, timestamps and dialog answers are parameters. The browser's clock (`sent`) and the backend's (`stamped`) are separate parameters of every save.
- The store's mismatched names. The store field is `currentFile` with setters `setCurrentFilePath` and `resetCurrentFilePath` (`stores/store.ts:9-17`). `FileTree.tsx` calls `setCurrentFile` and `resetCurrentFile`, which the store does not define, and `HttpClient.tsx` reads `currentFilePath`, which is always undefined. The model joins the names into one working field, `currentFile`, with one setter pair. As written the program does this instead:
  - `handleFileClick` throws at `FileTree.tsx:204`; the throw is caught and the "Failed to load file" dialog opens, so no file is ever loaded from the tree.
  - `confirmCloseCollection` throws at `FileTree.tsx:167` when the current file is under the closed root, before the selection reset, the removal and the expanded-path update.
  - In `HttpClient.tsx` the mount effect (384-388), the dirty check (408-436) and the Ctrl+S branch that saves (443) never run, so Ctrl+S always opens save-as.
  - `saveRequest()` without a path throws at `saveFilePath.trim()` (164) and alerts, so the automatic save after a send never writes.
- Concurrency. Un-awaited promises are taken in program order, and every `forEach(c => refreshCollection(c.id))` as refreshes one after another in list order. The window events `postier-load-file` and `postier-clear-request` are direct calls of the editor's listeners.
- Stale closures are modelled only where they change the outcome: FileTree's refresh-all, and the older view's lookup through the handler's list. `saveRequest` lists no `selectedCollection` among its dependencies; the model reads the current value.
- TreeOps.GetAllNodes: its own contract states only that the root comes first. The full membership is in AllNodesMembers, and the pre-order is not stated.
