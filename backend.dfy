/** The Go backend (app.go) over an abstract filesystem: a map from absolute
    path to node. Directory listings are derived from the keys: the entries
    of `dir` are the keys `dir + "/" + name` whose `name` has no slash. */
module Backend {
  import opened Wrappers
  import opened Text
  import opened Types
  import Ordering

  /** What a file holds: a request document the backend wrote (its JSON
      encoding is not modelled) or any other text. */
  datatype FileContent = RequestFile(doc: StoredRequest) | RawText(text: string)

  /** A node of the filesystem with what `os.Stat` reports about it. An
      unreadable directory can be stat-ed but not listed. */
  datatype FsNode =
    | DirNode(readable: bool, size: int, modified: int)
    | FileNode(content: FileContent, size: int, modified: int)

  type FileSystem = map<string, FsNode>

  /** `filepath.Join(dir, name)` for a clean directory path and a plain
      entry name. */
  function Join(dir: string, name: string): string {
    dir + "/" + name
  }

  function TrimTrailingSlashes(p: string): (r: string)
    ensures |r| <= |p| && r == p[..|r|]
    ensures r == [] || r[|r| - 1] != '/'
  {
    if p != [] && p[|p| - 1] == '/' then TrimTrailingSlashes(p[..|p| - 1]) else p
  }

  /** `filepath.Base`: the last element of the path, trailing slashes
      ignored; "." for the empty path and "/" for a path of slashes. */
  function Base(path: string): string {
    if path == "" then "."
    else
      var p := TrimTrailingSlashes(path);
      if p == "" then "/" else AfterLast(p, '/')
  }

  /** The name an entry is listed under is the base of the path it is
      joined to. */
  lemma BaseOfJoin(dir: string, name: string)
    requires name != [] && '/' !in name
    ensures Base(Join(dir, name)) == name
  {
    var p := Join(dir, name);
    assert p[|p| - 1] == name[|name| - 1];
    assert TrimTrailingSlashes(p) == p;
    assert p[|dir|] == '/';
    assert p[|dir| + 1..] == name;
    forall k | |dir| < k < |p| ensures p[k] != '/' {
      assert p[k] == name[k - |dir| - 1];
    }
  }

  /** `path` names an entry of `dir`: one more path element below it. */
  predicate IsChildPath(dir: string, path: string) {
    |path| > |dir| + 1 && path[..|dir| + 1] == dir + "/" && '/' !in path[|dir| + 1..]
  }

  /** `os.ReadDir(dir)` as a set of names. */
  function Listing(fs: FileSystem, dir: string): set<string> {
    set p | p in fs.Keys && IsChildPath(dir, p) :: p[|dir| + 1..]
  }

  lemma ListingMember(fs: FileSystem, dir: string, name: string)
    requires name in Listing(fs, dir)
    ensures Join(dir, name) in fs && name != [] && '/' !in name
  {
    var p :| p in fs.Keys && IsChildPath(dir, p) && p[|dir| + 1..] == name;
    assert p == p[..|dir| + 1] + p[|dir| + 1..];
  }

  lemma JoinInjective(dir: string, a: string, b: string)
    requires Join(dir, a) == Join(dir, b)
    ensures a == b
  {
    assert a == Join(dir, a)[|dir| + 1..];
  }

  /** Every key strictly below `dir`, at any depth. */
  function Descendants(fs: FileSystem, dir: string): set<string> {
    set p | p in fs.Keys && StartsWith(p, dir + "/")
  }

  /** `GetDirectoryTree(path)` succeeds on it: it exists, and if it is a
      directory it can be listed. */
  predicate Loadable(fs: FileSystem, path: string) {
    path in fs && (fs[path].FileNode? || fs[path].readable)
  }

  /** The entry `os.Stat` yields for a path. */
  function EntryOf(fs: FileSystem, path: string): FileSystemEntry
    requires path in fs
  {
    FileSystemEntry(Base(path), path, fs[path].DirNode?, fs[path].size, fs[path].modified)
  }

  /** The comparator of the `sort.Slice` in GetDirectoryTree:
      directories first, then by name. */
  predicate ChildLess(x: DirectoryTree, y: DirectoryTree) {
    if x.entry.isDir != y.entry.isDir then x.entry.isDir
    else LexLess(x.entry.name, y.entry.name)
  }

  /** "x may precede y" in a sorted child list. */
  predicate ChildOrder(x: DirectoryTree, y: DirectoryTree) {
    !ChildLess(y, x)
  }

  /** The paths of the children that `GetDirectoryTree` keeps: entries
      that fail to load are skipped. */
  ghost function LoadedChildren(fs: FileSystem, dir: string): set<string> {
    LoadedAmong(fs, dir, Listing(fs, dir))
  }

  /** The paths of the loadable entries among `names`. */
  ghost function LoadedAmong(fs: FileSystem, dir: string, names: set<string>): set<string> {
    set n | n in names && Loadable(fs, Join(dir, n)) :: Join(dir, n)
  }

  lemma LoadedAmongAdd(fs: FileSystem, dir: string, names: set<string>, name: string)
    ensures LoadedAmong(fs, dir, names + {name}) ==
      LoadedAmong(fs, dir, names) + (if Loadable(fs, Join(dir, name)) then {Join(dir, name)} else {})
  {
  }

  /** A path outside the names seen so far is new to their paths. */
  lemma LoadedAmongFresh(fs: FileSystem, dir: string, names: set<string>, name: string)
    requires name !in names
    ensures Join(dir, name) !in LoadedAmong(fs, dir, names)
  {
    forall n | n in names ensures Join(dir, n) != Join(dir, name) {
      if Join(dir, n) == Join(dir, name) { JoinInjective(dir, n, name); }
    }
  }

  lemma PathsOfAppend(cs: seq<DirectoryTree>, c: DirectoryTree)
    ensures PathsOf(cs + [c]) == PathsOf(cs) + {c.entry.path}
  {
    assert forall d :: d in cs + [c] <==> d in cs || d == c;
  }

  lemma PathsOfPermutation(a: seq<DirectoryTree>, b: seq<DirectoryTree>)
    requires multiset(a) == multiset(b)
    ensures forall c :: c in a <==> c in b
    ensures PathsOf(a) == PathsOf(b)
  {
    assert forall c :: c in a <==> c in multiset(b);
  }

  function PathsOf(cs: seq<DirectoryTree>): set<string> {
    set c | c in cs :: c.entry.path
  }

  /** `t` is a faithful snapshot of the filesystem at `t.entry.path`: the
      entry is what `os.Stat` reports, a file has no children, and a
      directory's children are exactly its loadable entries, each one a
      faithful snapshot, in the order directories first, then by name. */
  ghost predicate Mirrors(fs: FileSystem, t: DirectoryTree)
    decreases t
  {
    var p := t.entry.path;
    && Loadable(fs, p)
    && t.entry == EntryOf(fs, p)
    && (fs[p].FileNode? ==> t.children == [])
    && (fs[p].DirNode? ==>
          && Ordering.SortedBy(t.children, ChildOrder)
          && (forall c :: c in t.children ==> Mirrors(fs, c))
          && PathsOf(t.children) == LoadedChildren(fs, p)
          && |t.children| == |LoadedChildren(fs, p)|)
  }

  /** A listed directory whose children are sorted faithful snapshots of
      exactly its loadable entries is mirrored. */
  lemma MirrorsDirectory(fs: FileSystem, dir: string, kids: seq<DirectoryTree>)
    requires dir in fs && fs[dir].DirNode? && fs[dir].readable
    requires Ordering.SortedBy(kids, ChildOrder)
    requires forall c :: c in kids ==> Mirrors(fs, c)
    requires PathsOf(kids) == LoadedChildren(fs, dir) && |kids| == |LoadedChildren(fs, dir)|
    ensures Mirrors(fs, DirectoryTree(EntryOf(fs, dir), kids))
  {
  }

  /** The keys at least as long as `path`: the measure that bounds the
      descent of GetDirectoryTree, since every child path is longer. */
  function Reach(fs: FileSystem, path: string): set<string> {
    set q | q in fs.Keys && |q| >= |path|
  }

  lemma ReachShrinks(fs: FileSystem, parent: string, child: string)
    requires parent in fs && |child| > |parent|
    ensures |Reach(fs, child)| < |Reach(fs, parent)|
  {
    var big, small := Reach(fs, parent), Reach(fs, child);
    assert small <= big;
    assert parent in big - small;
    assert big == small + (big - small);
  }

  lemma ChildOrderIsTotalPreorder()
    ensures Ordering.TotalPreorder(ChildOrder)
  {
    forall x: DirectoryTree, y: DirectoryTree ensures ChildOrder(x, y) || ChildOrder(y, x) {
      LexLessTotal(x.entry.name, y.entry.name);
      if LexLess(x.entry.name, y.entry.name) { LexLessAsymmetric(x.entry.name, y.entry.name); }
    }
    forall x: DirectoryTree, y: DirectoryTree, z: DirectoryTree
      | ChildOrder(x, y) && ChildOrder(y, z)
      ensures ChildOrder(x, z)
    {
      if x.entry.isDir == y.entry.isDir == z.entry.isDir {
        LexNotLessTransitive(x.entry.name, y.entry.name, z.entry.name);
      }
    }
  }

  /** "at most" on strings is transitive. */
  lemma LexNotLessTransitive(a: string, b: string, c: string)
    requires !LexLess(b, a) && !LexLess(c, b)
    ensures !LexLess(c, a)
  {
    LexLessTotal(a, b);
    LexLessTotal(b, c);
    if a == c {
      LexLessIrreflexive(a);
    } else if LexLess(a, b) && LexLess(b, c) {
      LexLessTransitive(a, b, c);
      LexLessAsymmetric(a, c);
    } else if LexLess(a, b) {
      LexLessAsymmetric(a, c);
    } else if LexLess(b, c) {
      LexLessAsymmetric(a, c);
    }
  }

  /** `GetDirectoryTree(rootPath)` (app.go): stat the path, list it when it
      is a directory, load every entry recursively skipping those that
      fail, and sort the children directories first, then by name. */
  method GetDirectoryTree(fs: FileSystem, rootPath: string) returns (r: Result<DirectoryTree>)
    ensures r.Success? <==> Loadable(fs, rootPath)
    ensures r.Success? ==> r.value.entry.path == rootPath && Mirrors(fs, r.value)
    decreases |Reach(fs, rootPath)|, 1
  {
    if rootPath !in fs {
      return Failure("failed to access path");
    }
    var entry := EntryOf(fs, rootPath);
    if fs[rootPath].FileNode? {
      return Success(DirectoryTree(entry, []));
    }
    if !fs[rootPath].readable {
      return Failure("failed to read directory");
    }
    var children := LoadChildren(fs, rootPath);
    ChildOrderIsTotalPreorder();
    var sorted := Ordering.Sorted(children, ChildOrder);
    PathsOfPermutation(sorted, children);
    MirrorsDirectory(fs, rootPath, sorted);
    r := Success(DirectoryTree(entry, sorted));
  }

  /** The loop of GetDirectoryTree over the entries of a directory, in
      listing order: every entry is loaded, those that fail are skipped. */
  method LoadChildren(fs: FileSystem, rootPath: string) returns (children: seq<DirectoryTree>)
    requires rootPath in fs && fs[rootPath].DirNode? && fs[rootPath].readable
    ensures forall c :: c in children ==> Mirrors(fs, c)
    ensures PathsOf(children) == LoadedChildren(fs, rootPath)
    ensures |children| == |LoadedChildren(fs, rootPath)|
    decreases |Reach(fs, rootPath)|, 0
  {
    var names := Listing(fs, rootPath);
    children := [];
    ghost var seen: set<string> := {};
    while names != {}
      invariant names <= Listing(fs, rootPath)
      invariant seen == Listing(fs, rootPath) - names
      invariant ChildrenAmong(fs, rootPath, seen, children)
      decreases names
    {
      var name :| name in names;
      ListingMember(fs, rootPath, name);
      ReachShrinks(fs, rootPath, Join(rootPath, name));
      var child := GetDirectoryTree(fs, Join(rootPath, name));
      ChildrenStep(fs, rootPath, seen, children, name, child);
      if child.Success? {
        children := children + [child.value];
      }
      names := names - {name};
      seen := seen + {name};
    }
  }

  /** `children` are faithful snapshots of exactly the loadable entries
      among `names`, one each. */
  ghost predicate ChildrenAmong(fs: FileSystem, dir: string, names: set<string>, children: seq<DirectoryTree>) {
    && (forall c :: c in children ==> Mirrors(fs, c))
    && PathsOf(children) == LoadedAmong(fs, dir, names)
    && |children| == |PathsOf(children)|
  }

  /** One turn of the loop of LoadChildren keeps ChildrenAmong. */
  lemma ChildrenStep(fs: FileSystem, dir: string, names: set<string>, children: seq<DirectoryTree>,
                     name: string, child: Result<DirectoryTree>)
    requires ChildrenAmong(fs, dir, names, children) && name !in names
    requires child.Success? <==> Loadable(fs, Join(dir, name))
    requires child.Success? ==> child.value.entry.path == Join(dir, name) && Mirrors(fs, child.value)
    ensures ChildrenAmong(fs, dir, names + {name},
      if child.Success? then children + [child.value] else children)
  {
    LoadedAmongAdd(fs, dir, names, name);
    if child.Success? {
      LoadedAmongFresh(fs, dir, names, name);
      PathsOfAppend(children, child.value);
    }
  }

  /** The comparator of the `sort.Slice` in ListPostierFiles: by name. */
  predicate NameOrder(x: FileSystemEntry, y: FileSystemEntry) {
    !LexLess(y.name, x.name)
  }

  lemma NameOrderIsTotalPreorder()
    ensures Ordering.TotalPreorder(NameOrder)
  {
    forall x: FileSystemEntry, y: FileSystemEntry ensures NameOrder(x, y) || NameOrder(y, x) {
      LexLessTotal(x.name, y.name);
      if LexLess(x.name, y.name) { LexLessAsymmetric(x.name, y.name); }
    }
    forall x: FileSystemEntry, y: FileSystemEntry, z: FileSystemEntry
      | NameOrder(x, y) && NameOrder(y, z)
      ensures NameOrder(x, z)
    {
      LexNotLessTransitive(x.name, y.name, z.name);
    }
  }

  /** The entries ListPostierFiles reports: plain files named `*.postier`. */
  function PostierNames(fs: FileSystem, dir: string): set<string> {
    PostierAmong(fs, dir, Listing(fs, dir))
  }

  function PostierAmong(fs: FileSystem, dir: string, names: set<string>): set<string> {
    set n | n in names && IsPostierFile(fs, dir, n)
  }

  predicate IsPostierFile(fs: FileSystem, dir: string, name: string) {
    Join(dir, name) in fs && fs[Join(dir, name)].FileNode? && EndsWith(name, ".postier")
  }

  /** A reported entry is what `os.Stat` says about its path. */
  lemma ListedFileIsEntry(fs: FileSystem, dir: string, e: FileSystemEntry)
    requires ListedFile(fs, dir, e)
    ensures e == EntryOf(fs, e.path)
  {
    ListingMember(fs, dir, e.name);
    BaseOfJoin(dir, e.name);
  }

  lemma ListedFileOf(fs: FileSystem, dir: string, name: string)
    requires name in Listing(fs, dir) && IsPostierFile(fs, dir, name)
    ensures var node := fs[Join(dir, name)];
      ListedFile(fs, dir, FileSystemEntry(name, Join(dir, name), false, node.size, node.modified))
  {
  }

  lemma PostierAmongAdd(fs: FileSystem, dir: string, names: set<string>, name: string)
    ensures PostierAmong(fs, dir, names + {name}) ==
      PostierAmong(fs, dir, names) + (if IsPostierFile(fs, dir, name) then {name} else {})
  {
  }

  /** An entry of the listing of `dir`, as ListPostierFiles reports it. */
  predicate ListedFile(fs: FileSystem, dir: string, e: FileSystemEntry) {
    && e.name in Listing(fs, dir) && e.path == Join(dir, e.name)
    && !e.isDir && EndsWith(e.name, ".postier")
    && e.path in fs && fs[e.path].FileNode?
    && e.size == fs[e.path].size && e.modified == fs[e.path].modified
  }

  function NamesOf(es: seq<FileSystemEntry>): set<string> {
    set e | e in es :: e.name
  }

  lemma NamesOfAppend(es: seq<FileSystemEntry>, e: FileSystemEntry)
    ensures NamesOf(es + [e]) == NamesOf(es) + {e.name}
  {
    assert forall d :: d in es + [e] <==> d in es || d == e;
  }

  lemma NamesOfPermutation(a: seq<FileSystemEntry>, b: seq<FileSystemEntry>)
    requires multiset(a) == multiset(b)
    ensures forall e :: e in a <==> e in b
    ensures NamesOf(a) == NamesOf(b)
  {
    assert forall e :: e in a <==> e in multiset(b);
  }

  /** `ListPostierFiles(directoryPath)` (app.go): list the directory, keep
      the non-directories whose name ends in ".postier", sort by name. */
  method ListPostierFiles(fs: FileSystem, directoryPath: string)
    returns (r: Result<seq<FileSystemEntry>>)
    ensures r.Success? <==>
      directoryPath in fs && fs[directoryPath].DirNode? && fs[directoryPath].readable
    ensures r.Success? ==>
      && Ordering.SortedBy(r.value, NameOrder)
      && NamesOf(r.value) == PostierNames(fs, directoryPath)
      && |r.value| == |PostierNames(fs, directoryPath)|
      && forall e :: e in r.value ==> ListedFile(fs, directoryPath, e)
  {
    if directoryPath !in fs || fs[directoryPath].FileNode? || !fs[directoryPath].readable {
      return Failure("failed to read directory");
    }
    var files := PostierEntries(fs, directoryPath);
    NameOrderIsTotalPreorder();
    var sorted := Ordering.Sorted(files, NameOrder);
    NamesOfPermutation(sorted, files);
    r := Success(sorted);
  }

  /** The loop of ListPostierFiles: the request files of the directory,
      in listing order. */
  method PostierEntries(fs: FileSystem, directoryPath: string) returns (files: seq<FileSystemEntry>)
    requires directoryPath in fs && fs[directoryPath].DirNode?
    ensures NamesOf(files) == PostierNames(fs, directoryPath)
    ensures |files| == |NamesOf(files)|
    ensures forall e :: e in files ==> ListedFile(fs, directoryPath, e)
  {
    var names := Listing(fs, directoryPath);
    files := [];
    ghost var seen: set<string> := {};
    while names != {}
      invariant names <= Listing(fs, directoryPath)
      invariant seen == Listing(fs, directoryPath) - names
      invariant FilesAmong(fs, directoryPath, seen, files)
      decreases names
    {
      var name :| name in names;
      ListingMember(fs, directoryPath, name);
      var path := Join(directoryPath, name);
      var node := fs[path];
      var e := FileSystemEntry(name, path, false, node.size, node.modified);
      FilesStep(fs, directoryPath, seen, files, name);
      if node.FileNode? && EndsWith(name, ".postier") {
        files := files + [e];
      }
      names := names - {name};
      seen := seen + {name};
    }
  }

  /** `files` are the listed request files among `names`, one each. */
  ghost predicate FilesAmong(fs: FileSystem, dir: string, names: set<string>, files: seq<FileSystemEntry>) {
    && NamesOf(files) == PostierAmong(fs, dir, names)
    && |files| == |NamesOf(files)|
    && (forall e :: e in files ==> ListedFile(fs, dir, e))
  }

  /** One turn of the loop of PostierEntries keeps FilesAmong. */
  lemma FilesStep(fs: FileSystem, dir: string, names: set<string>, files: seq<FileSystemEntry>, name: string)
    requires FilesAmong(fs, dir, names, files) && name !in names && name in Listing(fs, dir)
    ensures Join(dir, name) in fs
    ensures var node := fs[Join(dir, name)];
      var e := FileSystemEntry(name, Join(dir, name), false, node.size, node.modified);
      FilesAmong(fs, dir, names + {name},
        if node.FileNode? && EndsWith(name, ".postier") then files + [e] else files)
  {
    ListingMember(fs, dir, name);
    PostierAmongAdd(fs, dir, names, name);
    var node := fs[Join(dir, name)];
    var e := FileSystemEntry(name, Join(dir, name), false, node.size, node.modified);
    if node.FileNode? && EndsWith(name, ".postier") {
      ListedFileOf(fs, dir, name);
      NamesOfAppend(files, e);
    }
  }

  /** The path SavePostierRequest writes to: ".postier" appended unless
      the path already ends with it. */
  function PostierPath(filePath: string): string {
    if EndsWith(filePath, ".postier") then filePath else filePath + ".postier"
  }

  lemma PostierPathSpec(filePath: string)
    ensures EndsWith(PostierPath(filePath), ".postier")
    ensures PostierPath(filePath) == filePath <==> EndsWith(filePath, ".postier")
    ensures PostierPath(PostierPath(filePath)) == PostierPath(filePath)
  {
    EndsWithAppended(filePath, ".postier");
  }

  /** The timestamps SavePostierRequest gives a document: `updatedAt` is
      now, `createdAt` is now only when it was unset (zero). */
  function Stamped(request: StoredRequest, now: int): StoredRequest {
    var updated := request.(updatedAt := now);
    if updated.createdAt == 0 then updated.(createdAt := updated.updatedAt) else updated
  }

  lemma StampedSpec(request: StoredRequest, now: int)
    ensures Stamped(request, now).updatedAt == now
    ensures Stamped(request, now).createdAt ==
      if request.createdAt == 0 then now else request.createdAt
    ensures Stamped(request, now).(createdAt := request.createdAt, updatedAt := request.updatedAt)
      == request
  {
  }

  /** `OpenFolderDialog`: the native dialog's answer is a parameter; a
      cancelled dialog (an empty selection) is an error, not a path. */
  function OpenFolderDialog(selected: Result<string>): (r: Result<string>)
    ensures r.Success? <==> selected.Success? && selected.value != ""
    ensures r.Success? ==> r.value == selected.value
  {
    match selected
    case Failure(e) => Failure("failed to open folder dialog: " + e)
    case Success(p) => if p == "" then Failure("no folder selected") else Success(p)
  }

  /** A call the frontend made on the storage collaborator, in order. */
  datatype StorageCall =
    | MakeDirectory(path: string)
    | WriteFile(path: string, content: FileContent)
    | RemoveFile(path: string)
    | RemoveTree(path: string)

  function SizeOf(content: FileContent): int {
    match content
    case RawText(t) => |t|
    case RequestFile(_) => 0
  }

  /** `os.MkdirAll(path)`: nothing to do on a directory, an error on a
      file or a refused path, otherwise a new empty directory. */
  function MkdirResult(fs: FileSystem, refused: set<string>, path: string, now: int): Option<FileSystem> {
    if path in refused || (path in fs && fs[path].FileNode?) then None
    else if path in fs then Some(fs)
    else Some(fs[path := DirNode(true, 0, now)])
  }

  /** `os.WriteFile(path, content)`: an error on a directory or a refused
      path, otherwise the file holds `content`. */
  function WriteResult(fs: FileSystem, refused: set<string>, path: string, content: FileContent, now: int)
    : Option<FileSystem>
  {
    if path in refused || (path in fs && fs[path].DirNode?) then None
    else Some(fs[path := FileNode(content, SizeOf(content), now)])
  }

  /** `os.Remove(path)`: removes a file or an empty directory; an error on
      a missing path, a directory with entries or a refused path. */
  function RemoveResult(fs: FileSystem, refused: set<string>, path: string): Option<FileSystem> {
    if path in refused || path !in fs || (fs[path].DirNode? && Descendants(fs, path) != {}) then None
    else Some(fs - {path})
  }

  /** `os.RemoveAll(path)`: removes the path and everything below it;
      nothing to remove is no error. */
  function RemoveAllResult(fs: FileSystem, refused: set<string>, path: string): Option<FileSystem> {
    if path in refused then None else Some(fs - ({path} + Descendants(fs, path)))
  }

  /** After RemoveAll nothing is left at or below the path, and every
      other path is untouched. */
  lemma RemoveAllSpec(fs: FileSystem, refused: set<string>, path: string)
    requires path !in refused
    ensures var r := RemoveAllResult(fs, refused, path).value;
      && path !in r && Descendants(r, path) == {}
      && forall q :: q in fs && q != path && !StartsWith(q, path + "/") ==> q in r && r[q] == fs[q]
  {
  }

  /** The Wails-bound backend object as a storage collaborator: the
      filesystem it reads and changes, the paths on which the operating
      system refuses a change, and the log of mutating calls it received. */
  class App {
    var fs: FileSystem
    var refused: set<string>
    var calls: seq<StorageCall>

    constructor(fs0: FileSystem, refused0: set<string>)
      ensures fs == fs0 && refused == refused0 && calls == []
    {
      fs, refused, calls := fs0, refused0, [];
    }

    /** `CreateDirectory(path)`. */
    method CreateDirectory(path: string, now: int) returns (ok: bool)
      modifies this
      ensures refused == old(refused) && calls == old(calls) + [MakeDirectory(path)]
      ensures var r := MkdirResult(old(fs), refused, path, now);
        ok == r.Some? && fs == if ok then r.value else old(fs)
    {
      calls := calls + [MakeDirectory(path)];
      var r := MkdirResult(fs, refused, path, now);
      ok := r.Some?;
      if ok { fs := r.value; }
    }

    /** `CreateFile(path, content)`; the parent directories are taken to
        exist. */
    method CreateFile(path: string, content: FileContent, now: int) returns (ok: bool)
      modifies this
      ensures refused == old(refused) && calls == old(calls) + [WriteFile(path, content)]
      ensures var r := WriteResult(old(fs), refused, path, content, now);
        ok == r.Some? && fs == if ok then r.value else old(fs)
    {
      calls := calls + [WriteFile(path, content)];
      var r := WriteResult(fs, refused, path, content, now);
      ok := r.Some?;
      if ok { fs := r.value; }
    }

    /** `DeleteFile(path)`. */
    method DeleteFile(path: string) returns (ok: bool)
      modifies this
      ensures refused == old(refused) && calls == old(calls) + [RemoveFile(path)]
      ensures var r := RemoveResult(old(fs), refused, path);
        ok == r.Some? && fs == if ok then r.value else old(fs)
    {
      calls := calls + [RemoveFile(path)];
      var r := RemoveResult(fs, refused, path);
      ok := r.Some?;
      if ok { fs := r.value; }
    }

    /** `DeleteDirectory(path)`. */
    method DeleteDirectory(path: string) returns (ok: bool)
      modifies this
      ensures refused == old(refused) && calls == old(calls) + [RemoveTree(path)]
      ensures var r := RemoveAllResult(old(fs), refused, path);
        ok == r.Some? && fs == if ok then r.value else old(fs)
    {
      calls := calls + [RemoveTree(path)];
      var r := RemoveAllResult(fs, refused, path);
      ok := r.Some?;
      if ok { fs := r.value; }
    }

    /** `LoadPostierRequest(path)`: reads and decodes a request file. */
    method LoadPostierRequest(path: string) returns (r: Result<StoredRequest>)
      ensures r.Success? <==> path in fs && fs[path].FileNode? && fs[path].content.RequestFile?
      ensures r.Success? ==> r.value == fs[path].content.doc
    {
      if path !in fs || fs[path].DirNode? {
        return Failure("failed to read file");
      }
      match fs[path].content
      case RawText(_) => return Failure("failed to parse postier file");
      case RequestFile(doc) => return Success(doc);
    }

    /** `SavePostierRequest(filePath, request)`: stamps the document, makes
        sure the path ends in ".postier", and writes the file. */
    method SavePostierRequest(filePath: string, request: StoredRequest, now: int) returns (ok: bool)
      modifies this
      ensures refused == old(refused)
      ensures var p, doc := PostierPath(filePath), RequestFile(Stamped(request, now));
        var r := WriteResult(old(fs), refused, p, doc, now);
        && calls == old(calls) + [WriteFile(p, doc)]
        && ok == r.Some? && fs == if ok then r.value else old(fs)
    {
      var req := request;
      req := req.(updatedAt := now);
      if req.createdAt == 0 {
        req := req.(createdAt := req.updatedAt);
      }
      var path := filePath;
      if !EndsWith(path, ".postier") {
        path := path + ".postier";
      }
      ok := CreateFile(path, RequestFile(req), now);
    }
  }
}
