/** The logic of the collection tree view that does not depend on which
    component holds the state (FileTree.tsx, and its older variant
    History.tsx, run the same code here): flattening a tree, looking
    collections and nodes up, deriving the paths of a rename or a create,
    updating the list of expanded paths, and the sequences of storage calls
    a rename, a create and a delete make. */
module TreeOps {
  import opened Wrappers
  import opened Text
  import opened Types
  import Backend

  /* ---------------- flattening ---------------- */

  /** `getAllNodes(tree)`: the node itself, then the nodes of each child
      in order (a pre-order walk). */
  function GetAllNodes(t: DirectoryTree): (r: seq<DirectoryTree>)
    ensures |r| >= 1 && r[0] == t
    decreases t, |t.children| + 1
  {
    [t] + NodesFrom(t, 0)
  }

  /** The nodes of the children of `t` from the `i`-th on. */
  function NodesFrom(t: DirectoryTree, i: nat): seq<DirectoryTree>
    requires i <= |t.children|
    decreases t, |t.children| - i
  {
    if i == |t.children| then [] else GetAllNodes(t.children[i]) + NodesFrom(t, i + 1)
  }

  lemma {:induction false} NodesFromMembers(t: DirectoryTree, i: nat, n: DirectoryTree)
    requires i <= |t.children|
    ensures n in NodesFrom(t, i) <==>
      exists j :: i <= j < |t.children| && n in GetAllNodes(t.children[j])
    decreases |t.children| - i
  {
    if i < |t.children| {
      NodesFromMembers(t, i + 1, n);
    }
  }

  /** A node of the flattened tree is the root or a node of one child. */
  lemma AllNodesMembers(t: DirectoryTree, n: DirectoryTree)
    ensures n in GetAllNodes(t) <==>
      n == t || exists j :: 0 <= j < |t.children| && n in GetAllNodes(t.children[j])
  {
    NodesFromMembers(t, 0, n);
  }

  /** `collections.flatMap(c => getAllNodes(c.tree))`. */
  function AllNodesIn(cs: seq<Collection>): seq<DirectoryTree> {
    if cs == [] then [] else GetAllNodes(cs[0].tree) + AllNodesIn(cs[1..])
  }

  lemma {:induction false} AllNodesInMembers(cs: seq<Collection>, n: DirectoryTree)
    ensures n in AllNodesIn(cs) <==> exists i :: 0 <= i < |cs| && n in GetAllNodes(cs[i].tree)
  {
    if cs != [] {
      AllNodesInMembers(cs[1..], n);
      assert forall i :: 1 <= i < |cs| ==> cs[i] == cs[1..][i - 1];
    }
  }

  /** The paths of every node of a tree, as a set (the keys History.tsx
      deletes when a collection closes). */
  function TreePaths(t: DirectoryTree): set<string>
    decreases t, |t.children| + 1
  {
    {t.entry.path} + PathsFrom(t, 0)
  }

  function PathsFrom(t: DirectoryTree, i: nat): set<string>
    requires i <= |t.children|
    decreases t, |t.children| - i
  {
    if i == |t.children| then {} else TreePaths(t.children[i]) + PathsFrom(t, i + 1)
  }

  /** TreePaths are exactly the paths of the flattened tree. */
  lemma {:induction false} TreePathsOfAllNodes(t: DirectoryTree, p: string)
    ensures p in TreePaths(t) <==> exists n :: n in GetAllNodes(t) && n.entry.path == p
    decreases t, |t.children| + 1
  {
    PathsFromOfNodes(t, 0, p);
    if p != t.entry.path {
      forall n | n in GetAllNodes(t) && n.entry.path == p
        ensures exists m :: m in NodesFrom(t, 0) && m.entry.path == p
      {
        assert GetAllNodes(t) == [t] + NodesFrom(t, 0);
      }
    }
  }

  lemma {:induction false} PathsFromOfNodes(t: DirectoryTree, i: nat, p: string)
    requires i <= |t.children|
    ensures p in PathsFrom(t, i) <==> exists n :: n in NodesFrom(t, i) && n.entry.path == p
    decreases t, |t.children| - i
  {
    if i < |t.children| {
      TreePathsOfAllNodes(t.children[i], p);
      PathsFromOfNodes(t, i + 1, p);
    }
  }

  /** A child of a tree read from the filesystem is read from it too, at
      a path one element below its parent's. */
  lemma MirroredChild(fs: Backend.FileSystem, t: DirectoryTree, c: DirectoryTree)
    requires Backend.Mirrors(fs, t) && c in t.children
    ensures Backend.Mirrors(fs, c) && StartsWith(c.entry.path, t.entry.path + "/")
  {
    var p := t.entry.path;
    assert c.entry.path in Backend.PathsOf(t.children);
    var name :| name in Backend.Listing(fs, p) && Backend.Loadable(fs, Backend.Join(p, name))
                && Backend.Join(p, name) == c.entry.path;
    assert c.entry.path[..|p| + 1] == p + "/";
  }

  /** In a tree read from the filesystem every node lies at or below the
      root: its path is the root's or starts with the root and a slash. */
  lemma {:induction false} MirroredNodesBelowRoot(fs: Backend.FileSystem, t: DirectoryTree, n: DirectoryTree)
    requires Backend.Mirrors(fs, t)
    requires n in GetAllNodes(t)
    ensures Backend.Mirrors(fs, n)
    ensures n.entry.path == t.entry.path || StartsWith(n.entry.path, t.entry.path + "/")
    decreases t
  {
    AllNodesMembers(t, n);
    if n != t {
      var j :| 0 <= j < |t.children| && n in GetAllNodes(t.children[j]);
      var c := t.children[j];
      assert c in t.children;
      MirroredChild(fs, t, c);
      MirroredNodesBelowRoot(fs, c, n);
      if n.entry.path != c.entry.path {
        StartsWithBelow(n.entry.path, c.entry.path, t.entry.path);
      }
    }
  }

  /* ---------------- lookups ---------------- */

  /** `array.find(p)`: the first element satisfying `p`, if any. */
  function Find<T(==)>(s: seq<T>, p: T -> bool): (r: Option<T>)
    ensures r.None? <==> forall i :: 0 <= i < |s| ==> !p(s[i])
    ensures r.Some? ==> r.value in s && p(r.value)
    ensures r.Some? ==> exists i :: 0 <= i < |s| && s[i] == r.value && forall j :: 0 <= j < i ==> !p(s[j])
  {
    if s == [] then None
    else if p(s[0]) then Some(s[0])
    else
      var r := Find(s[1..], p);
      assert forall i :: 1 <= i < |s| ==> s[i] == s[1..][i - 1];
      if r.Some? then
        var i :| 0 <= i < |s[1..]| && s[1..][i] == r.value && forall j :: 0 <= j < i ==> !p(s[1..][j]);
        assert s[i + 1] == r.value;
        r
      else r
  }

  /** The collection with this id. */
  function CollectionById(cs: seq<Collection>, id: string): Option<Collection> {
    Find(cs, (c: Collection) => c.id == id)
  }

  /** The collection opened at this path. */
  function CollectionAtPath(cs: seq<Collection>, path: string): Option<Collection> {
    Find(cs, (c: Collection) => c.path == path)
  }

  /** The first collection whose root path is a prefix of `path` (no
      separator is required: "/ws/api" owns "/ws/api2/x"). */
  function OwnerOf(cs: seq<Collection>, path: string): Option<Collection> {
    Find(cs, (c: Collection) => StartsWith(path, c.path))
  }

  /** The first node of all trees whose path is `path`. */
  function NodeAt(cs: seq<Collection>, path: string): Option<DirectoryTree> {
    Find(AllNodesIn(cs), (n: DirectoryTree) => n.entry.path == path)
  }

  /** The prefix test has no separator: a collection at "/ws/api" owns a
      file of the sibling folder "/ws/api2". */
  lemma OwnerWithoutSeparator(t: DirectoryTree)
    ensures OwnerOf([Collection("c1", "api", "/ws/api", t)], "/ws/api2/get.postier")
      == Some(Collection("c1", "api", "/ws/api", t))
  {
    assert StartsWith("/ws/api2/get.postier", "/ws/api");
  }

  /* ---------------- rename and create ---------------- */

  /** The text the rename field starts with: a directory's name, a file's
      name without its final extension. */
  function StartEditValue(entry: FileSystemEntry): string {
    if entry.isDir then entry.name else StripExtension(entry.name)
  }

  /** `path.substring(0, path.lastIndexOf('/'))`: everything before the
      last slash, "" when there is none. */
  function DirectoryOf(path: string): (r: string)
    ensures StartsWith(path, r)
    ensures '/' in path ==> path == r + "/" + AfterLast(path, '/')
  {
    var i := LastIndexOf(path, '/');
    if i >= 0 then
      assert path[i + 1..] == AfterLast(path, '/');
      assert path == path[..i] + "/" + path[i + 1..];
      path[..i]
    else []
  }

  datatype RenamePlan = RenamePlan(directory: string, newName: string, newPath: string)

  /** The target of `saveEdit(oldPath, isDir)` for the text in the rename
      field, or None when the edit is cancelled: the text is blank, or the
      new path is the old one. A file keeps the old name's text from its
      last dot on (all of it when there is no dot). */
  function PlanRename(oldPath: string, isDir: bool, editingValue: string): Option<RenamePlan> {
    if IsBlank(editingValue) then None
    else
      var oldName := AfterLast(oldPath, '/');
      var directory := DirectoryOf(oldPath);
      var extension := if isDir then "" else SubstringFrom(oldName, LastIndexOf(oldName, '.'));
      var newName := Trim(editingValue) + extension;
      var newPath := directory + "/" + newName;
      if oldPath == newPath then None else Some(RenamePlan(directory, newName, newPath))
  }

  /** A rename stays in the old entry's directory and keeps a file's
      extension: for a name with a dot, the text from the last dot on. */
  lemma RenameTarget(oldPath: string, isDir: bool, editingValue: string)
    requires PlanRename(oldPath, isDir, editingValue).Some?
    ensures var plan := PlanRename(oldPath, isDir, editingValue).value;
      var oldName := AfterLast(oldPath, '/');
      && !IsBlank(editingValue)
      && plan.newPath == plan.directory + "/" + plan.newName && plan.newPath != oldPath
      && ('/' in oldPath ==> oldPath == plan.directory + "/" + oldName)
      && (isDir ==> plan.newName == Trim(editingValue))
      && (!isDir && '.' in oldName ==>
            plan.newName == Trim(editingValue) + oldName[LastIndexOf(oldName, '.')..])
  {
    var oldName := AfterLast(oldPath, '/');
    SubstringFromSlice(oldName, LastIndexOf(oldName, '.'));
  }

  /** A rename confirmed with the text it started with is cancelled for a
      directory and for a file with an extension. */
  lemma UnchangedRenameCancels(entry: FileSystemEntry)
    requires '/' in entry.path && entry.name == AfterLast(entry.path, '/')
    requires var v := StartEditValue(entry); !IsBlank(v) && Trim(v) == v
    requires !entry.isDir ==> exists j :: ExtensionAt(entry.name, j)
    ensures PlanRename(entry.path, entry.isDir, StartEditValue(entry)) == None
  {
    var name := entry.name;
    var extension := if entry.isDir then "" else SubstringFrom(name, LastIndexOf(name, '.'));
    if !entry.isDir {
      StemAndExtension(name);
    }
    assert StartEditValue(entry) + extension == name;
    assert entry.path == DirectoryOf(entry.path) + "/" + name;
  }

  /** A name with an extension is its stem followed by the text from its
      last dot. */
  lemma StemAndExtension(name: string)
    requires exists j :: ExtensionAt(name, j)
    ensures StripExtension(name) + SubstringFrom(name, LastIndexOf(name, '.')) == name
  {
    StripExtensionMatches(name);
    var stem := StripExtension(name);
    var i := LastIndexOf(name, '.');
    assert ExtensionAt(name, |stem|);
    assert i == |stem|;
    SubstringFromSlice(name, i);
    assert stem + name[i..] == name;
  }

  /** The last element of `dir + "/" + name` and the text before it. */
  lemma SplitJoined(dir: string, name: string)
    requires '/' !in name
    ensures AfterLast(dir + "/" + name, '/') == name
    ensures DirectoryOf(dir + "/" + name) == dir
  {
    var path := dir + "/" + name;
    forall k | |dir| < k < |path| ensures path[k] != '/' {
      assert path[k] == name[k - |dir| - 1];
    }
    LastIndexOfAt(path, '/', |dir|);
    assert path[|dir| + 1..] == name;
    assert path[..|dir|] == dir;
  }

  /** A file whose name has no dot is renamed, not left alone, when the
      rename is confirmed unchanged: "notes" becomes "notesnotes", because
      `lastIndexOf` answers -1 and `substring(-1)` is the whole name. */
  lemma UnchangedRenameOfDotlessFile(dir: string, name: string)
    requires '/' !in name && '.' !in name
    requires !IsBlank(name) && Trim(name) == name
    ensures var e := FileSystemEntry(name, dir + "/" + name, false, 0, 0);
      PlanRename(e.path, false, StartEditValue(e)) ==
        Some(RenamePlan(dir, name + name, dir + "/" + (name + name)))
  {
    SplitJoined(dir, name);
    LastIndexOfAbsent(name, '.');
    SubstringFromSlice(name, -1);
    var path := dir + "/" + name;
    assert |path| < |dir + "/" + (name + name)|;
  }

  datatype CreatePlan = CreatePlan(baseName: string, fullName: string, newPath: string)

  /** The target of `confirmCreateNew` for the text typed in the dialog, or
      None when it is blank: a directory takes the trimmed text, a request
      file the trimmed text with its final extension replaced by
      ".postier". */
  function PlanCreate(parentPath: string, isDir: bool, createName: string): Option<CreatePlan> {
    if IsBlank(createName) then None
    else
      var baseName := if isDir then Trim(createName) else StripExtension(Trim(createName));
      var fullName := if isDir then baseName else baseName + ".postier";
      Some(CreatePlan(baseName, fullName, parentPath + "/" + fullName))
  }

  /** A new directory takes the trimmed text; a new request file is named
      "*.postier" and shows its base name again when a rename starts. */
  lemma CreateTarget(parentPath: string, isDir: bool, createName: string)
    requires !IsBlank(createName)
    ensures var plan := PlanCreate(parentPath, isDir, createName).value;
      && plan.newPath == Backend.Join(parentPath, plan.fullName)
      && (isDir ==> plan.fullName == Trim(createName) && plan.fullName != "")
      && (!isDir ==> EndsWith(plan.fullName, ".postier")
                     && StartEditValue(FileSystemEntry(plan.fullName, plan.newPath, false, 0, 0))
                          == plan.baseName)
  {
    var plan := PlanCreate(parentPath, isDir, createName).value;
    if !isDir {
      EndsWithAppended(plan.baseName, ".postier");
      StripPostierExtension(plan.baseName);
    }
  }

  /** Without a slash in the typed name the new entry is a direct entry of
      the parent directory. */
  lemma CreateInParent(parentPath: string, isDir: bool, createName: string)
    requires !IsBlank(createName) && '/' !in Trim(createName)
    ensures var plan := PlanCreate(parentPath, isDir, createName).value;
      Backend.IsChildPath(parentPath, plan.newPath) && DirectoryOf(plan.newPath) == parentPath
  {
    var plan := PlanCreate(parentPath, isDir, createName).value;
    NoSlashInCreatedName(isDir, Trim(createName));
    assert plan.fullName != "";
    JoinIsChild(parentPath, plan.fullName);
  }

  /** A plain name joined to a directory is an entry of that directory. */
  lemma JoinIsChild(dir: string, name: string)
    requires name != "" && '/' !in name
    ensures Backend.IsChildPath(dir, Backend.Join(dir, name))
    ensures DirectoryOf(Backend.Join(dir, name)) == dir
  {
    SplitJoined(dir, name);
    var p := Backend.Join(dir, name);
    assert p[|dir| + 1..] == name;
    assert p[..|dir| + 1] == dir + "/";
  }

  lemma NoSlashInCreatedName(isDir: bool, t: string)
    requires '/' !in t
    ensures var baseName := if isDir then t else StripExtension(t);
      '/' !in (if isDir then baseName else baseName + ".postier")
  {
    if !isDir {
      StripExtensionSubset(t, '/');
      assert '/' !in ".postier";
    }
  }

  /** The document `confirmCreateNew` writes into a new request file. */
  function NewRequestDocument(baseName: string, now: int): StoredRequest {
    StoredRequest(baseName, "", "GET", "", map[], "", map[], now, now)
  }

  /** `parent?.children?.some(child => child.entry.name === name)`. */
  predicate HasChildNamed(parent: Option<DirectoryTree>, name: string) {
    parent.Some? && exists c :: c in parent.value.children && c.entry.name == name
  }

  /** Against a snapshot that is current, the conflict check finds every
      loadable entry of that name. */
  lemma ConflictFindsExisting(fs: Backend.FileSystem, parent: DirectoryTree, name: string)
    requires Backend.Mirrors(fs, parent) && parent.entry.isDir
    requires name != "" && '/' !in name
    requires Backend.Loadable(fs, Backend.Join(parent.entry.path, name))
    ensures HasChildNamed(Some(parent), name)
  {
    var p := parent.entry.path;
    var q := Backend.Join(p, name);
    assert q[|p| + 1..] == name;
    assert q[..|p| + 1] == p + "/";
    assert Backend.IsChildPath(p, q);
    assert name in Backend.Listing(fs, p);
    assert q in Backend.LoadedChildren(fs, p);
    var c :| c in parent.children && c.entry.path == q;
    assert Backend.Mirrors(fs, c);
    Backend.BaseOfJoin(p, name);
  }

  /** The directory node the rename conflict check looks in: a collection
      root with that path, else any node with that path. */
  function RenameParent(cs: seq<Collection>, directory: string): Option<DirectoryTree> {
    var root := CollectionAtPath(Trees(cs), directory);
    if root.Some? then Some(root.value.tree) else NodeAt(cs, directory)
  }

  /** The collections keyed by their roots' paths, for the root lookup. */
  function Trees(cs: seq<Collection>): seq<Collection> {
    seq(|cs|, i requires 0 <= i < |cs| => cs[i].(path := cs[i].tree.entry.path))
  }

  /* ---------------- expanded paths ---------------- */

  /** `xs.indexOf(p)`: the first position of `p`, or -1. */
  function IndexOf(xs: seq<string>, p: string): (r: int)
    ensures -1 <= r < |xs|
    ensures r >= 0 ==> xs[r] == p && p !in xs[..r]
    ensures r == -1 <==> p !in xs
  {
    if xs == [] then -1
    else if xs[0] == p then 0
    else
      var r := IndexOf(xs[1..], p);
      if r == -1 then -1
      else
        assert xs[..r + 1] == [xs[0]] + xs[1..][..r];
        r + 1
  }

  /** `toggleNode`: the first occurrence of `p` spliced out, or `p`
      pushed at the end. */
  function Toggle(xs: seq<string>, p: string): (r: seq<string>)
    ensures p in xs ==> multiset(r) == multiset(xs) - multiset{p}
    ensures p !in xs ==> r == xs + [p]
  {
    var i := IndexOf(xs, p);
    if i > -1 then
      assert xs == xs[..i] + [p] + xs[i + 1..];
      xs[..i] + xs[i + 1..]
    else xs + [p]
  }

  /** Toggling changes the count of `p` by one and no other count, and
      toggling twice restores membership; a path listed at most once is
      back to its count. */
  lemma ToggleTwice(xs: seq<string>, p: string, q: string)
    ensures q != p ==> multiset(Toggle(xs, p))[q] == multiset(xs)[q]
    ensures (p in Toggle(xs, p)) <==> (multiset(xs)[p] != 1)
    ensures multiset(xs)[p] <= 1 ==>
      multiset(Toggle(Toggle(xs, p), p))[p] == multiset(xs)[p] &&
      (p in Toggle(Toggle(xs, p), p) <==> p in xs)
  {
    var once := Toggle(xs, p);
    if p in xs {
      assert multiset(once)[p] == multiset(xs)[p] - 1;
    } else {
      assert multiset(once)[p] == 1;
    }
  }

  /** `if (!xs.includes(p)) xs.push(p)`. */
  function AppendIfAbsent(xs: seq<string>, p: string): (r: seq<string>)
    ensures p in r
    ensures multiset(r)[p] == if p in xs then multiset(xs)[p] else 1
    ensures forall q :: q != p ==> multiset(r)[q] == multiset(xs)[q]
    ensures |r| >= |xs| && r[..|xs|] == xs
  {
    if p in xs then xs else xs + [p]
  }

  /** `xs.filter(x => !x.startsWith(root))`. */
  function KeepOutside(xs: seq<string>, root: string): seq<string> {
    if xs == [] then []
    else (if StartsWith(xs[0], root) then [] else [xs[0]]) + KeepOutside(xs[1..], root)
  }

  /** The filter drops every path under `root` and keeps every other one as
      often as it was listed. */
  lemma {:induction false} KeepOutsideCount(xs: seq<string>, root: string, q: string)
    ensures multiset(KeepOutside(xs, root))[q] == if StartsWith(q, root) then 0 else multiset(xs)[q]
  {
    if xs != [] {
      assert xs == [xs[0]] + xs[1..];
      KeepOutsideCount(xs[1..], root, q);
    }
  }

  /** The filter keeps the order of what it keeps. */
  lemma {:induction false} KeepOutsideAppend(a: seq<string>, b: seq<string>, root: string)
    ensures KeepOutside(a + b, root) == KeepOutside(a, root) + KeepOutside(b, root)
  {
    if a == [] {
      assert a + b == b;
    } else {
      assert (a + b)[0] == a[0];
      assert (a + b)[1..] == a[1..] + b;
      KeepOutsideAppend(a[1..], b, root);
    }
  }

  /** Closing by prefix removes every path of a collection's current
      tree, as closing by tree snapshot does. */
  lemma KeepOutsideDropsTree(fs: Backend.FileSystem, c: Collection, xs: seq<string>, p: string)
    requires Backend.Mirrors(fs, c.tree) && c.tree.entry.path == c.path
    requires p in TreePaths(c.tree)
    ensures p !in KeepOutside(xs, c.path)
  {
    TreePathUnderRoot(fs, c.tree, p);
    KeepOutsideCount(xs, c.path, p);
  }

  /** Every path of a mirrored tree starts with the path of its root. */
  lemma TreePathUnderRoot(fs: Backend.FileSystem, t: DirectoryTree, p: string)
    requires Backend.Mirrors(fs, t) && p in TreePaths(t)
    ensures StartsWith(p, t.entry.path)
  {
    TreePathsOfAllNodes(t, p);
    var n :| n in GetAllNodes(t) && n.entry.path == p;
    MirroredNodesBelowRoot(fs, t, n);
    if p != t.entry.path {
      assert p[..|t.entry.path|] == (t.entry.path + "/")[..|t.entry.path|];
    }
  }

  /** What auto-expanding the roots of `loaded` makes of `xs`: what was
      listed stays in front unchanged, then each root not yet listed is
      pushed once; the order of the pushed roots is not stated. */
  ghost predicate Expanded(xs: seq<string>, loaded: seq<Collection>, ys: seq<string>) {
    && |ys| >= |xs| && ys[..|xs|] == xs
    && (forall q :: q in ys <==> q in xs || exists i :: 0 <= i < |loaded| && loaded[i].path == q)
    && (forall i, j :: |xs| <= i < j < |ys| ==> ys[i] != ys[j])
    && (forall i :: |xs| <= i < |ys| ==> ys[i] !in xs)
  }

  /** The loop that auto-expands loaded roots. */
  method ExpandRoots(xs: seq<string>, loaded: seq<Collection>) returns (ys: seq<string>)
    ensures Expanded(xs, loaded, ys)
  {
    ys := xs;
    var k := 0;
    while k < |loaded|
      invariant 0 <= k <= |loaded|
      invariant |ys| >= |xs| && ys[..|xs|] == xs
      invariant forall q :: q in ys <==> q in xs || exists i :: 0 <= i < k && loaded[i].path == q
      invariant forall i, j :: |xs| <= i < j < |ys| ==> ys[i] != ys[j]
      invariant forall i :: |xs| <= i < |ys| ==> ys[i] !in xs
    {
      var root := loaded[k].path;
      if root !in ys {
        assert forall i :: |xs| <= i < |ys| ==> ys[i] != root;
        ys := ys + [root];
      }
      k := k + 1;
    }
  }

  /* ---------------- loading and refreshing collections ---------------- */

  /** The stored collections whose root can be loaded, in order. */
  ghost function Loadable(fs: Backend.FileSystem, stored: seq<Collection>): seq<Collection> {
    if stored == [] then []
    else (if Backend.Loadable(fs, stored[0].path) then [stored[0]] else []) + Loadable(fs, stored[1..])
  }

  /** The names of the stored collections whose root cannot be loaded. */
  ghost function Unloadable(fs: Backend.FileSystem, stored: seq<Collection>): seq<string> {
    if stored == [] then []
    else (if Backend.Loadable(fs, stored[0].path) then [] else [stored[0].name]) + Unloadable(fs, stored[1..])
  }

  lemma {:induction false} LoadableSnoc(fs: Backend.FileSystem, s: seq<Collection>, c: Collection)
    ensures Loadable(fs, s + [c]) == Loadable(fs, s) + (if Backend.Loadable(fs, c.path) then [c] else [])
  {
    if s == [] {
      assert s + [c] == [c];
    } else {
      assert (s + [c])[0] == s[0];
      assert (s + [c])[1..] == s[1..] + [c];
      LoadableSnoc(fs, s[1..], c);
    }
  }

  lemma {:induction false} UnloadableSnoc(fs: Backend.FileSystem, s: seq<Collection>, c: Collection)
    ensures Unloadable(fs, s + [c]) == Unloadable(fs, s) + (if Backend.Loadable(fs, c.path) then [] else [c.name])
  {
    if s == [] {
      assert s + [c] == [c];
    } else {
      assert (s + [c])[0] == s[0];
      assert (s + [c])[1..] == s[1..] + [c];
      UnloadableSnoc(fs, s[1..], c);
    }
  }

  /** `c` with a tree read from the filesystem at its own path. */
  ghost predicate Reloaded(fs: Backend.FileSystem, c: Collection, before: Collection) {
    c == before.(tree := c.tree) && c.tree.entry.path == c.path && Backend.Mirrors(fs, c.tree)
  }

  /** The startup loop: every stored collection is loaded again from its
      path; those that load keep id, name and path with the new tree, the
      names of the others are collected, both in the stored order. */
  method PartitionStored(fs: Backend.FileSystem, stored: seq<Collection>)
    returns (loaded: seq<Collection>, invalid: seq<string>)
    ensures |loaded| == |Loadable(fs, stored)|
    ensures forall i :: 0 <= i < |loaded| ==> Reloaded(fs, loaded[i], Loadable(fs, stored)[i])
    ensures invalid == Unloadable(fs, stored)
  {
    loaded, invalid := [], [];
    var k := 0;
    while k < |stored|
      invariant 0 <= k <= |stored|
      invariant |loaded| == |Loadable(fs, stored[..k])|
      invariant forall i :: 0 <= i < |loaded| ==> Reloaded(fs, loaded[i], Loadable(fs, stored[..k])[i])
      invariant invalid == Unloadable(fs, stored[..k])
    {
      var c := stored[k];
      assert stored[..k + 1] == stored[..k] + [c];
      LoadableSnoc(fs, stored[..k], c);
      UnloadableSnoc(fs, stored[..k], c);
      var tree := Backend.GetDirectoryTree(fs, c.path);
      if tree.Success? {
        loaded := loaded + [c.(tree := tree.value)];
      } else {
        invalid := invalid + [c.name];
      }
      k := k + 1;
    }
    assert stored[..k] == stored;
  }

  /** The first collection with this id exists and its path can be read
      again. */
  predicate Refreshable(fs: Backend.FileSystem, cs: seq<Collection>, id: string) {
    var c := CollectionById(cs, id);
    c.Some? && Backend.Loadable(fs, c.value.path)
  }

  /** `r` is `cs` with every collection of this id given a tree read again
      from the path of the first of them, and nothing else changed. */
  ghost predicate RefreshedOnly(fs: Backend.FileSystem, cs: seq<Collection>, id: string, r: seq<Collection>)
    requires CollectionById(cs, id).Some?
  {
    && |r| == |cs|
    && forall i :: 0 <= i < |cs| ==>
         if cs[i].id == id then
           r[i] == cs[i].(tree := r[i].tree) && Backend.Mirrors(fs, r[i].tree)
           && r[i].tree.entry.path == CollectionById(cs, id).value.path
         else r[i] == cs[i]
  }

  /** `cs.map(c => c.id === id ? { ...c, tree } : c)`. */
  function WithTree(cs: seq<Collection>, id: string, tree: DirectoryTree): (r: seq<Collection>)
    ensures |r| == |cs|
    ensures forall i :: 0 <= i < |cs| ==> r[i] == if cs[i].id == id then cs[i].(tree := tree) else cs[i]
  {
    seq(|cs|, i requires 0 <= i < |cs| => if cs[i].id == id then cs[i].(tree := tree) else cs[i])
  }

  /** `refreshCollection(id)` on the list `cs`: the first collection with
      that id is read again from its path; on success the list with every
      collection of that id given the new tree, None when there is no such
      collection or its path cannot be read (the error is only logged). */
  method RefreshTree(fs: Backend.FileSystem, cs: seq<Collection>, id: string)
    returns (r: Option<seq<Collection>>)
    ensures r.Some? <==> Refreshable(fs, cs, id)
    ensures r.Some? ==> RefreshedOnly(fs, cs, id, r.value)
  {
    var c := CollectionById(cs, id);
    if c.None? {
      return None;
    }
    var tree := Backend.GetDirectoryTree(fs, c.value.path);
    if tree.Failure? {
      return None;
    }
    r := Some(WithTree(cs, id, tree.value));
  }

  /** The position of the last of the first `n` elements satisfying `p`,
      or -1. */
  function LastWhere<T>(s: seq<T>, p: T -> bool, n: nat): (r: int)
    requires n <= |s|
    ensures -1 <= r < n
    ensures r >= 0 ==> p(s[r])
  {
    if n == 0 then -1
    else if p(s[n - 1]) then n - 1
    else LastWhere(s, p, n - 1)
  }

  /** Nothing between the position LastWhere finds and `n` satisfies `p`. */
  lemma {:induction false} NoneAfterLast<T>(s: seq<T>, p: T -> bool, n: nat, j: int)
    requires n <= |s| && LastWhere(s, p, n) < j < n
    ensures !p(s[j])
  {
    if j < n - 1 && !p(s[n - 1]) {
      NoneAfterLast(s, p, n - 1, j);
    }
  }

  /** The last of the first `n` collections whose refresh succeeds, or -1. */
  function LastRefreshable(fs: Backend.FileSystem, cs: seq<Collection>, n: nat): (r: int)
    requires n <= |cs|
    ensures -1 <= r < n
    ensures r >= 0 ==> Refreshable(fs, cs, cs[r].id)
  {
    LastWhere(cs, (c: Collection) => Refreshable(fs, cs, c.id), n)
  }

  /** No collection after the one LastRefreshable finds can be refreshed. */
  lemma NoneRefreshableAfter(fs: Backend.FileSystem, cs: seq<Collection>, n: nat, j: int)
    requires n <= |cs| && LastRefreshable(fs, cs, n) < j < n
    ensures !Refreshable(fs, cs, cs[j].id)
  {
    NoneAfterLast(cs, (c: Collection) => Refreshable(fs, cs, c.id), n, j);
  }

  /* ---------------- storage-call sequences ---------------- */

  /** The error dialogs of the tree views, by title. */
  datatype Notice =
    | LoadFailed                      // "Failed to load collection"
    | SomeNotLoaded(names: seq<string>) // "Some collections could not be loaded"
    | NameConflict                    // "Name conflict"
    | RenameFailed                    // "Failed to rename"
    | CreateFailed                    // "Failed to Create"
    | DeleteFailed                    // "Failed to Delete"

  /** The open close-collection dialog. */
  datatype CloseRequest = CloseRequest(collectionId: string, collectionName: string)

  /** The open create dialog. */
  datatype CreateRequest = CreateRequest(parentPath: string, isDir: bool)

  datatype Outcome =
    | Cancelled      // nothing to do: the edit or the dialog is closed
    | Conflict       // "Name conflict": a sibling of that name exists
    | NotFound       // the path is in no tree
    | NeedsConfirm   // a node with children: only a confirmation is requested
    | Failed         // a storage call failed: "Failed to ..."
    | Done

  /** The storage calls of a rename: make the new entry, then remove the
      old one; a file's new content is empty. */
  function RenameCalls(oldPath: string, isDir: bool, newPath: string): seq<Backend.StorageCall> {
    if isDir then [Backend.MakeDirectory(newPath), Backend.RemoveTree(oldPath)]
    else [Backend.WriteFile(newPath, Backend.RawText("")), Backend.RemoveFile(oldPath)]
  }

  /** What the first call of a rename does to the filesystem. */
  function RenameFirst(fs: Backend.FileSystem, refused: set<string>, isDir: bool, newPath: string, now: int)
    : Option<Backend.FileSystem>
  {
    if isDir then Backend.MkdirResult(fs, refused, newPath, now)
    else Backend.WriteResult(fs, refused, newPath, Backend.RawText(""), now)
  }

  /** What the second call of a rename does to the filesystem. */
  function RenameSecond(fs: Backend.FileSystem, refused: set<string>, isDir: bool, oldPath: string)
    : Option<Backend.FileSystem>
  {
    if isDir then Backend.RemoveAllResult(fs, refused, oldPath)
    else Backend.RemoveResult(fs, refused, oldPath)
  }

  /** The two storage calls of a rename, the second only after the first
      succeeded; true when both succeeded. */
  method RunRename(app: Backend.App, oldPath: string, isDir: bool, newPath: string, now: int)
    returns (ok: bool)
    modifies app
    ensures app.refused == old(app.refused)
    ensures var calls := RenameCalls(oldPath, isDir, newPath);
      var first := RenameFirst(old(app.fs), app.refused, isDir, newPath, now);
      if first.None? then
        !ok && app.calls == old(app.calls) + calls[..1] && app.fs == old(app.fs)
      else
        var second := RenameSecond(first.value, app.refused, isDir, oldPath);
        && app.calls == old(app.calls) + calls
        && ok == second.Some?
        && app.fs == if ok then second.value else first.value
  {
    if isDir {
      ok := app.CreateDirectory(newPath, now);
      if ok { ok := app.DeleteDirectory(oldPath); }
    } else {
      ok := app.CreateFile(newPath, Backend.RawText(""), now);
      if ok { ok := app.DeleteFile(oldPath); }
    }
  }

  /** `saveEdit(oldPath, isDir)` up to its storage calls: a cancelled edit
      or a name conflict calls nothing, otherwise RunRename runs. */
  twostate predicate RenameEffect(app: Backend.App, cs: seq<Collection>, oldPath: string, isDir: bool,
                                  editingValue: string, now: int, outcome: Outcome)
    reads app
  {
    && (app.refused == old(app.refused))
    && (outcome in {Cancelled, Conflict, Failed, Done})
    && (var plan := PlanRename(oldPath, isDir, editingValue);
        && (outcome == Cancelled <==> plan.None?)
        && (outcome == Conflict <==>
              plan.Some? && HasChildNamed(RenameParent(cs, plan.value.directory), plan.value.newName))
        && (outcome in {Cancelled, Conflict} ==> app.calls == old(app.calls) && app.fs == old(app.fs))
        && (outcome in {Failed, Done} ==>
              var calls := RenameCalls(oldPath, isDir, plan.value.newPath);
              var first := RenameFirst(old(app.fs), app.refused, isDir, plan.value.newPath, now);
              if first.None? then
                outcome == Failed && app.calls == old(app.calls) + calls[..1] && app.fs == old(app.fs)
              else
                var second := RenameSecond(first.value, app.refused, isDir, oldPath);
                && app.calls == old(app.calls) + calls
                && (outcome == Done <==> second.Some?)
                && app.fs == if second.Some? then second.value else first.value))
  }

  /** The rename handler's storage part. */
  method Rename(app: Backend.App, cs: seq<Collection>, oldPath: string, isDir: bool,
                editingValue: string, now: int)
    returns (outcome: Outcome)
    modifies app
    ensures RenameEffect(app, cs, oldPath, isDir, editingValue, now, outcome)
  {
    var plan := PlanRename(oldPath, isDir, editingValue);
    if plan.None? {
      return Cancelled;
    }
    var target := plan.value;
    if HasChildNamed(RenameParent(cs, target.directory), target.newName) {
      return Conflict;
    }
    var ok := RunRename(app, oldPath, isDir, target.newPath, now);
    outcome := if ok then Done else Failed;
  }

  /** What the single call of a create does to the filesystem. */
  function CreateResult(fs: Backend.FileSystem, refused: set<string>, isDir: bool, plan: CreatePlan, now: int)
    : Option<Backend.FileSystem>
  {
    if isDir then Backend.MkdirResult(fs, refused, plan.newPath, now)
    else Backend.WriteResult(fs, refused, plan.newPath, Backend.RequestFile(NewRequestDocument(plan.baseName, now)), now)
  }

  /** `confirmCreateNew` up to its storage call: nothing for a blank name
      or a name conflict with the parent node found in the trees (no
      parent node, no conflict); otherwise one call, which makes the
      directory or writes a new GET request with empty url, body, headers
      and query. */
  twostate predicate CreateEffect(app: Backend.App, cs: seq<Collection>, parentPath: string, isDir: bool,
                                  createName: string, now: int, outcome: Outcome)
    reads app
  {
    && (app.refused == old(app.refused))
    && (outcome in {Cancelled, Conflict, Failed, Done})
    && (var plan := PlanCreate(parentPath, isDir, createName);
        && (outcome == Cancelled <==> plan.None?)
        && (outcome == Conflict <==> plan.Some? && HasChildNamed(NodeAt(cs, parentPath), plan.value.fullName))
        && (outcome in {Cancelled, Conflict} ==> app.calls == old(app.calls) && app.fs == old(app.fs))
        && (outcome in {Failed, Done} ==>
              var r := CreateResult(old(app.fs), app.refused, isDir, plan.value, now);
              && app.calls == old(app.calls) +
                   [if isDir then Backend.MakeDirectory(plan.value.newPath)
                    else Backend.WriteFile(plan.value.newPath,
                           Backend.RequestFile(NewRequestDocument(plan.value.baseName, now)))]
              && (outcome == Done <==> r.Some?)
              && app.fs == if r.Some? then r.value else old(app.fs)))
  }

  /** The create handler's storage part. */
  method Create(app: Backend.App, cs: seq<Collection>, parentPath: string, isDir: bool,
                createName: string, now: int)
    returns (outcome: Outcome)
    modifies app
    ensures CreateEffect(app, cs, parentPath, isDir, createName, now, outcome)
  {
    var plan := PlanCreate(parentPath, isDir, createName);
    if plan.None? {
      return Cancelled;
    }
    var target := plan.value;
    if HasChildNamed(NodeAt(cs, parentPath), target.fullName) {
      return Conflict;
    }
    var ok: bool;
    if isDir {
      ok := app.CreateDirectory(target.newPath, now);
    } else {
      ok := app.CreateFile(target.newPath, Backend.RequestFile(NewRequestDocument(target.baseName, now)), now);
    }
    outcome := if ok then Done else Failed;
  }

  /** `deleteNode(path)` up to its storage call: a path in no tree is left
      alone, a node with children only asks for confirmation, anything
      else is removed at once, a directory with DeleteDirectory and a file
      with DeleteFile. */
  twostate predicate DeleteEffect(app: Backend.App, cs: seq<Collection>, path: string, outcome: Outcome)
    reads app
  {
    && (app.refused == old(app.refused))
    && (outcome in {NotFound, NeedsConfirm, Failed, Done})
    && (var node := NodeAt(cs, path);
        && (outcome == NotFound <==> node.None?)
        && (outcome == NeedsConfirm <==> node.Some? && node.value.children != [])
        && (outcome in {NotFound, NeedsConfirm} ==> app.calls == old(app.calls) && app.fs == old(app.fs))
        && (outcome in {Failed, Done} ==>
              var isDir := node.value.entry.isDir;
              var r := if isDir then Backend.RemoveAllResult(old(app.fs), app.refused, path)
                       else Backend.RemoveResult(old(app.fs), app.refused, path);
              && app.calls == old(app.calls) + [if isDir then Backend.RemoveTree(path) else Backend.RemoveFile(path)]
              && (outcome == Done <==> r.Some?)
              && app.fs == if r.Some? then r.value else old(app.fs)))
  }

  /** The delete handler's storage part. */
  method Delete(app: Backend.App, cs: seq<Collection>, path: string) returns (outcome: Outcome)
    modifies app
    ensures DeleteEffect(app, cs, path, outcome)
  {
    var node := NodeAt(cs, path);
    if node.None? {
      return NotFound;
    }
    if node.value.children != [] {
      return NeedsConfirm;
    }
    var ok: bool;
    if node.value.entry.isDir {
      ok := app.DeleteDirectory(path);
    } else {
      ok := app.DeleteFile(path);
    }
    outcome := if ok then Done else Failed;
  }
}
