/** The workspace store (`frontend/src/stores/store.ts`): one mutable
    record of five fields, each setter overwriting exactly one of them.
    The consumers of the store use other names for the current-file field
    and its setters (`currentFilePath`, `setCurrentFile`,
    `resetCurrentFile`); this model has the single field `currentFile`,
    which they all stand for. Persistence to local storage is not modelled. */
module Store {
  import opened Types

  /** `collections.filter(c => c.id !== id)`. */
  function WithoutId(cs: seq<Collection>, id: string): seq<Collection> {
    if cs == [] then []
    else (if cs[0].id == id then [] else [cs[0]]) + WithoutId(cs[1..], id)
  }

  /** The filter keeps exactly the collections with another id. */
  lemma {:induction false} WithoutIdMembers(cs: seq<Collection>, id: string)
    ensures forall c :: c in WithoutId(cs, id) <==> c in cs && c.id != id
  {
    if cs != [] {
      WithoutIdMembers(cs[1..], id);
      assert cs == [cs[0]] + cs[1..];
    }
  }

  /** The filter keeps the order of what it keeps. */
  lemma {:induction false} WithoutIdAppend(a: seq<Collection>, b: seq<Collection>, id: string)
    ensures WithoutId(a + b, id) == WithoutId(a, id) + WithoutId(b, id)
  {
    if a == [] {
      assert a + b == b;
    } else {
      assert (a + b)[0] == a[0];
      assert (a + b)[1..] == a[1..] + b;
      WithoutIdAppend(a[1..], b, id);
    }
  }

  /** Removing an id no collection has changes nothing. */
  lemma {:induction false} WithoutAbsentId(cs: seq<Collection>, id: string)
    requires forall i :: 0 <= i < |cs| ==> cs[i].id != id
    ensures WithoutId(cs, id) == cs
  {
    if cs != [] {
      WithoutAbsentId(cs[1..], id);
      assert cs == [cs[0]] + cs[1..];
    }
  }

  /** Removing right after adding removes the added collection again, and
      every earlier one with its id. */
  lemma AddThenRemove(cs: seq<Collection>, c: Collection)
    ensures WithoutId(cs + [c], c.id) == WithoutId(cs, c.id)
  {
    WithoutIdAppend(cs, [c], c.id);
    assert WithoutId([c], c.id) == [] + WithoutId([], c.id);
  }

  /** The five fields of the store as one value. */
  datatype StoreState = StoreState(
    collections: seq<Collection>, expandedNodes: seq<string>,
    selectedCollection: string, currentFile: string, autoSave: bool)

  class WorkspaceStore {
    var collections: seq<Collection>
    var expandedNodes: seq<string>
    var selectedCollection: string
    var currentFile: string
    var autoSave: bool

    function State(): StoreState
      reads this
    {
      StoreState(collections, expandedNodes, selectedCollection, currentFile, autoSave)
    }

    /** The initial state: nothing open, nothing selected, autosave on. */
    constructor ()
      ensures State() == StoreState([], [], "", "", true)
    {
      collections := [];
      expandedNodes := [];
      selectedCollection := "";
      currentFile := "";
      autoSave := true;
    }

    method SetCollections(cs: seq<Collection>)
      modifies this
      ensures State() == old(State()).(collections := cs)
    {
      collections := cs;
    }

    /** Appends at the end; the collections already open keep their order. */
    method AddCollection(c: Collection)
      modifies this
      ensures State() == old(State()).(collections := old(collections) + [c])
    {
      collections := collections + [c];
    }

    /** Removes every collection with the id of `c`, whatever its other
        fields, and keeps the rest in order. */
    method RemoveCollection(c: Collection)
      modifies this
      ensures State() == old(State()).(collections := WithoutId(old(collections), c.id))
      ensures forall d :: d in collections <==> d in old(collections) && d.id != c.id
    {
      WithoutIdMembers(collections, c.id);
      collections := WithoutId(collections, c.id);
    }

    method SetSelectedCollection(id: string)
      modifies this
      ensures State() == old(State()).(selectedCollection := id)
    {
      selectedCollection := id;
    }

    method ResetSelectedCollection()
      modifies this
      ensures State() == old(State()).(selectedCollection := "")
    {
      selectedCollection := "";
    }

    /** `setCurrentFilePath` (called `setCurrentFile` by the tree view). */
    method SetCurrentFile(path: string)
      modifies this
      ensures State() == old(State()).(currentFile := path)
    {
      currentFile := path;
    }

    /** `resetCurrentFilePath` (called `resetCurrentFile` by the tree view). */
    method ResetCurrentFile()
      modifies this
      ensures State() == old(State()).(currentFile := "")
    {
      currentFile := "";
    }

    method SetExpandedNodes(nodes: seq<string>)
      modifies this
      ensures State() == old(State()).(expandedNodes := nodes)
    {
      expandedNodes := nodes;
    }

    method ResetExpandedNodes()
      modifies this
      ensures State() == old(State()).(expandedNodes := [])
    {
      expandedNodes := [];
    }

    method SetAutoSave(on: bool)
      modifies this
      ensures State() == old(State()).(autoSave := on)
    {
      autoSave := on;
    }
  }
}
