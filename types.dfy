/** The values the workspace passes around: the Go backend's structs as the
    generated TypeScript bindings see them, and the frontend's own types.
    Timestamps are integers, 0 standing for Go's zero `time.Time`. */
module Types {
  import opened Wrappers

  /** One file or directory as `os.Stat` describes it. */
  datatype FileSystemEntry = FileSystemEntry(
    name: string, path: string, isDir: bool, size: int, modified: int)

  /** A snapshot of one directory. The Go field is `omitempty`, so an absent
      `children` and an empty one are the same value here: a file and an
      empty directory both have no children. */
  datatype DirectoryTree = DirectoryTree(entry: FileSystemEntry, children: seq<DirectoryTree>)

  /** One editable header or query-parameter row. */
  datatype KeyValue = KeyValue(key: string, value: string)

  /** The body types the editor offers: "json", "text", "none", "xml",
      "sparql". */
  datatype BodyType = BodyJson | BodyText | BodyNone | BodyXml | BodySparql

  /** An open folder, with the tree last read from it. */
  datatype Collection = Collection(id: string, name: string, path: string, tree: DirectoryTree)

  datatype HttpCookie = HttpCookie(
    name: string, value: string, domain: string, path: string,
    expires: int, secure: bool, httpOnly: bool)

  /** The response of the execution engine; its header names may repeat, so
      each maps to a list of values. */
  datatype HttpResponse = HttpResponse(
    statusCode: int, status: string, headers: map<string, seq<string>>,
    cookies: seq<HttpCookie>, body: string, size: int, duration: int)

  /** A JavaScript value that may also be `undefined` (a missing field) or
      `null`; `JSON.stringify` tells all three apart. */
  datatype JsValue<+T> = Undefined | Null | Value(v: T)

  /** A request document as the frontend sees it (the generated TypeScript
      class). Its `headers` and `query` are objects of strings, that is maps
      from key to value. `bodyType` is `None` when the document carries none
      (`undefined`). */
  datatype PostierRequest = PostierRequest(
    name: string, description: string, httpMethod: string, url: string,
    headers: map<string, string>, body: string, bodyType: Option<BodyType>,
    query: map<string, string>, response: JsValue<HttpResponse>,
    createdAt: int, updatedAt: int)

  /** The Go struct the backend persists: it has no `bodyType` and no
      `response` field. */
  datatype StoredRequest = StoredRequest(
    name: string, description: string, httpMethod: string, url: string,
    headers: map<string, string>, body: string, query: map<string, string>,
    createdAt: int, updatedAt: int)

  /** The frontend document handed to the backend: the fields the Go struct
      lacks are dropped on the way in. */
  function ToStored(r: PostierRequest): StoredRequest {
    StoredRequest(r.name, r.description, r.httpMethod, r.url, r.headers, r.body,
                  r.query, r.createdAt, r.updatedAt)
  }

  /** The Go struct as the frontend receives it back: the body type and the
      response are missing, hence `undefined`. */
  function FromStored(s: StoredRequest): PostierRequest {
    PostierRequest(s.name, s.description, s.httpMethod, s.url, s.headers, s.body,
                   None, s.query, Undefined, s.createdAt, s.updatedAt)
  }

  /** A round trip through the backend loses exactly the body type and the
      response, and nothing else. */
  lemma PersistDropsBodyTypeAndResponse(r: PostierRequest)
    ensures FromStored(ToStored(r)) == r.(bodyType := None, response := Undefined)
    ensures FromStored(ToStored(r)) == r <==> r.bodyType == None && r.response == Undefined
    ensures ToStored(FromStored(ToStored(r))) == ToStored(r)
  {
  }
}
