/** The request editor (`HttpClient.tsx`) as a state machine: the request
    fields it edits, the `isSaved` flag, and the dialogs and alerts its
    handlers open. It reads and writes the workspace store and calls the
    backend; the network call itself is a parameter of SendRequest. */
module HttpClient {
  import opened Wrappers
  import opened Text
  import opened Types
  import opened RequestDoc
  import Store
  import Backend
  import TreeOps

  /** The request stored at a path, when the path holds a request file. */
  function StoredAt(fs: Backend.FileSystem, path: string): Option<StoredRequest> {
    if path in fs && fs[path].FileNode? && fs[path].content.RequestFile? then Some(fs[path].content.doc)
    else None
  }

  /** `rows.filter((_, i) => i !== index)`. */
  function RemoveAt(rows: seq<KeyValue>, index: int): (r: seq<KeyValue>)
    ensures 0 <= index < |rows| ==> |r| == |rows| - 1 && multiset(r) == multiset(rows) - multiset{rows[index]}
    ensures !(0 <= index < |rows|) ==> r == rows
    ensures forall j :: 0 <= j < |r| ==> r[j] == rows[if 0 <= index <= j then j + 1 else j]
  {
    if 0 <= index < |rows| then
      assert rows == rows[..index] + [rows[index]] + rows[index + 1..];
      rows[..index] + rows[index + 1..]
    else rows
  }

  /** Removing the row just added gives the list back. */
  lemma RemoveAddedRow(rows: seq<KeyValue>, row: KeyValue)
    ensures RemoveAt(rows + [row], |rows|) == rows
  {
  }

  /** The editor shows the document as loading leaves it: its method,
      URL and body, its header and query entries each once in the order
      `Object.entries` gives them (KeysInEntryOrder), no body type and no
      response. */
  ghost predicate Shows(e: Editor, doc: StoredRequest) {
    && e.httpMethod == doc.httpMethod && e.url == doc.url && e.body == doc.body
    && PairsMatch(doc.headers, e.headers) && PairsMatch(doc.query, e.queryParams)
    && KeysInEntryOrder(e.headers) && KeysInEntryOrder(e.queryParams)
    && e.bodyType == None && e.response == None
  }

  /** The editor fields `loadRequestFromFile` sets from a document read
      back from the backend. The body-type fallback compares the value with
      itself and is never taken, so the missing body type stays missing;
      `if (request.response)` never holds for such a document. */
  method Loaded(stored: StoredRequest) returns (e: Editor)
    ensures Shows(e, stored)
  {
    var doc := FromStored(stored);
    var hs := Entries(doc.headers);
    var qs := Entries(doc.query);
    e := Editor(doc.httpMethod, doc.url, hs, qs, doc.body, doc.bodyType, None);
  }

  /** Which part of a row an edit changes. */
  datatype Part = KeyPart | ValuePart

  /** The row at `index` with one part replaced. */
  function UpdateAt(rows: seq<KeyValue>, index: int, part: Part, text: string): (r: seq<KeyValue>)
    requires 0 <= index < |rows|
    ensures |r| == |rows| && forall j :: 0 <= j < |r| && j != index ==> r[j] == rows[j]
    ensures r[index] == if part == KeyPart then rows[index].(key := text) else rows[index].(value := text)
  {
    rows[index := if part == KeyPart then rows[index].(key := text) else rows[index].(value := text)]
  }

  /* ---------------- how a response is shown ---------------- */

  /** A response header name that `generateResponseContent` takes for the
      content type: lower-cased, it contains "content-type". */
  predicate IsContentTypeName(k: string) {
    Contains(ToLower(k), "content-type")
  }

  /** `k` is the first such header in `Object.entries` order. */
  ghost predicate FirstContentType(headers: map<string, seq<string>>, k: string) {
    && k in headers && IsContentTypeName(k)
    && forall j :: j in headers && IsContentTypeName(j) && j != k ==> PropertyBefore(k, j)
  }

  /** There is at most one first content-type header. */
  lemma FirstContentTypeUnique(headers: map<string, seq<string>>, a: string, b: string)
    requires FirstContentType(headers, a) && FirstContentType(headers, b)
    ensures a == b
  {
    if a != b {
      PropertyBeforeTransitive(a, b, a);
      PropertyBeforeIrreflexive(a);
    }
  }

  /** `generateResponseContent` pretty-prints the body through `JSON.parse`
      exactly when the body is not empty and the first content-type
      header lists "application/json" as one of its values. */
  ghost predicate RendersAsJson(r: HttpResponse) {
    r.body != "" && exists k :: FirstContentType(r.headers, k) && "application/json" in r.headers[k]
  }

  /** `Object.entries(headers).filter(...)[0]`: the first content-type
      header, if any. */
  method FirstContentTypeKey(headers: map<string, seq<string>>) returns (r: Option<string>)
    ensures r.None? <==> forall k :: k in headers ==> !IsContentTypeName(k)
    ensures r.Some? ==> FirstContentType(headers, r.value)
  {
    r := None;
    var rest := headers.Keys;
    while rest != {}
      invariant rest <= headers.Keys
      invariant r.None? ==> forall k :: k in headers.Keys - rest ==> !IsContentTypeName(k)
      invariant r.Some? ==> r.value in headers.Keys - rest && IsContentTypeName(r.value)
      invariant r.Some? ==> forall j :: j in headers.Keys - rest && IsContentTypeName(j) && j != r.value ==>
        PropertyBefore(r.value, j)
      decreases rest
    {
      var k :| k in rest;
      if IsContentTypeName(k) {
        if r.None? {
          r := Some(k);
        } else if PropertyBefore(k, r.value) {
          forall j | j in headers.Keys - rest && IsContentTypeName(j) && j != r.value
            ensures PropertyBefore(k, j)
          {
            PropertyBeforeTransitive(k, r.value, j);
          }
          r := Some(k);
        } else {
          PropertyBeforeTotal(k, r.value);
        }
      }
      rest := rest - {k};
    }
  }

  /** Whether showing the response runs `JSON.parse` on its body. */
  method ParsesForDisplay(r: HttpResponse) returns (b: bool)
    ensures b <==> RendersAsJson(r)
  {
    if r.body == "" {
      return false;
    }
    var k := FirstContentTypeKey(r.headers);
    b := k.Some? && "application/json" in r.headers[k.value];
    if !b && RendersAsJson(r) {
      var j :| FirstContentType(r.headers, j) && "application/json" in r.headers[j];
      FirstContentTypeUnique(r.headers, j, k.value);
    }
  }

  /** Every header name with `Content-Type` in it counts as a content-type
      header (`X-Content-Type-Options` too), whatever surrounds it. */
  lemma ContentTypeNames(prefix: string, suffix: string)
    ensures IsContentTypeName(prefix + "Content-Type" + suffix)
  {
    ContainsLowered(prefix, "Content-Type", suffix);
    LowerContentType();
  }

  /** A JSON content type with a non-empty body, an HTML page say, is
      parsed (and the parse throws); a `text/html` one, or an empty body,
      is not. */
  lemma JsonRenderOfHtml(body: string)
    requires body != ""
    ensures RendersAsJson(HttpResponse(200, "200 OK", map["Content-Type" := ["application/json"]], [], body, 0, 0))
    ensures !RendersAsJson(HttpResponse(200, "200 OK", map["Content-Type" := ["text/html"]], [], body, 0, 0))
    ensures !RendersAsJson(HttpResponse(200, "200 OK", map["Content-Type" := ["application/json"]], [], "", 0, 0))
  {
    ContentTypeNames("", "");
    assert "" + "Content-Type" + "" == "Content-Type";
    var h := map["Content-Type" := ["application/json"]];
    assert FirstContentType(h, "Content-Type");
    var t := map["Content-Type" := ["text/html"]];
    forall k | FirstContentType(t, k) ensures "application/json" !in t[k] {
      assert k == "Content-Type";
    }
  }

  /** The dialogs and alerts the editor's handlers open or close. */
  datatype Dialogs = Dialogs(
    filename: string, saveAsOpen: bool, noCollectionOpen: bool,
    noCollectionAutoOpen: bool, noFileOpen: bool)

  /** The editor's fields after `clearRequest` and at start. */
  const Cleared := Editor("GET", "", [], [], "", Some(BodyNone), None)

  class RequestController {
    const store: Store.WorkspaceStore
    const app: Backend.App
    var httpMethod: string
    var url: string
    var headers: seq<KeyValue>
    var queryParams: seq<KeyValue>
    var body: string
    var bodyType: Option<BodyType>
    var response: Option<HttpResponse>
    var isSaved: bool
    var dialogs: Dialogs

    function Fields(): Editor
      reads this
    {
      Editor(httpMethod, url, headers, queryParams, body, bodyType, response)
    }

    constructor (store: Store.WorkspaceStore, app: Backend.App)
      ensures this.store == store && this.app == app
      ensures Fields() == Cleared && !isSaved
      ensures dialogs == Dialogs("", false, false, false, false)
    {
      this.store, this.app := store, app;
      httpMethod, url, headers, queryParams, body := "GET", "", [], [], "";
      bodyType, response, isSaved := Some(BodyNone), None, false;
      dialogs := Dialogs("", false, false, false, false);
    }

    /** `loadRequestFromFile(filePath)`: a path that holds no request file
        changes nothing (the error is only logged); otherwise the path
        becomes the current file, the editor shows the document, its header
        and query entries in `Object.entries` order, and is marked saved.
        The document carries no body type, so the fallback to `none` would
        be needed, but it compares the value with itself and is never
        taken: the body type stays `undefined`. Nor does it carry a
        response, so the response is `null`. */
    method LoadRequestFromFile(filePath: string)
      modifies this, store
      ensures dialogs == old(dialogs)
      ensures StoredAt(app.fs, filePath).None? ==>
        Fields() == old(Fields()) && isSaved == old(isSaved) && store.State() == old(store.State())
      ensures StoredAt(app.fs, filePath).Some? ==>
        && store.State() == old(store.State()).(currentFile := filePath)
        && Shows(Fields(), StoredAt(app.fs, filePath).value) && isSaved
    {
      var r := app.LoadPostierRequest(filePath);
      if r.Success? {
        Apply(filePath, r.value);
      }
    }

    /** What loading does once the document is read: the path becomes the
        current file and the editor shows the document, saved. */
    method Apply(filePath: string, stored: StoredRequest)
      modifies this, store
      ensures store.State() == old(store.State()).(currentFile := filePath)
      ensures Shows(Fields(), stored) && isSaved && dialogs == old(dialogs)
    {
      var e := Loaded(stored);
      httpMethod, url, headers, queryParams, body, bodyType, response, isSaved :=
        e.httpMethod, e.url, e.headers, e.queryParams, e.body, e.bodyType, e.response, true;
      store.SetCurrentFile(filePath);
    }

    /** `clearRequest`: no current file, every field back to its default,
        not saved. */
    method ClearRequest()
      modifies this, store
      ensures store.State() == old(store.State()).(currentFile := "")
      ensures Fields() == Cleared && !isSaved
      ensures dialogs == old(dialogs)
    {
      store.ResetCurrentFile();
      httpMethod, url, headers, queryParams, body := "GET", "", [], [], "";
      bodyType, response, isSaved := Some(BodyNone), None, false;
    }

    /** The mount effect: the current file, if any, is loaded. */
    method Mount()
      modifies this, store
      ensures old(store.currentFile) == "" ==>
        Fields() == old(Fields()) && isSaved == old(isSaved) && store.State() == old(store.State())
      ensures old(store.currentFile) != "" ==>
        var doc := StoredAt(app.fs, old(store.currentFile));
        && store.State() == old(store.State())
        && (doc.Some? ==> Shows(Fields(), doc.value) && isSaved)
        && (doc.None? ==> Fields() == old(Fields()) && isSaved == old(isSaved))
      ensures dialogs == old(dialogs)
    {
      if store.currentFile != "" {
        LoadRequestFromFile(store.currentFile);
      }
    }

    /** `openSaveAsDialog`: without a selected collection only the alert
        opens; otherwise the dialog opens with an empty name. */
    method OpenSaveAsDialog()
      modifies this
      ensures Fields() == old(Fields()) && isSaved == old(isSaved)
      ensures dialogs == if store.selectedCollection == "" then old(dialogs).(noCollectionOpen := true)
                        else old(dialogs).(filename := "", saveAsOpen := true)
    {
      if store.selectedCollection == "" {
        dialogs := dialogs.(noCollectionOpen := true);
        return;
      }
      dialogs := dialogs.(filename := "", saveAsOpen := true);
    }

    /** Nothing but the dialogs (and the editor's fields, which the caller
        states) has changed. */
    twostate predicate Untouched()
      reads this, store, app
    {
      && isSaved == old(isSaved) && store.State() == old(store.State())
      && app.fs == old(app.fs) && app.calls == old(app.calls) && app.refused == old(app.refused)
    }

    /** The editor was written to `target` by SavePostierRequest: the log
        holds the one write of the stamped payload, to `target` with the
        extension made sure of. The payload carries the browser's time
        `sent`; the backend then sets `updatedAt` to its own time `stamped`,
        which is also the file's modification time. On success the
        filesystem holds the file, the target (as given, without the
        extension the backend may add) becomes the current file and the
        editor is saved; on failure nothing but the log changes. */
    twostate predicate Persisted(target: string, saved: Option<HttpResponse>, sent: int, stamped: int)
      reads this, store, app
    {
      var doc := Backend.RequestFile(Backend.Stamped(ToStored(Payload(old(Fields()), saved, sent)), stamped));
      var r := Backend.WriteResult(old(app.fs), old(app.refused), Backend.PostierPath(target), doc, stamped);
      && app.refused == old(app.refused)
      && app.calls == old(app.calls) + [Backend.WriteFile(Backend.PostierPath(target), doc)]
      && app.fs == (if r.Some? then r.value else old(app.fs))
      && store.State() == (if r.Some? then old(store.State()).(currentFile := target) else old(store.State()))
      && isSaved == (r.Some? || old(isSaved))
    }

    /** The payload the editor's current fields make at the browser's
        time `sent`. */
    method BuildPayload(saved: Option<HttpResponse>, sent: int) returns (request: PostierRequest)
      ensures request == Payload(Fields(), saved, sent)
    {
      var headersObj := BuildObject(headers);
      headersObj := WithContentType(headersObj, bodyType);
      var queryObj := BuildObject(queryParams);
      var resp := if saved.Some? then saved else response;
      request := PostierRequest(
        RequestName(httpMethod, url), "", httpMethod, url, headersObj,
        SavedBody(bodyType, body), bodyType, queryObj,
        if resp.Some? then Value(resp.value) else Null, sent, sent);
    }

    /** The write at the end of `saveRequest`: the browser builds the
        payload at `sent`, the backend stamps it at `stamped`. */
    method Persist(target: string, saved: Option<HttpResponse>, sent: int, stamped: int)
      modifies this, store, app
      ensures Persisted(target, saved, sent, stamped)
      ensures Fields() == old(Fields()) && dialogs == old(dialogs)
    {
      var request := BuildPayload(saved, sent);
      var ok := app.SavePostierRequest(target, ToStored(request), stamped);
      if ok {
        store.SetCurrentFile(target);
        isSaved := true;
      }
    }

    /** What `saveRequest(filePath, saved)` does. Without a selected
        collection only its alert opens; without a target path (neither
        `filePath` nor a current file) only the other alert opens;
        otherwise the editor is Persisted to the target. */
    twostate predicate SaveEffect(filePath: string, saved: Option<HttpResponse>, sent: int, stamped: int)
      reads this, store, app
    {
      var target := if filePath != "" then filePath else old(store.currentFile);
      if old(store.selectedCollection) == "" then
        dialogs == old(dialogs).(noCollectionAutoOpen := true) && Untouched()
      else if IsBlank(target) then
        dialogs == old(dialogs).(noFileOpen := true) && Untouched()
      else
        dialogs == old(dialogs) && Persisted(target, saved, sent, stamped)
    }

    /** `saveRequest(filePath, responseToSave)`; `filePath` is "" when the
        caller passes none, `saved` is `None` when it passes no response;
        `sent` and `stamped` are the browser's and the backend's clocks. */
    method SaveRequest(filePath: string, saved: Option<HttpResponse>, sent: int, stamped: int)
      modifies this, store, app
      ensures SaveEffect(filePath, saved, sent, stamped) && Fields() == old(Fields())
    {
      if store.selectedCollection == "" {
        dialogs := dialogs.(noCollectionAutoOpen := true);
        return;
      }
      var target := if filePath != "" then filePath else store.currentFile;
      if IsBlank(target) {
        dialogs := dialogs.(noFileOpen := true);
        return;
      }
      Persist(target, saved, sent, stamped);
    }

    /** `confirmSaveAs`: a blank name closes the dialog and saves nothing;
        without a selected collection the dialog closes and the alert
        opens; a selected id no collection has changes nothing (only an
        alert is shown); otherwise the editor is saved as
        `collection.path + "/" + SaveAsName(filename)`, a path the backend
        keeps as it is (SaveAsTarget), and the dialog closes. */
    method ConfirmSaveAs(sent: int, stamped: int)
      modifies this, store, app
      ensures Fields() == old(Fields())
      ensures var c := TreeOps.CollectionById(old(store.collections), old(store.selectedCollection));
        if IsBlank(old(dialogs.filename)) || old(store.selectedCollection) == "" || c.None? then
          && Untouched()
          && dialogs == (if IsBlank(old(dialogs.filename)) then old(dialogs).(saveAsOpen := false)
                        else if old(store.selectedCollection) == "" then
                          old(dialogs).(saveAsOpen := false, noCollectionOpen := true)
                        else old(dialogs))
        else
          && dialogs == old(dialogs).(saveAsOpen := false)
          && Persisted(c.value.path + "/" + SaveAsName(old(dialogs.filename)), None, sent, stamped)
    {
      if IsBlank(dialogs.filename) {
        dialogs := dialogs.(saveAsOpen := false);
        return;
      }
      if store.selectedCollection == "" {
        dialogs := dialogs.(saveAsOpen := false, noCollectionOpen := true);
        return;
      }
      var c := TreeOps.CollectionById(store.collections, store.selectedCollection);
      if c.None? {
        return;
      }
      var target := c.value.path + "/" + SaveAsName(dialogs.filename);
      SaveAsTarget(c.value.path, dialogs.filename);
      SaveRequest(target, None, sent, stamped);
      dialogs := dialogs.(saveAsOpen := false);
    }

    /** The Ctrl+S shortcut: save to the current file when there is one,
        open "save as" otherwise. */
    method SaveShortcut(sent: int, stamped: int)
      modifies this, store, app
      ensures Fields() == old(Fields())
      ensures old(store.currentFile) != "" ==> SaveEffect("", None, sent, stamped)
      ensures old(store.currentFile) == "" ==>
        && Untouched()
        && dialogs == if old(store.selectedCollection) == "" then old(dialogs).(noCollectionOpen := true)
                      else old(dialogs).(filename := "", saveAsOpen := true)
    {
      if store.currentFile != "" {
        SaveRequest("", None, sent, stamped);
      } else {
        OpenSaveAsDialog();
      }
    }

    /** The dirty-check effect: with a current file that holds a request,
        `isSaved` becomes whether the editor is clean against it (which a
        document read back from the backend never is); otherwise nothing
        changes. */
    method RecomputeDirty()
      modifies this
      ensures Fields() == old(Fields()) && dialogs == old(dialogs)
      ensures var doc := StoredAt(app.fs, store.currentFile);
        if store.currentFile != "" && doc.Some? then
          isSaved == Clean(FromStored(doc.value), Fields()) && !isSaved
        else isSaved == old(isSaved)
    {
      if store.currentFile == "" {
        return;
      }
      var r := app.LoadPostierRequest(store.currentFile);
      if r.Failure? {
        return;
      }
      isSaved := DirtyCheck(FromStored(r.value), Fields());
      ReloadedNeverClean(r.value, Fields());
    }

    /** `addHeader`: an empty row at the end. */
    method AddHeader()
      modifies this
      ensures Fields() == old(Fields()).(headers := old(headers) + [KeyValue("", "")])
      ensures isSaved == old(isSaved) && dialogs == old(dialogs)
    {
      headers := headers + [KeyValue("", "")];
    }

    /** `updateHeader(index, part, text)`, for a row the editor shows. */
    method UpdateHeader(index: int, part: Part, text: string)
      requires 0 <= index < |headers|
      modifies this
      ensures Fields() == old(Fields()).(headers := UpdateAt(old(headers), index, part, text))
      ensures isSaved == old(isSaved) && dialogs == old(dialogs)
    {
      headers := UpdateAt(headers, index, part, text);
    }

    /** `removeHeader(index)`: an index out of range removes nothing. */
    method RemoveHeader(index: int)
      modifies this
      ensures Fields() == old(Fields()).(headers := RemoveAt(old(headers), index))
      ensures isSaved == old(isSaved) && dialogs == old(dialogs)
    {
      headers := RemoveAt(headers, index);
    }

    method AddQueryParam()
      modifies this
      ensures Fields() == old(Fields()).(queryParams := old(queryParams) + [KeyValue("", "")])
      ensures isSaved == old(isSaved) && dialogs == old(dialogs)
    {
      queryParams := queryParams + [KeyValue("", "")];
    }

    method UpdateQueryParam(index: int, part: Part, text: string)
      requires 0 <= index < |queryParams|
      modifies this
      ensures Fields() == old(Fields()).(queryParams := UpdateAt(old(queryParams), index, part, text))
      ensures isSaved == old(isSaved) && dialogs == old(dialogs)
    {
      queryParams := UpdateAt(queryParams, index, part, text);
    }

    method RemoveQueryParam(index: int)
      modifies this
      ensures Fields() == old(Fields()).(queryParams := RemoveAt(old(queryParams), index))
      ensures isSaved == old(isSaved) && dialogs == old(dialogs)
    {
      queryParams := RemoveAt(queryParams, index);
    }

    /** `sendRequest` after the network call, whose outcome is `result`;
        `bodyIsJson` says whether `JSON.parse` accepts the response body.
        The response is cleared first; a failed call leaves it `null`.
        On success the response is shown. Showing it parses the body when
        RendersAsJson says so, and a body that does not parse throws: the
        error is only logged, so nothing else happens. Otherwise, with
        autosave on, the editor is saved to the current file together with
        the new response; with autosave off it is marked unsaved. */
    method SendRequest(result: Result<HttpResponse>, bodyIsJson: bool, sent: int, stamped: int)
      modifies this, store, app
      ensures result.Failure? ==>
        && Fields() == old(Fields()).(response := None) && isSaved == old(isSaved)
        && dialogs == old(dialogs) && store.State() == old(store.State())
        && app.fs == old(app.fs) && app.calls == old(app.calls)
      ensures result.Success? ==> Fields() == old(Fields()).(response := Some(result.value))
      ensures result.Success? && RendersAsJson(result.value) && !bodyIsJson ==>
        && isSaved == old(isSaved) && dialogs == old(dialogs) && store.State() == old(store.State())
        && app.fs == old(app.fs) && app.calls == old(app.calls)
      ensures result.Success? && !(RendersAsJson(result.value) && !bodyIsJson) && old(store.autoSave) ==>
        SaveEffect("", Some(result.value), sent, stamped)
      ensures result.Success? && !(RendersAsJson(result.value) && !bodyIsJson) && !old(store.autoSave) ==>
        && !isSaved && dialogs == old(dialogs) && store.State() == old(store.State())
        && app.fs == old(app.fs) && app.calls == old(app.calls)
    {
      response := None;
      if result.Failure? {
        return;
      }
      response := Some(result.value);
      var parses := ParsesForDisplay(result.value);
      if parses && !bodyIsJson {
        return;
      }
      if store.autoSave {
        SaveRequest("", Some(result.value), sent, stamped);
      } else {
        isSaved := false;
      }
    }
  }

  /** The path "save as" writes to is never blank, and the backend writes
      exactly there. */
  lemma SaveAsTarget(dir: string, input: string)
    ensures var target := dir + "/" + SaveAsName(input);
      !IsBlank(target) && Backend.PostierPath(target) == target
  {
    var target := dir + "/" + SaveAsName(input);
    SaveAsPathIsFinal(dir, input);
    BlankIffAllSpace(target);
    assert target[|target| - 1] == 'r';
  }

  /** What the file holds after an editor save. The front end sends both
      timestamps at its own time `sent`, which is never Go's zero time, so
      the backend keeps `createdAt` as sent; it replaces `updatedAt` with
      its own time `stamped`. Every other field is stored as sent, and the
      two timestamps agree only when the two clocks do. */
  lemma BackendRestampsSave(e: Editor, saved: Option<HttpResponse>, sent: int, stamped: int)
    requires sent != 0
    ensures var p := ToStored(Payload(e, saved, sent));
      var f := Backend.Stamped(p, stamped);
      && f.createdAt == sent && f.updatedAt == stamped
      && f.(updatedAt := sent) == p
      && (f.createdAt == f.updatedAt <==> sent == stamped)
  {
    Backend.StampedSpec(ToStored(Payload(e, saved, sent)), stamped);
  }

  /** Saving and reading the file back keeps the method and URL, blanks
      the body for `none`, loses the body type and the response, and gives
      the browser's time as `createdAt` and the backend's as `updatedAt`. */
  lemma SaveThenReload(e: Editor, saved: Option<HttpResponse>, sent: int, stamped: int)
    requires sent != 0
    ensures var back := FromStored(Backend.Stamped(ToStored(Payload(e, saved, sent)), stamped));
      && back.httpMethod == e.httpMethod && back.url == e.url
      && back.body == SavedBody(e.bodyType, e.body)
      && back.bodyType == None && back.response == Undefined
      && back.createdAt == sent && back.updatedAt == stamped
  {
  }
}
