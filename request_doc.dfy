/** The request-document logic of the editor (`HttpClient.tsx`) apart from
    its state: turning the editable header and query rows into the objects
    that are saved, the `Content-Type` the body type implies, the name and
    path a document is saved under, and the comparison that decides whether
    the editor still shows what the file holds. */
module RequestDoc {
  import opened Wrappers
  import opened Text
  import opened Types
  import opened Ordering

  /** What the editor holds: the request fields of its state. `bodyType`
      is `None` when it is `undefined` (after loading a file, which carries
      none); `response` is `None` when it is `null`. */
  datatype Editor = Editor(
    httpMethod: string, url: string, headers: seq<KeyValue>, queryParams: seq<KeyValue>,
    body: string, bodyType: Option<BodyType>, response: Option<HttpResponse>)

  /* ---------------- comparing rows ---------------- */

  /** `arraysEqual(a, b)`: same length, and at every position the same key
      and the same value; that is, the same sequence of rows. */
  method ArraysEqual(a: seq<KeyValue>, b: seq<KeyValue>) returns (r: bool)
    ensures r <==> a == b
  {
    if |a| != |b| {
      return false;
    }
    var i := 0;
    while i < |a|
      invariant 0 <= i <= |a|
      invariant a[..i] == b[..i]
    {
      if a[i].key != b[i].key || a[i].value != b[i].value {
        assert a[i] != b[i];
        return false;
      }
      assert a[..i + 1] == a[..i] + [a[i]] && b[..i + 1] == b[..i] + [b[i]];
      i := i + 1;
    }
    assert a == a[..i] && b == b[..i];
    return true;
  }

  /** The comparator of the dirty check, read as "at most": by key, then
      by value (`localeCompare` is taken as plain string order). */
  predicate PairOrder(x: KeyValue, y: KeyValue) {
    LexLess(x.key, y.key) || (x.key == y.key && !LexLess(y.value, x.value))
  }

  lemma PairOrderIsTotalPreorder()
    ensures TotalPreorder(PairOrder)
  {
    forall x: KeyValue, y: KeyValue ensures PairOrder(x, y) || PairOrder(y, x) {
      LexLessTotal(x.key, y.key);
      LexLessTotal(x.value, y.value);
      if LexLess(x.value, y.value) { LexLessAsymmetric(x.value, y.value); }
    }
    forall x: KeyValue, y: KeyValue, z: KeyValue | PairOrder(x, y) && PairOrder(y, z)
      ensures PairOrder(x, z)
    {
      if LexLess(x.key, y.key) && LexLess(y.key, z.key) {
        LexLessTransitive(x.key, y.key, z.key);
      } else if x.key == y.key == z.key {
        if LexLess(z.value, x.value) {
          LexLessTotal(y.value, x.value);
          if LexLess(y.value, x.value) {
          } else if y.value == x.value {
          } else {
            LexLessTransitive(z.value, x.value, y.value);
          }
        }
      }
    }
  }

  /** Two rows that sort in both orders are the same row: the sorted
      arrangement of a list of rows is unique. */
  lemma PairOrderAntisymmetric()
    ensures Antisymmetric(PairOrder)
  {
    forall x: KeyValue, y: KeyValue | PairOrder(x, y) && PairOrder(y, x) ensures x == y {
      if LexLess(x.key, y.key) {
        LexLessAsymmetric(x.key, y.key);
      } else if LexLess(y.key, x.key) {
        LexLessAsymmetric(y.key, x.key);
      } else {
        LexLessTotal(x.value, y.value);
      }
    }
  }

  /** `[...rows].sort(sortFn)`: a sorted copy with the same rows. */
  method SortedRows(rows: seq<KeyValue>) returns (r: seq<KeyValue>)
    ensures SortedBy(r, PairOrder)
    ensures multiset(r) == multiset(rows)
  {
    PairOrderIsTotalPreorder();
    r := Sorted(rows, PairOrder);
  }

  /** Sorting both lists and comparing them row by row: equal exactly
      when the two lists hold the same rows, in whatever order. */
  method SameRows(a: seq<KeyValue>, b: seq<KeyValue>) returns (r: bool)
    ensures r <==> multiset(a) == multiset(b)
  {
    var sa := SortedRows(a);
    var sb := SortedRows(b);
    r := ArraysEqual(sa, sb);
    if multiset(a) == multiset(b) {
      PairOrderIsTotalPreorder();
      PairOrderAntisymmetric();
      SortedUnique(sa, sb, PairOrder);
    }
  }

  /* ---------------- the saved objects ---------------- */

  /** A row the save stores as an own key of the object: one that passes
      `header.key && header.value`, other than `__proto__`, whose
      assignment on a plain `{}` reaches the inherited `__proto__` setter,
      which ignores a string and stores nothing. */
  predicate Kept(p: KeyValue) {
    p.key != "" && p.value != "" && p.key != "__proto__"
  }

  /** A `__proto__` row is dropped, although it passes the filter. */
  lemma ProtoRowDropped(value: string)
    requires value != ""
    ensures ObjectOf([KeyValue("__proto__", value)]) == map[]
    ensures ObjectOf([KeyValue("Accept", value)]) == map["Accept" := value]
  {
    assert [KeyValue("__proto__", value)][..0] == [];
    assert [KeyValue("Accept", value)][..0] == [];
  }

  /** The object `rows.forEach(r => { if (r.key && r.value) obj[r.key] = r.value })`
      builds as own keys: rows are assigned in order, so a later row wins,
      and a `__proto__` row stores nothing (Kept). */
  function ObjectOf(rows: seq<KeyValue>): map<string, string> {
    if rows == [] then map[]
    else
      var obj := ObjectOf(rows[..|rows| - 1]);
      var p := rows[|rows| - 1];
      if Kept(p) then obj[p.key := p.value] else obj
  }

  /** A key is in the object exactly when some kept row has it; every key
      and value in it is non-empty, and no key is `__proto__`. */
  lemma {:induction false} ObjectOfKeys(rows: seq<KeyValue>)
    ensures forall k :: k in ObjectOf(rows) <==> exists i :: 0 <= i < |rows| && Kept(rows[i]) && rows[i].key == k
    ensures forall k :: k in ObjectOf(rows) ==> k != "" && k != "__proto__" && ObjectOf(rows)[k] != ""
  {
    if rows != [] {
      var init := rows[..|rows| - 1];
      ObjectOfKeys(init);
      forall k | k in ObjectOf(rows)
        ensures exists i :: 0 <= i < |rows| && Kept(rows[i]) && rows[i].key == k
      {
        if k !in ObjectOf(init) {
          assert rows[|rows| - 1].key == k;
        } else {
          var i :| 0 <= i < |init| && Kept(init[i]) && init[i].key == k;
          assert rows[i] == init[i];
        }
      }
      forall k | exists i :: 0 <= i < |rows| && Kept(rows[i]) && rows[i].key == k
        ensures k in ObjectOf(rows)
      {
        var i :| 0 <= i < |rows| && Kept(rows[i]) && rows[i].key == k;
        if i < |rows| - 1 {
          assert init[i] == rows[i];
        }
      }
    }
  }

  /** The value of a key is that of the last kept row with that key. */
  lemma {:induction false} ObjectOfLastWins(rows: seq<KeyValue>, i: int)
    requires 0 <= i < |rows| && Kept(rows[i])
    requires forall j :: i < j < |rows| && Kept(rows[j]) ==> rows[j].key != rows[i].key
    ensures rows[i].key in ObjectOf(rows) && ObjectOf(rows)[rows[i].key] == rows[i].value
  {
    var init := rows[..|rows| - 1];
    if i < |rows| - 1 {
      assert init[i] == rows[i];
      forall j | i < j < |init| && Kept(init[j]) ensures init[j].key != init[i].key {
        assert init[j] == rows[j];
      }
      ObjectOfLastWins(init, i);
    }
  }

  /** The loop that fills the object, proved to build ObjectOf. */
  method BuildObject(rows: seq<KeyValue>) returns (obj: map<string, string>)
    ensures obj == ObjectOf(rows)
  {
    obj := map[];
    var i := 0;
    while i < |rows|
      invariant 0 <= i <= |rows|
      invariant obj == ObjectOf(rows[..i])
    {
      assert rows[..i + 1][..i] == rows[..i];
      if Kept(rows[i]) {
        obj := obj[rows[i].key := rows[i].value];
      }
      i := i + 1;
    }
    assert rows[..i] == rows;
  }

  /** The `Content-Type` a body type implies; `none` implies none. */
  function ContentTypeOf(bt: BodyType): Option<string> {
    match bt
    case BodyJson => Some("application/json")
    case BodyText => Some("text/plain")
    case BodyXml => Some("application/xml")
    case BodySparql => Some("application/sparql-query")
    case BodyNone => None
  }

  /** The body type can be read back from the content type it implies. */
  lemma ContentTypeDeterminesBodyType(a: BodyType, b: BodyType)
    requires ContentTypeOf(a).Some? && ContentTypeOf(a) == ContentTypeOf(b)
    ensures a == b
  {
  }

  /** The header object after the body type's `Content-Type` is set: it
      overwrites whatever the rows said; `none` or no body type at all
      leaves the object alone. */
  function WithContentType(obj: map<string, string>, bt: Option<BodyType>): (r: map<string, string>)
    ensures forall k :: k != "Content-Type" ==> (k in r <==> k in obj) && (k in obj ==> r[k] == obj[k])
    ensures bt.Some? && ContentTypeOf(bt.value).Some? ==>
      "Content-Type" in r && r["Content-Type"] == ContentTypeOf(bt.value).value
    ensures bt.None? || bt == Some(BodyNone) ==> r == obj
  {
    if bt.Some? && ContentTypeOf(bt.value).Some? then obj["Content-Type" := ContentTypeOf(bt.value).value]
    else obj
  }

  /** The saved body: empty for body type `none`, the buffer otherwise
      (also when the body type is missing). */
  function SavedBody(bt: Option<BodyType>, body: string): string {
    if bt == Some(BodyNone) then "" else body
  }

  /* ---------------- naming ---------------- */

  /** The number of leading `s` characters. */
  function LeadingS(s: string): (n: nat)
    ensures n <= |s| && forall i :: 0 <= i < n ==> s[i] == 's'
    ensures n < |s| ==> s[n] != 's'
  {
    if s != [] && s[0] == 's' then 1 + LeadingS(s[1..]) else 0
  }

  /** Length of the match of `/http(s*):\/\//` at the start of `s`, or -1
      when it does not match there. */
  function SchemeAt(s: string): int {
    if !StartsWith(s, "http") then -1
    else
      var n := LeadingS(s[4..]);
      if StartsWith(s[4 + n..], "://") then 4 + n + 3 else -1
  }

  /** `s.replace(/http(s*):\/\//, "")`: the leftmost match removed. */
  function StripScheme(s: string): string {
    if s == [] then []
    else if SchemeAt(s) >= 0 then s[SchemeAt(s)..]
    else [s[0]] + StripScheme(s[1..])
  }

  function Repeat(c: char, n: nat): (r: string)
    ensures |r| == n && forall i :: 0 <= i < n ==> r[i] == c
  {
    if n == 0 then [] else [c] + Repeat(c, n - 1)
  }

  lemma {:induction false} LeadingSOfRepeat(n: nat, rest: string)
    requires rest == [] || rest[0] != 's'
    ensures LeadingS(Repeat('s', n) + rest) == n
  {
    if n > 0 {
      assert (Repeat('s', n) + rest)[1..] == Repeat('s', n - 1) + rest;
      LeadingSOfRepeat(n - 1, rest);
    }
  }

  /** A URL that starts with `http`, any number of `s` and `://` loses
      exactly that prefix. */
  lemma StripSchemeOfUrl(n: nat, rest: string)
    ensures StripScheme("http" + Repeat('s', n) + "://" + rest) == rest
  {
    var s := "http" + Repeat('s', n) + "://" + rest;
    assert s[..4] == "http";
    assert s[4..] == Repeat('s', n) + ("://" + rest);
    LeadingSOfRepeat(n, "://" + rest);
    assert s[4 + n..] == "://" + rest;
    assert s[4 + n + 3..] == rest;
  }

  /** Where the expression matches nowhere, the URL is kept whole. */
  lemma {:induction false} StripSchemeNoMatch(s: string)
    requires forall i :: 0 <= i <= |s| ==> SchemeAt(s[i..]) < 0
    ensures StripScheme(s) == s
  {
    if s != [] {
      assert SchemeAt(s[0..]) < 0 && s[0..] == s;
      forall i | 0 <= i <= |s[1..]| ensures SchemeAt(s[1..][i..]) < 0 {
        assert s[1..][i..] == s[i + 1..];
      }
      StripSchemeNoMatch(s[1..]);
    }
  }

  /** The saved document's name: `${method}@${url without scheme}`. */
  function RequestName(httpMethod: string, url: string): string {
    httpMethod + "@" + StripScheme(url)
  }

  /** A request to `http[s…]://rest` is named `METHOD@rest`. */
  lemma RequestNameOfUrl(httpMethod: string, n: nat, rest: string)
    ensures RequestName(httpMethod, "http" + Repeat('s', n) + "://" + rest) == httpMethod + "@" + rest
  {
    StripSchemeOfUrl(n, rest);
  }

  /** The file name of "save as": the trimmed input, with ".postier"
      appended only when it is not already there. */
  function SaveAsName(input: string): (r: string)
    ensures EndsWith(r, ".postier")
    ensures StartsWith(r, Trim(input))
    ensures r == Trim(input) <==> EndsWith(Trim(input), ".postier")
  {
    var t := Trim(input);
    EndsWithAppended(t, ".postier");
    assert (t + ".postier")[..|t|] == t;
    if EndsWith(t, ".postier") then t else t + ".postier"
  }

  /** The path "save as" chooses ends in ".postier" already, so the
      backend writes exactly there and does not append a second one. */
  lemma SaveAsPathIsFinal(dir: string, input: string)
    ensures var p := dir + "/" + SaveAsName(input); EndsWith(p, ".postier")
  {
    EndsWithPrepended(dir + "/", SaveAsName(input), ".postier");
  }

  /** The object handed to SavePostierRequest. `saved` is the response the
      caller passes (`undefined` from a save, the new response from an
      automatic save after sending); the editor's own response otherwise.
      `sent` is the browser's clock when the object is built. */
  function Payload(e: Editor, saved: Option<HttpResponse>, sent: int): PostierRequest {
    var resp := if saved.Some? then saved else e.response;
    PostierRequest(
      RequestName(e.httpMethod, e.url), "", e.httpMethod, e.url,
      WithContentType(ObjectOf(e.headers), e.bodyType),
      SavedBody(e.bodyType, e.body), e.bodyType, ObjectOf(e.queryParams),
      if resp.Some? then Value(resp.value) else Null,
      sent, sent)
  }

  /** No kept row after row `i` has the same key. */
  predicate LastWithKey(rows: seq<KeyValue>, i: int)
    requires 0 <= i < |rows|
  {
    forall j :: i < j < |rows| && Kept(rows[j]) ==> rows[j].key != rows[i].key
  }

  /** `obj` is what the kept rows assign, apart from the keys in `skip`: a
      key is present exactly when some kept row has it, and its value is
      that of the last such row. */
  ghost predicate MadeFrom(obj: map<string, string>, rows: seq<KeyValue>, skip: set<string>) {
    && (forall k :: k !in skip ==> (k in obj <==> exists i :: 0 <= i < |rows| && Kept(rows[i]) && rows[i].key == k))
    && (forall i :: 0 <= i < |rows| && Kept(rows[i]) && rows[i].key !in skip && LastWithKey(rows, i) ==>
          rows[i].key in obj && obj[rows[i].key] == rows[i].value)
  }

  lemma ObjectOfMadeFrom(rows: seq<KeyValue>)
    ensures MadeFrom(ObjectOf(rows), rows, {})
  {
    ObjectOfKeys(rows);
    forall i | 0 <= i < |rows| && Kept(rows[i]) && LastWithKey(rows, i)
      ensures rows[i].key in ObjectOf(rows) && ObjectOf(rows)[rows[i].key] == rows[i].value
    {
      ObjectOfLastWins(rows, i);
    }
  }

  /** What a payload holds: the `METHOD@url` name; the editor's method,
      URL and body type; the body blanked for `none`; as query, exactly
      the kept rows (no `__proto__`) with the last one winning; as headers the same, except
      that a body type with a content type overwrites `Content-Type`; the
      response passed in, else the editor's, else `null`; and both
      timestamps from the browser's clock. */
  lemma PayloadSpec(e: Editor, saved: Option<HttpResponse>, sent: int)
    ensures var p := Payload(e, saved, sent);
      var typed := e.bodyType.Some? && ContentTypeOf(e.bodyType.value).Some?;
      && p.name == RequestName(e.httpMethod, e.url)
      && p.httpMethod == e.httpMethod && p.url == e.url && p.bodyType == e.bodyType
      && p.body == (if e.bodyType == Some(BodyNone) then "" else e.body)
      && MadeFrom(p.query, e.queryParams, {})
      && (forall k :: k in p.query ==> k != "" && k != "__proto__" && p.query[k] != "")
      && MadeFrom(p.headers, e.headers, if typed then {"Content-Type"} else {})
      && (typed ==> "Content-Type" in p.headers && p.headers["Content-Type"] == ContentTypeOf(e.bodyType.value).value)
      && p.response == (if saved.Some? then Value(saved.value)
                        else if e.response.Some? then Value(e.response.value) else Null)
      && p.createdAt == sent && p.updatedAt == sent
  {
    ObjectOfKeys(e.queryParams);
    ObjectOfMadeFrom(e.queryParams);
    HeadersMadeFrom(e.headers, e.bodyType);
  }

  /** The headers object is the rows' object, `Content-Type` apart when
      the body type sets it. */
  lemma HeadersMadeFrom(rows: seq<KeyValue>, bt: Option<BodyType>)
    ensures var typed := bt.Some? && ContentTypeOf(bt.value).Some?;
      MadeFrom(WithContentType(ObjectOf(rows), bt), rows, if typed then {"Content-Type"} else {})
  {
    ObjectOfMadeFrom(rows);
  }

  /* ---------------- the dirty check ---------------- */

  /** `list` holds every entry of `m` exactly once and nothing else: the
      rows `Object.entries(m)` gives, in any order. */
  ghost predicate PairsMatch(m: map<string, string>, list: seq<KeyValue>) {
    forall kv :: multiset(list)[kv] == if kv.key in m && m[kv.key] == kv.value then 1 else 0
  }

  /** Two lists that both list a map's entries are permutations of each
      other, and a permutation of such a list lists them too. */
  lemma PairsMatchPermutation(m: map<string, string>, a: seq<KeyValue>, b: seq<KeyValue>)
    requires PairsMatch(m, a)
    ensures PairsMatch(m, b) <==> multiset(a) == multiset(b)
  {
    if PairsMatch(m, b) {
      assert forall kv :: multiset(a)[kv] == multiset(b)[kv];
    }
  }

  /** The rows' keys come in the order `Object.entries` lists them
      (PropertyBefore), so each key occurs once. */
  predicate KeysInEntryOrder(rows: seq<KeyValue>) {
    forall i, j :: 0 <= i < j < |rows| ==> PropertyBefore(rows[i].key, rows[j].key)
  }

  /** Integer-like keys come first and by value: "9" before "10", both
      before a header name, although "10" is the smaller string. */
  lemma NumericKeysFirst()
    ensures KeysInEntryOrder([KeyValue("9", "a"), KeyValue("10", "b"), KeyValue("Accept", "c")])
    ensures !KeysInEntryOrder([KeyValue("10", "b"), KeyValue("9", "a")])
    ensures LexLess("10", "9")
  {
    assert "10"[..1] == "1";
    assert NumeralValue("10") == 10 && IsArrayIndex("10");
    assert NumeralValue("9") == 9 && IsArrayIndex("9");
    assert !IsArrayIndex("Accept");
    var swapped := [KeyValue("10", "b"), KeyValue("9", "a")];
    assert !PropertyBefore(swapped[0].key, swapped[1].key);
  }

  /** Some key of a finite non-empty set comes first in property order. */
  lemma {:induction false} LeastKeyExists(keys: set<string>)
    requires keys != {}
    ensures exists k :: k in keys && forall j :: j in keys ==> !PropertyBefore(j, k)
  {
    var x :| x in keys;
    if keys == {x} {
      PropertyBeforeIrreflexive(x);
    } else {
      LeastKeyExists(keys - {x});
      var m :| m in keys - {x} && forall j :: j in keys - {x} ==> !PropertyBefore(j, m);
      if PropertyBefore(x, m) {
        forall j | j in keys ensures !PropertyBefore(j, x) {
          if j == x {
            PropertyBeforeIrreflexive(x);
          } else if PropertyBefore(j, x) {
            PropertyBeforeTransitive(j, x, m);
          }
        }
      } else {
        assert forall j :: j in keys ==> !PropertyBefore(j, m);
      }
    }
  }

  /** `Object.entries(m)` of an object decoded from the backend's JSON.
      The Go encoder writes map keys in ascending order and `JSON.parse`
      inserts them in that order; `Object.entries` then lists array-index
      keys first, by numeric value, and the other keys in insertion order. */
  method Entries(m: map<string, string>) returns (list: seq<KeyValue>)
    ensures PairsMatch(m, list) && KeysInEntryOrder(list)
  {
    list := [];
    var rest := m.Keys;
    while rest != {}
      invariant rest <= m.Keys
      invariant ListedExcept(m, rest, list)
      decreases |rest|
    {
      LeastKeyExists(rest);
      var k :| k in rest && forall j :: j in rest ==> !PropertyBefore(j, k);
      EntriesStep(m, rest, list, k);
      list := list + [KeyValue(k, m[k])];
      rest := rest - {k};
    }
  }

  /** `list` holds, in property order, the entries of `m` whose keys
      are not in `rest`, and every key in `rest` comes after them. */
  ghost predicate ListedExcept(m: map<string, string>, rest: set<string>, list: seq<KeyValue>) {
    && (forall kv :: multiset(list)[kv] ==
                     if kv.key in m && kv.key !in rest && m[kv.key] == kv.value then 1 else 0)
    && KeysInEntryOrder(list)
    && (forall i, k :: 0 <= i < |list| && k in rest ==> PropertyBefore(list[i].key, k))
  }

  /** Moving the least remaining key to the end of the list keeps
      ListedExcept. */
  lemma EntriesStep(m: map<string, string>, rest: set<string>, list: seq<KeyValue>, k: string)
    requires rest <= m.Keys && ListedExcept(m, rest, list)
    requires k in rest && forall j :: j in rest ==> !PropertyBefore(j, k)
    ensures ListedExcept(m, rest - {k}, list + [KeyValue(k, m[k])])
  {
    CountAfterPush(list, KeyValue(k, m[k]));
    AscendingAfterPush(rest, list, KeyValue(k, m[k]));
  }

  /** Appending a row adds one to its count and leaves the other counts. */
  lemma CountAfterPush(list: seq<KeyValue>, row: KeyValue)
    ensures forall kv :: multiset(list + [row])[kv] == multiset(list)[kv] + (if kv == row then 1 else 0)
  {
    assert multiset(list + [row]) == multiset(list) + multiset{row};
  }

  /** Appending the row of the first key still to come keeps the keys in
      property order and before the keys that remain. */
  lemma AscendingAfterPush(rest: set<string>, list: seq<KeyValue>, row: KeyValue)
    requires KeysInEntryOrder(list) && forall i, k :: 0 <= i < |list| && k in rest ==> PropertyBefore(list[i].key, k)
    requires row.key in rest && forall j :: j in rest ==> !PropertyBefore(j, row.key)
    ensures KeysInEntryOrder(list + [row])
    ensures forall i, k :: 0 <= i < |list + [row]| && k in rest - {row.key} ==> PropertyBefore((list + [row])[i].key, k)
  {
    forall j | j in rest - {row.key} ensures PropertyBefore(row.key, j) {
      PropertyBeforeTotal(row.key, j);
    }
  }

  /** JavaScript's `JSON.stringify(f) === JSON.stringify(r)` for the
      file's response `f` and the editor's `r`, responses compared as
      values: a missing response stringifies to `undefined`, which equals
      no string, so it never matches. */
  predicate JsonEqual(f: JsValue<HttpResponse>, r: Option<HttpResponse>) {
    match f
    case Undefined => false
    case Null => r.None?
    case Value(v) => r == Some(v)
  }

  /** The editor shows what the file holds: same body, body type, method,
      response and URL, and the same header and query rows up to order. */
  ghost predicate Clean(file: PostierRequest, e: Editor) {
    && file.body == e.body && file.bodyType == e.bodyType
    && file.httpMethod == e.httpMethod && JsonEqual(file.response, e.response)
    && file.url == e.url
    && PairsMatch(file.headers, e.headers) && PairsMatch(file.query, e.queryParams)
  }

  /** The dirty-check effect: list the file's headers and query, sort both
      sides, compare them row by row, and compare the other fields. */
  method DirtyCheck(file: PostierRequest, e: Editor) returns (saved: bool)
    ensures saved <==> Clean(file, e)
  {
    var fileHeaders := Entries(file.headers);
    var fileQuery := Entries(file.query);
    var headersEqual := SameRows(fileHeaders, e.headers);
    var queryEqual := SameRows(fileQuery, e.queryParams);
    PairsMatchPermutation(file.headers, fileHeaders, e.headers);
    PairsMatchPermutation(file.query, fileQuery, e.queryParams);
    saved := && file.body == e.body && file.bodyType == e.bodyType
             && file.httpMethod == e.httpMethod && JsonEqual(file.response, e.response)
             && file.url == e.url && headersEqual && queryEqual;
  }

  /** A document read back from the backend has no response field, so the
      dirty check never finds the editor clean against it. */
  lemma ReloadedNeverClean(doc: StoredRequest, e: Editor)
    ensures !Clean(FromStored(doc), e)
  {
  }

  /** Reordering rows does not make the editor dirty. */
  lemma CleanUpToOrder(file: PostierRequest, e: Editor, headers: seq<KeyValue>, query: seq<KeyValue>)
    requires Clean(file, e)
    requires multiset(headers) == multiset(e.headers) && multiset(query) == multiset(e.queryParams)
    ensures Clean(file, e.(headers := headers, queryParams := query))
  {
  }
}
