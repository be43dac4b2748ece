/** The session logic of molgenis/client.py with the HTTP traffic replaced
    by its inputs: the token state, the batched read, the upsert split, the
    rewrite of rows into their uploadable form, the polling of an import job
    and the ids read back from the server's answers. */
module Client {
  import opened PyData
  import Q = QueryUtils
  import U = Utils
  import E = Errors
  import A = ApiSupport

  // ---------------------------------------------------------------------------
  // Batched reads

  /** The answer to one batch request: its rows and, when it has a
      `nextHref`, the `start` query parameter of that link. */
  datatype Page = Page(items: seq<Value>, nextStart: Option<string>)

  /** The server eventually answers a page without `nextHref`. */
  predicate HasLastPage(pages: seq<Page>) {
    exists j :: 0 <= j < |pages| && pages[j].nextStart.None?
  }

  function FirstLastPage(pages: seq<Page>, k: nat): (j: nat)
    requires k <= |pages|
    requires exists j :: k <= j < |pages| && pages[j].nextStart.None?
    ensures k <= j < |pages| && pages[j].nextStart.None?
    decreases |pages| - k
  {
    if pages[k].nextStart.None? then k else FirstLastPage(pages, k + 1)
  }

  /** The index of the first page without a next link. */
  function LastPage(pages: seq<Page>): (j: nat)
    requires HasLastPage(pages)
    ensures j < |pages| && pages[j].nextStart.None?
  {
    FirstLastPage(pages, 0)
  }

  /** Every page before the last one has a next link. */
  lemma {:induction false} FirstLastPageIsFirst(pages: seq<Page>, k: nat)
    requires k <= |pages|
    requires exists j :: k <= j < |pages| && pages[j].nextStart.None?
    ensures forall i :: k <= i < FirstLastPage(pages, k) ==> pages[i].nextStart.Some?
    decreases |pages| - k
  {
    if pages[k].nextStart.Some? {
      FirstLastPageIsFirst(pages, k + 1);
    }
  }

  /** The rows of the first `n` pages, in order. */
  function Fetched(pages: seq<Page>, n: nat): seq<Value>
    requires n <= |pages|
  {
    if n == 0 then [] else Fetched(pages, n - 1) + pages[n - 1].items
  }

  /** Every row the server offers, up to the page without a next link. */
  function AllItems(pages: seq<Page>): seq<Value>
    requires HasLastPage(pages)
  {
    Fetched(pages, LastPage(pages) + 1)
  }

  /** `not num or len(items) < num`, the condition to request another batch;
      `num` 0 stands for both 0 and None, which Python treats alike. */
  predicate WantsMore(num: int, have: int) {
    num == 0 || have < num
  }

  /** How many batch requests the loop makes when it has made `k` so far. */
  function Requests(pages: seq<Page>, num: int, k: nat): (n: nat)
    requires HasLastPage(pages) && k <= LastPage(pages)
    ensures k <= n <= LastPage(pages) + 1
    decreases LastPage(pages) - k
  {
    if !WantsMore(num, |Fetched(pages, k)|) then k
    else if pages[k].nextStart.None? then k + 1
    else Requests(pages, num, k + 1)
  }

  /** The loop goes on while it wants more rows, and stops at the first
      batch after which it wants no more unless the last page came first. */
  lemma {:induction false} RequestsSpec(pages: seq<Page>, num: int, k: nat)
    requires HasLastPage(pages) && k <= LastPage(pages)
    ensures var n := Requests(pages, num, k);
      && (forall m :: k <= m < n ==> WantsMore(num, |Fetched(pages, m)|))
      && (n <= LastPage(pages) ==> !WantsMore(num, |Fetched(pages, n)|))
    decreases LastPage(pages) - k
  {
    FirstLastPageIsFirst(pages, 0);
    if WantsMore(num, |Fetched(pages, k)|) && pages[k].nextStart.Some? {
      RequestsSpec(pages, num, k + 1);
    }
  }

  lemma RequestsStep(pages: seq<Page>, num: int, k: nat)
    requires HasLastPage(pages) && k <= LastPage(pages)
    requires WantsMore(num, |Fetched(pages, k)|) && pages[k].nextStart.Some?
    ensures k + 1 <= LastPage(pages)
    ensures Requests(pages, num, k) == Requests(pages, num, k + 1)
  {
  }

  /** `items[:num]`, a Python slice: a negative bound counts from the end. */
  function Prefix(items: seq<Value>, num: int): seq<Value> {
    if num >= 0 then items[..if num < |items| then num else |items|]
    else items[..if |items| + num > 0 then |items| + num else 0]
  }

  /** `if num: items = items[:num]`. */
  function Truncated(items: seq<Value>, num: int): seq<Value> {
    if num != 0 then Prefix(items, num) else items
  }

  /** The value of the `start` option of batch request `j`: the caller's
      start, then the start of the previous page's next link (a string). */
  function StartOf(pages: seq<Page>, start: int, j: nat): Value
    requires HasLastPage(pages) && j <= LastPage(pages)
  {
    FirstLastPageIsFirst(pages, 0);
    if j == 0 then Int(start) else Str(pages[j - 1].nextStart.value)
  }

  /** `if not sort_column: sort_column = meta['idAttribute']`. */
  function EffectiveSort(sortColumn: Option<string>, idAttribute: string): Option<string> {
    if Truthy(OptStr(sortColumn)) then sortColumn else Some(idAttribute)
  }

  /** The arguments of `_get_batch` that stay the same for every batch. */
  datatype BatchQuery = BatchQuery(q: Option<string>, attributes: Option<string>, expand: Option<string>,
                                   batchSize: int, sortColumn: Option<string>, sortOrder: Option<string>)

  /** The `possible_options` of `_get_batch`, in their order. */
  function BatchOptions(b: BatchQuery, start: Value): (o: Q.Options)
    ensures Q.WellFormed(o)
    ensures |o| == 5
    ensures o[0].0 == "q" && o[1].0 == "attrs" && o[2].0 == "num" && o[3].0 == "start" && o[4].0 == "sort"
  {
    [("q", OptStr(b.q)), ("attrs", List([OptStr(b.attributes), OptStr(b.expand)])), ("num", Int(b.batchSize)),
     ("start", start), ("sort", List([OptStr(b.sortColumn), OptStr(b.sortOrder)]))]
  }

  /** A batch request never fails to build: its query is a string or None. */
  lemma BatchOptionsAccepted(base: string, b: BatchQuery, start: Value)
    requires !start.List?
    ensures Q.ApiUrl(base, BatchOptions(b, start)).Ok?
  {
    var o := BatchOptions(b, start);
    Q.OperatorsFail(o);
    assert !Q.AnyRejected(o) by {
      forall i | 0 <= i < |o| ensures !Q.RejectedQuery(o[i]) {
      }
    }
  }

  /** The URL of one batch request. */
  function BatchUrl(base: string, b: BatchQuery, start: Value): string
    requires !start.List?
  {
    BatchOptionsAccepted(base, b, start);
    Q.ApiUrl(base, BatchOptions(b, start)).value
  }

  /** The URL of a batch request, built by the loop of `build_api_url`. */
  method RequestUrl(base: string, b: BatchQuery, start: Value) returns (url: string)
    requires !start.List?
    ensures url == BatchUrl(base, b, start)
  {
    BatchOptionsAccepted(base, b, start);
    var r := Q.BuildApiUrl(base, BatchOptions(b, start));
    url := r.value;
  }

  /** The `start` options of the first `n` batch requests of a read. */
  function Starts(pages: seq<Page>, start: int, n: nat): (starts: seq<Value>)
    requires HasLastPage(pages) && n <= LastPage(pages) + 1
    ensures |starts| == n
    ensures forall j :: 0 <= j < n ==> starts[j] == StartOf(pages, start, j)
  {
    if n == 0 then [] else Starts(pages, start, n - 1) + [StartOf(pages, start, n - 1)]
  }

  /** The URLs of batch requests with the given starts. */
  function UrlsOf(base: string, b: BatchQuery, starts: seq<Value>): (urls: seq<string>)
    requires forall j :: 0 <= j < |starts| ==> !starts[j].List?
    ensures |urls| == |starts|
  {
    if starts == [] then [] else UrlsOf(base, b, starts[..|starts| - 1]) + [BatchUrl(base, b, starts[|starts| - 1])]
  }

  /** The URLs of the first `n` batch requests of a read. */
  function BatchUrls(base: string, b: BatchQuery, pages: seq<Page>, start: int, n: nat): (urls: seq<string>)
    requires HasLastPage(pages) && n <= LastPage(pages) + 1
  {
    UrlsOf(base, b, Starts(pages, start, n))
  }

  /** `_get_batch`'s URL for each start, in order. */
  method RequestUrls(base: string, b: BatchQuery, starts: seq<Value>) returns (urls: seq<string>)
    requires forall j :: 0 <= j < |starts| ==> !starts[j].List?
    ensures urls == UrlsOf(base, b, starts)
  {
    urls := [];
    var i := 0;
    while i < |starts|
      invariant 0 <= i <= |starts|
      invariant urls == UrlsOf(base, b, starts[..i])
    {
      var url := RequestUrl(base, b, starts[i]);
      assert starts[..i + 1][..i] == starts[..i];
      urls := urls + [url];
      i := i + 1;
    }
    assert starts[..i] == starts;
  }

  lemma {:induction false} FetchedPrefix(pages: seq<Page>, m: nat, n: nat)
    requires m <= n <= |pages|
    ensures Fetched(pages, m) <= Fetched(pages, n)
    decreases n - m
  {
    if m < n {
      FetchedPrefix(pages, m, n - 1);
    }
  }

  /** Without `num`, the read requests every page up to the one without a
      next link and keeps all their rows, in order. */
  lemma ReadsAllPages(pages: seq<Page>)
    requires HasLastPage(pages)
    ensures Requests(pages, 0, 0) == LastPage(pages) + 1
    ensures Truncated(Fetched(pages, Requests(pages, 0, 0)), 0) == AllItems(pages)
  {
    RequestsSpec(pages, 0, 0);
  }

  /** With a positive `num`, the read stops as soon as it holds `num` rows,
      or when the rows run out. */
  lemma ReadStopsAtNum(pages: seq<Page>, num: int)
    requires HasLastPage(pages) && num > 0
    ensures var n := Requests(pages, num, 0);
      && (n <= LastPage(pages) ==> |Fetched(pages, n)| >= num)
      && (forall m :: 0 <= m < n ==> |Fetched(pages, m)| < num)
  {
    RequestsSpec(pages, num, 0);
  }

  /** With a positive `num`, the read returns the first `min(num, total)`
      rows of everything the server offers. */
  lemma ReadsFirstRows(pages: seq<Page>, num: int)
    requires HasLastPage(pages) && num > 0
    ensures var all := AllItems(pages);
      Truncated(Fetched(pages, Requests(pages, num, 0)), num) == all[..if num < |all| then num else |all|]
  {
    var n := Requests(pages, num, 0);
    FetchedPrefix(pages, n, LastPage(pages) + 1);
    RequestsStop(pages, num);
    TruncatedPrefix(Fetched(pages, n), AllItems(pages), num);
  }

  /** The read stops early only once it holds `num` rows. */
  lemma RequestsStop(pages: seq<Page>, num: int)
    requires HasLastPage(pages) && num > 0
    ensures var n := Requests(pages, num, 0);
      |Fetched(pages, n)| >= num || Fetched(pages, n) == AllItems(pages)
  {
    RequestsSpec(pages, num, 0);
  }

  /** The first `num` rows of a prefix that holds `num` rows, or is everything. */
  lemma TruncatedPrefix(got: seq<Value>, all: seq<Value>, num: int)
    requires num > 0 && got <= all && (|got| >= num || got == all)
    ensures Truncated(got, num) == all[..if num < |all| then num else |all|]
  {
    if |got| >= num {
      assert got[..num] == all[..num];
    }
  }

  /** A raw read makes exactly one request, unless a negative `num` keeps it
      from making any. */
  lemma RawReadsOnePage(pages: seq<Page>, num: int)
    requires HasLastPage(pages)
    ensures num >= 0 <==> Requests(pages, num, 0) > 0
  {
    RequestsSpec(pages, num, 0);
  }

  /** Without a sort column the read sorts by the id attribute, in the order asked. */
  lemma SortsByIdAttribute(sortColumn: Option<string>, sortOrder: Option<string>, idAttribute: string)
    requires !Truthy(OptStr(sortColumn)) && idAttribute != ""
    ensures Q.ProcessSort(List([OptStr(EffectiveSort(sortColumn, idAttribute)), OptStr(sortOrder)])) ==
      Some(if Truthy(OptStr(sortOrder)) then "sort=" + idAttribute + ":" + sortOrder.value else "sort=" + idAttribute)
  {
  }

  /** What `get` returns. */
  datatype Fetch = Raw(page: Page) | Items(items: seq<Value>)

  /** `items.extend(response['items'])` and the start of the next batch, if
      the page links to one. */
  method TakePage(pages: seq<Page>, num: int, start: int, k: nat, items: seq<Value>)
      returns (items': seq<Value>, batchStart: Value, more: bool)
    requires HasLastPage(pages) && k <= LastPage(pages)
    requires items == Fetched(pages, k) && WantsMore(num, |items|)
    ensures items' == Fetched(pages, k + 1)
    ensures more <==> pages[k].nextStart.Some?
    ensures more ==> k + 1 <= LastPage(pages) && batchStart == StartOf(pages, start, k + 1)
    ensures more ==> Requests(pages, num, k + 1) == Requests(pages, num, k)
    ensures !more ==> Requests(pages, num, k) == k + 1
  {
    var page := pages[k];
    items' := items + page.items;
    more := page.nextStart.Some?;
    if more {
      RequestsStep(pages, num, k);
      batchStart := Str(page.nextStart.value);
    } else {
      batchStart := Int(start);
    }
  }

  /** The request loop of `get`: the rows of every page requested, or the
      first page as it came when `raw` is asked for. */
  method ReadPages(num: int, start: int, raw: bool, pages: seq<Page>)
      returns (items: seq<Value>, starts: seq<Value>, rawPage: Option<Page>)
    requires HasLastPage(pages)
    ensures var n := Requests(pages, num, 0);
      && (rawPage.Some? <==> raw && n > 0)
      && (rawPage.Some? ==> rawPage.value == pages[0] && |starts| == 1)
      && (rawPage.None? ==> items == Fetched(pages, n) && |starts| == n)
    ensures |starts| <= LastPage(pages) + 1
    ensures starts == Starts(pages, start, |starts|)
  {
    ghost var last := LastPage(pages);
    ghost var n := Requests(pages, num, 0);
    var batchStart := Int(start);
    items := [];
    starts := [];
    rawPage := None;
    var k := 0;
    while WantsMore(num, |items|)
      invariant 0 <= k <= last
      invariant items == Fetched(pages, k)
      invariant batchStart == StartOf(pages, start, k)
      invariant Requests(pages, num, k) == n
      invariant raw ==> k == 0
      invariant starts == Starts(pages, start, k)
      decreases last - k
    {
      starts := starts + [batchStart];
      if raw {
        return items, starts, Some(pages[k]);
      }
      var more;
      items, batchStart, more := TakePage(pages, num, start, k, items);
      k := k + 1;
      if !more {
        break;
      }
    }
  }

  // ---------------------------------------------------------------------------
  // Reading back ids

  /** `url.split("/")[-1]`: the id `add` reads from the `Location` header,
      `add_all` from each `href` and `upload_zip` from the answer text. */
  function IdOf(url: string): (id: string)
    ensures '/' !in id
  {
    LastSegmentIsSuffix(url);
    LastSegment(url)
  }

  /** The id the server put at the end of a resource URL is read back. */
  lemma IdOfResource(prefix: string, id: string)
    requires '/' !in id
    ensures IdOf(prefix + "/" + id) == id
  {
    var s := prefix + "/" + id;
    var r := LastSegment(s);
    LastSegmentIsSuffix(s);
    assert forall i :: 0 <= i < |id| ==> s[|s| - |id| + i] == id[i];
    assert s[|s| - |id| - 1] == '/';
    assert |r| <= |id| by {
      assert forall i :: 0 <= i < |r| ==> r[i] == s[|s| - |r| + i];
    }
    assert s[|s| - |id|..] == id;
  }

  /** `add_all`: the ids at the ends of the resources' `href`s, in order. */
  function AddedIds(hrefs: seq<string>): (ids: seq<string>)
    ensures |ids| == |hrefs|
    ensures forall i :: 0 <= i < |hrefs| ==> ids[i] == IdOf(hrefs[i])
  {
    seq(|hrefs|, i requires 0 <= i < |hrefs| => IdOf(hrefs[i]))
  }

  /** `add_all` reads back the ids the server put at the end of each resource's `href`. */
  lemma AddedIdsOfResources(hrefs: seq<string>, prefixes: seq<string>, ids: seq<string>)
    requires |hrefs| == |prefixes| == |ids|
    requires forall i :: 0 <= i < |ids| ==> hrefs[i] == prefixes[i] + "/" + ids[i] && '/' !in ids[i]
    ensures AddedIds(hrefs) == ids
  {
    forall i | 0 <= i < |ids|
      ensures AddedIds(hrefs)[i] == ids[i]
    {
      IdOfResource(prefixes[i], ids[i]);
    }
  }

  // ---------------------------------------------------------------------------
  // Upsert

  /** `id_attr in entity and entity[id_attr] in existing_ids`. */
  predicate IsExisting(entity: Fields, idAttribute: string, existingIds: set<Value>) {
    HasKey(entity, idAttribute) && Get(entity, idAttribute).value in existingIds
  }

  /** The entities `upsert` updates, in input order. */
  function ToUpdate(entities: seq<Fields>, idAttribute: string, existingIds: set<Value>): seq<Fields>
    decreases |entities|
  {
    if entities == [] then []
    else
      var before := ToUpdate(entities[..|entities| - 1], idAttribute, existingIds);
      var e := entities[|entities| - 1];
      if IsExisting(e, idAttribute, existingIds) then before + [e] else before
  }

  /** The entities `upsert` adds, in input order, before their one-to-many
      values are removed. */
  function ToAdd(entities: seq<Fields>, idAttribute: string, existingIds: set<Value>): seq<Fields>
    decreases |entities|
  {
    if entities == [] then []
    else
      var before := ToAdd(entities[..|entities| - 1], idAttribute, existingIds);
      var e := entities[|entities| - 1];
      if IsExisting(e, idAttribute, existingIds) then before else before + [e]
  }

  /** Every entity goes to exactly one of the two lists: to the updates
      exactly when its id is known to the server. */
  lemma {:induction false} UpsertPartition(entities: seq<Fields>, idAttribute: string, existingIds: set<Value>)
    ensures multiset(ToAdd(entities, idAttribute, existingIds)) + multiset(ToUpdate(entities, idAttribute, existingIds))
      == multiset(entities)
    ensures forall e :: e in ToUpdate(entities, idAttribute, existingIds) <==>
      e in entities && IsExisting(e, idAttribute, existingIds)
    ensures forall e :: e in ToAdd(entities, idAttribute, existingIds) <==>
      e in entities && !IsExisting(e, idAttribute, existingIds)
    decreases |entities|
  {
    if entities != [] {
      var init := entities[..|entities| - 1];
      UpsertPartition(init, idAttribute, existingIds);
      assert entities == init + [entities[|entities| - 1]];
    }
  }

  /** With no existing entity, everything is added and nothing updated. */
  lemma {:induction false} UpsertAllNew(entities: seq<Fields>, idAttribute: string, existingIds: set<Value>)
    requires forall i :: 0 <= i < |entities| ==> !IsExisting(entities[i], idAttribute, existingIds)
    ensures ToAdd(entities, idAttribute, existingIds) == entities
    ensures ToUpdate(entities, idAttribute, existingIds) == []
    decreases |entities|
  {
    if entities != [] {
      var init := entities[..|entities| - 1];
      assert forall i :: 0 <= i < |init| ==> init[i] == entities[i];
      UpsertAllNew(init, idAttribute, existingIds);
      assert entities == init + [entities[|entities| - 1]];
    }
  }

  /** When every entity's id exists, everything is updated and nothing added. */
  lemma {:induction false} UpsertAllExisting(entities: seq<Fields>, idAttribute: string, existingIds: set<Value>)
    requires forall i :: 0 <= i < |entities| ==> IsExisting(entities[i], idAttribute, existingIds)
    ensures ToUpdate(entities, idAttribute, existingIds) == entities
    ensures ToAdd(entities, idAttribute, existingIds) == []
    decreases |entities|
  {
    if entities != [] {
      var init := entities[..|entities| - 1];
      assert forall i :: 0 <= i < |init| ==> init[i] == entities[i];
      UpsertAllExisting(init, idAttribute, existingIds);
      assert entities == init + [entities[|entities| - 1]];
    }
  }

  /** `remove_one_to_manys`: every row without the one-to-many attributes. */
  function Stripped(rows: seq<Fields>, attributes: seq<U.AttributeMeta>): (r: seq<Fields>)
    ensures |r| == |rows|
  {
    seq(|rows|, i requires 0 <= i < |rows| => U.WithoutKeys(rows[i], U.OneToManyNames(attributes)))
  }

  /** The two bulk requests `upsert` makes: the adds (`add_all`, a POST) and
      the updates (`update_all`, a PUT), each to the entity's v2 URL. */
  datatype BulkRequest = AddAll(url: string, entities: seq<Fields>) | UpdateAll(url: string, entities: seq<Fields>)

  // ---------------------------------------------------------------------------
  // to_upload_format

  /** An attribute of a referenced entity: its name and its `idAttribute` flag. */
  datatype RefAttribute = RefAttribute(name: string, idAttribute: Value)

  /** An attribute of the entity: its name and, for a reference, the
      attributes of the entity it refers to (`refEntityType`). */
  datatype MetaAttribute = MetaAttribute(name: string, refEntityType: Option<seq<RefAttribute>>)

  /** `ref_attr["data"]["idAttribute"] is True`. */
  predicate IsIdAttribute(r: RefAttribute) {
    r.idAttribute == Bool(true)
  }

  predicate HasIdAttribute(refs: seq<RefAttribute>) {
    exists j :: 0 <= j < |refs| && IsIdAttribute(refs[j])
  }

  /** The name of the last id attribute. */
  function LastIdName(refs: seq<RefAttribute>): (name: string)
    requires HasIdAttribute(refs)
    ensures exists j :: && 0 <= j < |refs| && IsIdAttribute(refs[j]) && refs[j].name == name
                        && forall j' :: j < j' < |refs| ==> !IsIdAttribute(refs[j'])
    decreases |refs|
  {
    var last := refs[|refs| - 1];
    if IsIdAttribute(last) then last.name
    else
      var init := refs[..|refs| - 1];
      assert HasIdAttribute(init) by {
        var j :| 0 <= j < |refs| && IsIdAttribute(refs[j]);
        assert init[j] == refs[j];
      }
      var n := LastIdName(init);
      assert forall j :: 0 <= j < |init| ==> init[j] == refs[j];
      n
  }

  /** The inner loop of `to_upload_format`: each id attribute among `refs`
      in turn becomes the id of attribute `name`. */
  function ScanRefIds(ids: map<string, string>, name: string, refs: seq<RefAttribute>): map<string, string>
    decreases |refs|
  {
    if refs == [] then ids
    else
      var before := ScanRefIds(ids, name, refs[..|refs| - 1]);
      if IsIdAttribute(refs[|refs| - 1]) then before[name := refs[|refs| - 1].name] else before
  }

  /** `ref_ids`: for each reference attribute, the id attribute of the
      entity it refers to, as the outer loop builds it. */
  function RefIdsOf(attrs: seq<MetaAttribute>): map<string, string>
    decreases |attrs|
  {
    if attrs == [] then map[]
    else
      var a := attrs[|attrs| - 1];
      var before := RefIdsOf(attrs[..|attrs| - 1]);
      if a.refEntityType.Some? then ScanRefIds(before, a.name, a.refEntityType.value) else before
  }

  /** The inner loop sets only `name`, and sets it to the last id attribute. */
  lemma {:induction false} ScanRefIdsSpec(ids: map<string, string>, name: string, refs: seq<RefAttribute>)
    ensures var r := ScanRefIds(ids, name, refs);
      && (forall k :: k != name ==> (k in r <==> k in ids) && (k in ids ==> r[k] == ids[k]))
      && (name in r <==> name in ids || HasIdAttribute(refs))
      && (!HasIdAttribute(refs) ==> r == ids)
      && (HasIdAttribute(refs) ==> r[name] == LastIdName(refs))
    decreases |refs|
  {
    if refs != [] {
      var init := refs[..|refs| - 1];
      ScanRefIdsSpec(ids, name, init);
      assert forall j :: 0 <= j < |init| ==> init[j] == refs[j];
      if !IsIdAttribute(refs[|refs| - 1]) {
        assert HasIdAttribute(refs) <==> HasIdAttribute(init) by {
          if HasIdAttribute(refs) {
            var j :| 0 <= j < |refs| && IsIdAttribute(refs[j]);
            assert init[j] == refs[j];
          }
        }
      }
    }
  }

  /** Whether the attribute refers to an entity that has an id attribute. */
  predicate IsReference(a: MetaAttribute) {
    a.refEntityType.Some? && HasIdAttribute(a.refEntityType.value)
  }

  /** An attribute gets an id exactly when some attribute of that name is a
      reference. */
  lemma {:induction false} RefIdsOfHas(attrs: seq<MetaAttribute>, k: string)
    ensures k in RefIdsOf(attrs) <==> exists i :: 0 <= i < |attrs| && attrs[i].name == k && IsReference(attrs[i])
    decreases |attrs|
  {
    if attrs != [] {
      var a := attrs[|attrs| - 1];
      var init := attrs[..|attrs| - 1];
      RefIdsOfHas(init, k);
      if a.refEntityType.Some? {
        ScanRefIdsSpec(RefIdsOf(init), a.name, a.refEntityType.value);
      }
      if exists i :: 0 <= i < |init| && init[i].name == k && IsReference(init[i]) {
        var i :| 0 <= i < |init| && init[i].name == k && IsReference(init[i]);
        assert attrs[i] == init[i];
      }
      if exists i :: 0 <= i < |attrs| && attrs[i].name == k && IsReference(attrs[i]) {
        var i :| 0 <= i < |attrs| && attrs[i].name == k && IsReference(attrs[i]);
        if i < |init| {
          assert init[i] == attrs[i];
        }
      }
    }
  }

  /** The last reference attribute of a name, and its last id attribute, win. */
  lemma {:induction false} RefIdsOfLast(attrs: seq<MetaAttribute>, k: string, i: nat)
    requires i < |attrs| && attrs[i].name == k && IsReference(attrs[i])
    requires forall j :: i < j < |attrs| ==> attrs[j].name != k || !IsReference(attrs[j])
    ensures k in RefIdsOf(attrs) && RefIdsOf(attrs)[k] == LastIdName(attrs[i].refEntityType.value)
    decreases |attrs|
  {
    var a := attrs[|attrs| - 1];
    var init := attrs[..|attrs| - 1];
    if a.refEntityType.Some? {
      ScanRefIdsSpec(RefIdsOf(init), a.name, a.refEntityType.value);
    }
    if i < |init| {
      assert init[i] == attrs[i];
      forall j | i < j < |init| ensures init[j].name != k || !IsReference(init[j]) {
        assert init[j] == attrs[j];
      }
      RefIdsOfLast(init, k, i);
    }
  }

  /** How `to_upload_format` fails: a reference value of an attribute that
      has no id in `ref_ids`, a referenced object without that id (both
      KeyErrors), or a list element that is not an object (a TypeError). */
  datatype UploadError = UnknownReference(attr: string) | MissingId(key: string) | NotAnObject(attr: string)

  /** `ref[ref_ids[attr]]`. */
  function RefId(attr: string, ref: Value, refIds: map<string, string>): (r: Result<Value, UploadError>)
    ensures r.Ok? <==> attr in refIds && ref.Dict? && HasKey(ref.entries, refIds[attr])
    ensures r.Ok? ==> r.value == Get(ref.entries, refIds[attr]).value
    ensures attr !in refIds ==> r == Err(UnknownReference(attr))
  {
    if attr !in refIds then Err(UnknownReference(attr))
    else if !ref.Dict? then Err(NotAnObject(attr))
    else match Get(ref.entries, refIds[attr])
      case None => Err(MissingId(refIds[attr]))
      case Some(v) => Ok(v)
  }

  /** `[ref[ref_ids[attr]] for ref in refs]`: the first failing element fails. */
  function RefIdList(attr: string, refs: seq<Value>, refIds: map<string, string>): (r: Result<seq<Value>, UploadError>)
    ensures r.Ok? <==> forall i :: 0 <= i < |refs| ==> RefId(attr, refs[i], refIds).Ok?
    ensures r.Ok? ==> |r.value| == |refs| && forall i :: 0 <= i < |refs| ==> r.value[i] == RefId(attr, refs[i], refIds).value
    decreases |refs|
  {
    if refs == [] then Ok([])
    else match RefId(attr, refs[0], refIds)
      case Err(e) => Err(e)
      case Ok(v) =>
        match RefIdList(attr, refs[1..], refIds)
        case Err(e) => Err(e)
        case Ok(rest) =>
          assert forall i :: 1 <= i < |refs| ==> refs[i] == refs[1..][i - 1];
          Ok([v] + rest)
  }

  /** The new value of one field, `row[attr]` after the loop body. */
  function NormalizeValue(attr: string, v: Value, refIds: map<string, string>): Result<Value, UploadError> {
    if v.Dict? then RefId(attr, v, refIds)
    else if v.List? && |v.items| > 0 then
      match RefIdList(attr, v.items, refIds)
      case Err(e) => Err(e)
      case Ok(ids) => Ok(List(ids))
    else Ok(v)
  }

  /** An object becomes its id, a non-empty list the list of its elements'
      ids in order, and anything else (an empty list among them) stays; a
      reference without an id attribute fails. */
  lemma NormalizeValueSpec(attr: string, v: Value, refIds: map<string, string>)
    ensures var r := NormalizeValue(attr, v, refIds);
      v.Dict? ==>
        && (r.Ok? <==> attr in refIds && HasKey(v.entries, refIds[attr]))
        && (r.Ok? ==> r.value == Get(v.entries, refIds[attr]).value)
    ensures var r := NormalizeValue(attr, v, refIds);
      v.List? && |v.items| > 0 ==>
        && (r.Ok? <==> attr in refIds && forall i :: 0 <= i < |v.items| ==> v.items[i].Dict? && HasKey(v.items[i].entries, refIds[attr]))
        && (r.Ok? ==>
              && r.value.List? && |r.value.items| == |v.items|
              && forall i :: 0 <= i < |v.items| ==> r.value.items[i] == Get(v.items[i].entries, refIds[attr]).value)
    ensures !v.Dict? && !(v.List? && |v.items| > 0) ==> NormalizeValue(attr, v, refIds) == Ok(v)
    ensures (v.Dict? || (v.List? && |v.items| > 0)) && attr !in refIds ==>
      NormalizeValue(attr, v, refIds) == Err(UnknownReference(attr))
  {
    if v.List? && |v.items| > 0 && attr !in refIds {
      assert RefId(attr, v.items[0], refIds).Err?;
    }
  }

  /** The values of a row normalized in order; the first failing one fails. */
  function NormalizeFields(fs: Fields, refIds: map<string, string>): Result<Fields, UploadError>
    decreases |fs|
  {
    if fs == [] then Ok([])
    else match NormalizeValue(fs[0].key, fs[0].val, refIds)
      case Err(e) => Err(e)
      case Ok(v) =>
        match NormalizeFields(fs[1..], refIds)
        case Err(e) => Err(e)
        case Ok(rest) => Ok([Entry(fs[0].key, v)] + rest)
  }

  /** Normalizing fails exactly when one field fails, and otherwise every
      field keeps its key and place and holds its normalized value. */
  lemma {:induction false} NormalizeFieldsSpec(fs: Fields, refIds: map<string, string>)
    ensures NormalizeFields(fs, refIds).Ok? <==> forall i :: 0 <= i < |fs| ==> NormalizeValue(fs[i].key, fs[i].val, refIds).Ok?
    ensures NormalizeFields(fs, refIds).Ok? ==>
      && |NormalizeFields(fs, refIds).value| == |fs|
      && forall i :: 0 <= i < |fs| ==>
           NormalizeFields(fs, refIds).value[i] == Entry(fs[i].key, NormalizeValue(fs[i].key, fs[i].val, refIds).value)
    decreases |fs|
  {
    if fs != [] {
      NormalizeFieldsSpec(fs[1..], refIds);
      assert forall i :: 1 <= i < |fs| ==> fs[i] == fs[1..][i - 1];
    }
  }

  /** What `to_upload_format` makes of one row. */
  function Normalized(fs: Fields, refIds: map<string, string>): Result<Fields, UploadError> {
    NormalizeFields(RemoveKey(RemoveKey(fs, "_href"), "_meta"), refIds)
  }

  /** The same, as the step of the loop over the rows. */
  function UploadStep(refIds: map<string, string>): Fields -> Result<Fields, UploadError> {
    f => Normalized(f, refIds)
  }

  lemma UploadStepIs(refIds: map<string, string>, f: Fields)
    ensures UploadStep(refIds)(f) == Normalized(f, refIds)
  {
  }

  /** The fields left once `_href` and `_meta` are popped. */
  lemma {:induction false} DataFields(fs: Fields, k: string)
    ensures HasKey(RemoveKey(RemoveKey(fs, "_href"), "_meta"), k) <==> HasKey(fs, k) && k != "_href" && k != "_meta"
  {
    var d1 := RemoveKey(fs, "_href");
    var data := RemoveKey(d1, "_meta");
    if HasKey(fs, k) && k != "_href" && k != "_meta" {
      var i :| 0 <= i < |fs| && fs[i].key == k;
      assert fs[i] in d1;
      assert fs[i] in data;
      var j :| 0 <= j < |data| && data[j] == fs[i];
      assert KeysOf(data)[j] == k;
    }
    if HasKey(data, k) {
      var i :| 0 <= i < |data| && data[i].key == k;
      assert data[i] in d1;
      assert data[i] in fs;
      var j :| 0 <= j < |fs| && fs[j] == data[i];
      assert KeysOf(fs)[j] == k;
    }
  }

  /** A normalized row has no `_href` or `_meta`, keeps every other field in
      its place and holds each field's normalized value. */
  lemma NormalizedRow(fs: Fields, refIds: map<string, string>)
    requires Normalized(fs, refIds).Ok?
    ensures var r := Normalized(fs, refIds).value;
      var data := RemoveKey(RemoveKey(fs, "_href"), "_meta");
      && KeysOf(r) == KeysOf(data)
      && (forall k :: HasKey(r, k) <==> HasKey(fs, k) && k != "_href" && k != "_meta")
      && (forall i :: 0 <= i < |data| ==> NormalizeValue(data[i].key, data[i].val, refIds) == Ok(r[i].val))
  {
    var r := Normalized(fs, refIds).value;
    var data := RemoveKey(RemoveKey(fs, "_href"), "_meta");
    NormalizeFieldsSpec(data, refIds);
    assert KeysOf(r) == KeysOf(data);
    forall k ensures HasKey(r, k) <==> HasKey(fs, k) && k != "_href" && k != "_meta" {
      DataFields(fs, k);
    }
  }

  /** A row normalized twice: the ids of a many-reference are strings, which
      cannot be indexed, so a row object listed twice with such a value fails
      the second time. */
  lemma NormalizeTwiceFails()
    ensures var fs := [Entry("tags", List([Dict([Entry("id", Str("t1"))])]))];
      var refIds := map["tags" := "id"];
      && Normalized(fs, refIds) == Ok([Entry("tags", List([Str("t1")]))])
      && Normalized(Normalized(fs, refIds).value, refIds) == Err(NotAnObject("tags"))
  {
    var refIds := map["tags" := "id"];
    var ref := Dict([Entry("id", Str("t1"))]);
    var fs := [Entry("tags", List([ref]))];
    assert fs[1..] == [];
    assert RemoveKey(RemoveKey(fs, "_href"), "_meta") == fs;
    assert Get(ref.entries, "id") == Some(Str("t1"));
    assert RefId("tags", ref, refIds) == Ok(Str("t1"));
    var ids := RefIdList("tags", [ref], refIds);
    assert [ref][0] == ref;
    assert ids.Ok?;
    assert ids.value == [Str("t1")];
    var once := [Entry("tags", List([Str("t1")]))];
    assert NormalizeValue("tags", List([ref]), refIds) == Ok(List([Str("t1")]));
    NormalizeFieldsSpec(fs, refIds);
    assert NormalizeFields(fs, refIds).value == once;
    assert once[1..] == [];
    assert RemoveKey(RemoveKey(once, "_href"), "_meta") == once;
    assert RefId("tags", Str("t1"), refIds) == Err(NotAnObject("tags"));
    assert RefIdList("tags", [Str("t1")], refIds) == Err(NotAnObject("tags"));
  }

  /** Distinct row objects are each normalized once, from their old content. */
  lemma UploadFormatDistinct(rows: seq<Row>, orig: map<Row, Fields>, refIds: map<string, string>)
    requires forall row :: row in rows ==> row in orig
    requires NoDup(rows)
    ensures var run := RunRows(rows, orig, UploadStep(refIds));
      && (run.Ok? <==> forall i :: 0 <= i < |rows| ==> Normalized(orig[rows[i]], refIds).Ok?)
      && (run.Ok? ==>
            && run.value.Keys == orig.Keys
            && forall i :: 0 <= i < |rows| ==> run.value[rows[i]] == Normalized(orig[rows[i]], refIds).value)
  {
    RunRowsDistinct(rows, orig, UploadStep(refIds));
  }

  /** The first field that fails decides the error of the row. */
  lemma {:induction false} NormalizeFieldsFirstError(fs: Fields, refIds: map<string, string>, i: nat)
    requires i < |fs| && NormalizeValue(fs[i].key, fs[i].val, refIds).Err?
    requires forall j :: 0 <= j < i ==> NormalizeValue(fs[j].key, fs[j].val, refIds).Ok?
    ensures NormalizeFields(fs, refIds) == Err(NormalizeValue(fs[i].key, fs[i].val, refIds).error)
    decreases i
  {
    if i > 0 {
      assert forall j :: 0 <= j < i - 1 ==> fs[1..][j] == fs[j + 1];
      NormalizeFieldsFirstError(fs[1..], refIds, i - 1);
    }
  }

  /** A row whose normalization stopped at field `i`, which fails: the
      fields before it hold their new values, it and the fields after it
      their old ones. */
  predicate NormalizedUpTo(orig: Fields, now: Fields, i: nat, refIds: map<string, string>) {
    && i < |orig| == |now|
    && NormalizeValue(orig[i].key, orig[i].val, refIds).Err?
    && (forall j :: 0 <= j < i ==>
          && NormalizeValue(orig[j].key, orig[j].val, refIds).Ok?
          && now[j] == Entry(orig[j].key, NormalizeValue(orig[j].key, orig[j].val, refIds).value))
    && now[i..] == orig[i..]
  }

  /** `for attr in row: ...`, the values of the row object rewritten in
      place: it raises at the first failing field, after rewriting the
      fields before it. */
  method NormalizeFieldsInPlace(row: Row, refIds: map<string, string>) returns (r: Outcome<UploadError>)
    modifies row
    ensures r.Pass? <==> NormalizeFields(old(row.fields), refIds).Ok?
    ensures r.Pass? ==> row.fields == NormalizeFields(old(row.fields), refIds).value
    ensures r.Fail? ==> NormalizeFields(old(row.fields), refIds) == Err(r.error)
    ensures r.Fail? ==> exists i :: NormalizedUpTo(old(row.fields), row.fields, i, refIds)
  {
    ghost var data := row.fields;
    NormalizeFieldsSpec(data, refIds);
    var i := 0;
    while i < |row.fields|
      invariant 0 <= i <= |row.fields| == |data|
      invariant forall j :: 0 <= j < i ==> NormalizeValue(data[j].key, data[j].val, refIds).Ok?
      invariant forall j :: 0 <= j < i ==> row.fields[j] == Entry(data[j].key, NormalizeValue(data[j].key, data[j].val, refIds).value)
      invariant row.fields[i..] == data[i..]
    {
      var e := row.fields[i];
      assert e == data[i] by { assert row.fields[i..][0] == data[i..][0]; }
      var v := NormalizeValue(e.key, e.val, refIds);
      if v.Err? {
        NormalizeFieldsFirstError(data, refIds, i);
        assert NormalizedUpTo(data, row.fields, i, refIds);
        return Fail(v.error);
      }
      row.fields := row.fields[i := Entry(e.key, v.value)];
      i := i + 1;
      assert row.fields[i..] == data[i..] by {
        assert forall j :: i <= j < |row.fields| ==> row.fields[j] == data[j];
      }
    }
    return Pass;
  }

  /** `row.pop("_href", None); row.pop("_meta", None)` and the loop over the
      row's fields, on the row object itself. */
  method NormalizeRow(row: Row, refIds: map<string, string>) returns (r: Outcome<UploadError>)
    modifies row
    ensures r.Pass? <==> Normalized(old(row.fields), refIds).Ok?
    ensures r.Pass? ==> row.fields == Normalized(old(row.fields), refIds).value
    ensures r.Fail? ==> Normalized(old(row.fields), refIds) == Err(r.error)
    ensures r.Fail? ==> exists i :: NormalizedUpTo(RemoveKey(RemoveKey(old(row.fields), "_href"), "_meta"), row.fields, i, refIds)
  {
    row.fields := RemoveKey(row.fields, "_href");
    row.fields := RemoveKey(row.fields, "_meta");
    r := NormalizeFieldsInPlace(row, refIds);
  }

  /** One pass of the loop over the rows: row `i` normalized in place, as
      the rest of the loop sees it. */
  method NormalizeNext(rows: seq<Row>, i: nat, refIds: map<string, string>, ghost run: Result<map<Row, Fields>, UploadError>)
      returns (r: Outcome<UploadError>)
    requires i < |rows|
    requires run == RunFrom(rows, i, UploadStep(refIds))
    modifies rows[i]
    ensures r.Fail? ==> run == Err(r.error)
    ensures r.Pass? ==> run == RunFrom(rows, i + 1, UploadStep(refIds))
  {
    ghost var before := Snapshot(rows);
    ghost var f0 := rows[i].fields;
    RunRowsAt(rows, i, before, UploadStep(refIds));
    UploadStepIs(refIds, f0);
    assert before[rows[i]] == f0;
    r := NormalizeRow(rows[i], refIds);
    if r.Pass? {
      assert Snapshot(rows) == before[rows[i] := rows[i].fields];
    } else {
      assert Normalized(f0, refIds) == Err(r.error);
    }
  }

  /** The loop of `to_upload_format` over the rows: each row object is
      normalized in place and appended to the result. */
  method NormalizeRows(rows: seq<Row>, refIds: map<string, string>) returns (r: Result<seq<Row>, UploadError>)
    modifies set row | row in rows
    ensures var run := old(RunFrom(rows, 0, UploadStep(refIds)));
      && (r.Ok? <==> run.Ok?)
      && (r.Ok? ==> r.value == rows && Snapshot(rows) == run.value)
      && (r.Err? ==> run == Err(r.error))
  {
    ghost var run := RunFrom(rows, 0, UploadStep(refIds));
    var uploadFormat: seq<Row> := [];
    var i := 0;
    while i < |rows|
      invariant 0 <= i <= |rows|
      invariant uploadFormat == rows[..i]
      invariant run == RunFrom(rows, i, UploadStep(refIds))
    {
      var out := NormalizeNext(rows, i, refIds, run);
      if out.Fail? {
        return Err(out.error);
      }
      TakeOneMore(rows, i);
      uploadFormat := uploadFormat + [rows[i]];
      i := i + 1;
    }
    assert uploadFormat == rows;
    return Ok(uploadFormat);
  }

  /** The loops of `to_upload_format` that build `ref_ids`. */
  method BuildRefIds(attrs: seq<MetaAttribute>) returns (refIds: map<string, string>)
    ensures refIds == RefIdsOf(attrs)
  {
    refIds := map[];
    var i := 0;
    while i < |attrs|
      invariant 0 <= i <= |attrs|
      invariant refIds == RefIdsOf(attrs[..i])
    {
      var a := attrs[i];
      assert attrs[..i + 1][..i] == attrs[..i];
      if a.refEntityType.Some? {
        var refs := a.refEntityType.value;
        ghost var before := refIds;
        var j := 0;
        while j < |refs|
          invariant 0 <= j <= |refs|
          invariant refIds == ScanRefIds(before, a.name, refs[..j])
        {
          assert refs[..j + 1][..j] == refs[..j];
          if IsIdAttribute(refs[j]) {
            refIds := refIds[a.name := refs[j].name];
          }
          j := j + 1;
        }
        assert refs[..j] == refs;
      }
      i := i + 1;
    }
    assert attrs[..i] == attrs;
  }

  // ---------------------------------------------------------------------------
  // Import jobs

  /** One poll of `sys_ImportRun`: its `status` and `message`. */
  datatype ImportRun = ImportRun(status: Value, message: Value)

  predicate Running(run: ImportRun) {
    run.status == Str("RUNNING")
  }

  predicate Finishes(runs: seq<ImportRun>) {
    exists i :: 0 <= i < |runs| && !Running(runs[i])
  }

  /** The index of the first poll that finds the job no longer running. */
  function FirstDone(runs: seq<ImportRun>, k: nat): (j: nat)
    requires k <= |runs| && exists i :: k <= i < |runs| && !Running(runs[i])
    ensures k <= j < |runs| && !Running(runs[j])
    ensures forall i :: k <= i < j ==> Running(runs[i])
    decreases |runs| - k
  {
    if !Running(runs[k]) then k else FirstDone(runs, k + 1)
  }

  /** The `params` of `upload_zip`. */
  function UploadParams(data: A.ImportDataAction, metadata: A.ImportMetadataAction): (params: map<string, string>)
    ensures params.Keys == {"action", "metadataAction"}
    ensures A.DataActionOf(params["action"]) == Some(data)
    ensures A.MetadataActionOf(params["metadataAction"]) == Some(metadata)
  {
    A.DataActionValues(data, data);
    A.MetadataActionValues(metadata, metadata);
    map["action" := A.DataActionValue(data), "metadataAction" := A.MetadataActionValue(metadata)]
  }

  /** The URL `upload_zip` posts the archive to. */
  function UploadUrl(rootUrl: string): string {
    rootUrl + "plugin/importwizard/importFile"
  }

  // ---------------------------------------------------------------------------
  // Reference entity ids of get_meta

  /** `s.rindex(c)`, or None where Python raises a ValueError. */
  function RIndex(s: string, c: char): (r: Option<nat>)
    ensures r.None? <==> c !in s
    ensures r.Some? ==> r.value < |s| && s[r.value] == c && forall i :: r.value < i < |s| ==> s[i] != c
    decreases |s|
  {
    if s == [] then None
    else if s[|s| - 1] == c then Some(|s| - 1)
    else
      var r := RIndex(s[..|s| - 1], c);
      assert forall i :: 0 <= i < |s| - 1 ==> s[..|s| - 1][i] == s[i];
      r
  }

  /** `s.replace(c, "")`. */
  function RemoveChar(s: string, c: char): (r: string)
    ensures c !in r
    ensures c !in s ==> r == s
    decreases |s|
  {
    if s == [] then []
    else (if s[0] == c then [] else [s[0]]) + RemoveChar(s[1..], c)
  }

  /** `ref_url[ref_url.rindex("/"):].replace("/", "")`. */
  function RefEntityId(refUrl: string): Option<string> {
    match RIndex(refUrl, '/')
    case None => None
    case Some(i) => Some(RemoveChar(refUrl[i..], '/'))
  }

  /** After the last `/` comes the last segment. */
  lemma LastSegmentAfter(s: string, i: nat)
    requires i < |s| && s[i] == '/' && forall j :: i < j < |s| ==> s[j] != '/'
    ensures LastSegment(s) == s[i + 1..]
  {
    var seg := LastSegment(s);
    LastSegmentIsSuffix(s);
    assert forall j :: |s| - |seg| <= j < |s| ==> s[j] == seg[j - (|s| - |seg|)];
    assert |seg| < |s| - i;
    assert |seg| >= |s| - i - 1;
  }

  /** Replacing the `/`s of a slice that starts at the last `/` drops just
      that one. */
  lemma StripLeadingSlash(s: string, i: nat)
    requires i < |s| && s[i] == '/' && forall j :: i < j < |s| ==> s[j] != '/'
    ensures RemoveChar(s[i..], '/') == s[i + 1..]
  {
    var tail := s[i + 1..];
    assert '/' !in tail by {
      assert forall j :: 0 <= j < |tail| ==> tail[j] == s[i + 1 + j];
    }
    assert s[i..] == ['/'] + tail;
    assert (['/'] + tail)[1..] == tail;
  }

  /** The slice and replace take the last segment of the URL, as `split`
      does for ids; a URL without `/` raises. */
  lemma RefEntityIdIsLastSegment(refUrl: string)
    ensures '/' in refUrl ==> RefEntityId(refUrl) == Some(IdOf(refUrl))
    ensures '/' !in refUrl <==> RefEntityId(refUrl).None?
  {
    var r := RIndex(refUrl, '/');
    if r.Some? {
      LastSegmentAfter(refUrl, r.value);
      StripLeadingSlash(refUrl, r.value);
    }
  }

  // ---------------------------------------------------------------------------
  // The session

  /** A session: the two base URLs, the token and the headers sent with it. */
  class Session {
    var rootUrl: string
    var apiUrl: string
    var token: Option<string>
    var headers: A.Headers

    /** `Session(url, token)`. */
    constructor (url: string, token: Option<string>)
      ensures (apiUrl, rootUrl) == U.SetUrls(url)
      ensures this.token == token && headers == A.MakeHeaders(token)
    {
      var urls := U.SetUrls(url);
      rootUrl := urls.1;
      apiUrl := urls.0;
      this.token := token;
      headers := A.MakeHeaders(token);
    }

    /** `login`: on success the token the server returned becomes the token
        of the session and its headers are rebuilt from it; an error
        response raises and changes nothing. */
    method Login(reply: Result<string, E.HttpError>, decode: seq<byte> -> Option<Value>) returns (raised: Option<E.Raised>)
      modifies this
      ensures reply.Err? ==> raised == Some(E.RaiseException(reply.error, decode)) && unchanged(this)
      ensures reply.Ok? ==> raised.None? && token == Some(reply.value) && headers == A.MakeHeaders(token)
      ensures rootUrl == old(rootUrl) && apiUrl == old(apiUrl)
    {
      if reply.Err? {
        return Some(E.RaiseException(reply.error, decode));
      }
      token := Some(reply.value);
      headers := A.MakeHeaders(token);
      return None;
    }

    /** `logout`: on success the token is dropped but the headers are left
        as they were, so they still carry the old token. */
    method Logout(reply: Option<E.HttpError>, decode: seq<byte> -> Option<Value>) returns (raised: Option<E.Raised>)
      modifies this
      ensures reply.Some? ==> raised == Some(E.RaiseException(reply.value, decode)) && unchanged(this)
      ensures reply.None? ==> raised.None? && token.None?
      ensures headers == old(headers) && rootUrl == old(rootUrl) && apiUrl == old(apiUrl)
    {
      if reply.Some? {
        return Some(E.RaiseException(reply.value, decode));
      }
      token := None;
      return None;
    }

    /** `get`, with `entity` already URL-quoted, the entity's `idAttribute`
        given, `num` 0 for None, and `pages[j]` the answer to the `j`-th
        batch request, whose URLs are returned beside the result. */
    method Get(entity: string, q: Option<string>, attributes: Option<string>, num: int, batchSize: int, start: int,
               sortColumn: Option<string>, sortOrder: Option<string>, raw: bool, expand: Option<string>,
               idAttribute: string, pages: seq<Page>) returns (result: Fetch, urls: seq<string>)
      requires HasLastPage(pages)
      ensures var n := Requests(pages, num, 0);
        && (raw && n > 0 ==> result == Raw(pages[0]) && |urls| == 1)
        && (!(raw && n > 0) ==> result == Items(Truncated(Fetched(pages, n), num)) && |urls| == n)
      ensures |urls| <= LastPage(pages) + 1
      ensures urls == BatchUrls(apiUrl + "v2/" + entity,
        BatchQuery(q, attributes, expand, batchSize, EffectiveSort(sortColumn, idAttribute), sortOrder), pages, start, |urls|)
    {
      var batch := BatchQuery(q, attributes, expand, batchSize, EffectiveSort(sortColumn, idAttribute), sortOrder);
      var items, starts, rawPage := ReadPages(num, start, raw, pages);
      urls := RequestUrls(apiUrl + "v2/" + entity, batch, starts);
      if rawPage.Some? {
        return Raw(rawPage.value), urls;
      }
      if num != 0 {
        items := Prefix(items, num);
      }
      result := Items(items);
    }

    /** `upsert`, with the entity's `idAttribute` and attributes given and
        `existingIds` the ids the server already holds: the entities split
        by whether their id exists, the adds first and stripped of their
        one-to-many values. */
    method Upsert(entity: string, idAttribute: string, attributes: seq<U.AttributeMeta>, existingIds: set<Value>,
                  entities: seq<Fields>) returns (requests: seq<BulkRequest>)
      ensures requests == [AddAll(apiUrl + "v2/" + entity, Stripped(ToAdd(entities, idAttribute, existingIds), attributes)),
                           UpdateAll(apiUrl + "v2/" + entity, ToUpdate(entities, idAttribute, existingIds))]
    {
      var add: seq<Fields> := [];
      var update: seq<Fields> := [];
      var i := 0;
      while i < |entities|
        invariant 0 <= i <= |entities|
        invariant add == ToAdd(entities[..i], idAttribute, existingIds)
        invariant update == ToUpdate(entities[..i], idAttribute, existingIds)
      {
        var e := entities[i];
        assert entities[..i + 1][..i] == entities[..i];
        if HasKey(e, idAttribute) && PyData.Get(e, idAttribute).value in existingIds {
          update := update + [e];
        } else {
          add := add + [e];
        }
        i := i + 1;
      }
      assert entities[..i] == entities;
      var stripped := U.RemoveOneToManys(add, attributes);
      assert stripped == Stripped(add, attributes);
      requests := [AddAll(apiUrl + "v2/" + entity, stripped), UpdateAll(apiUrl + "v2/" + entity, update)];
    }

    /** `to_upload_format`, with the expanded metadata given: the rows, the
        same objects, each normalized in place in list order. */
    method ToUploadFormat(rows: seq<Row>, attrs: seq<MetaAttribute>) returns (r: Result<seq<Row>, UploadError>)
      modifies set row | row in rows
      ensures var run := RunRows(rows, old(Snapshot(rows)), UploadStep(RefIdsOf(attrs)));
        && (r.Ok? <==> run.Ok?)
        && (r.Ok? ==> r.value == rows && Snapshot(rows) == run.value)
        && (r.Err? ==> run == Err(r.error))
    {
      var refIds := BuildRefIds(attrs);
      assert rows[0..] == rows;
      r := NormalizeRows(rows, refIds);
    }

    /** `_await_import_job`, with `runs[j]` the answer to the `j`-th poll:
        it polls until the job is no longer running and raises with the
        job's message when it failed. */
    method AwaitImportJob(runs: seq<ImportRun>) returns (r: Outcome<E.MolgenisRequestError>, polls: nat)
      requires Finishes(runs)
      ensures polls == FirstDone(runs, 0) + 1
      ensures runs[polls - 1].status == Str("FAILED") ==> r == Fail(E.NewRequestError(runs[polls - 1].message, None))
      ensures runs[polls - 1].status != Str("FAILED") ==> r == Pass
    {
      polls := 0;
      while true
        invariant polls <= FirstDone(runs, 0)
        invariant forall i :: 0 <= i < polls ==> Running(runs[i])
        decreases FirstDone(runs, 0) - polls
      {
        var run := runs[polls];
        polls := polls + 1;
        if run.status == Str("FAILED") {
          return Fail(E.NewRequestError(run.message, None)), polls;
        }
        if run.status != Str("RUNNING") {
          return Pass, polls;
        }
      }
    }
  }
}
