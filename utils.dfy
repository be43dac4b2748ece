/** The helpers of molgenis/utils.py: merging request data, stripping
    one-to-many fields from new rows, deriving the root and API URLs, and the
    rewrite of list values before a table goes into a CSV file. */
module Utils {
  import opened PyData

  // ---------------------------------------------------------------------------
  // merge_two_dicts

  /** `z.update(y)`: every entry of `y`, in order, is assigned into `z`. */
  function Update(z: Fields, y: Fields): (r: Fields)
    decreases |y|
  {
    if y == [] then z else Update(Put(z, y[0].key, y[0].val), y[1..])
  }

  /** `merge_two_dicts(x, y)`: a copy of `x` updated with `y`; `x` itself is a
      value here and cannot change. */
  function MergeTwoDicts(x: Fields, y: Fields): Fields {
    Update(x, y)
  }

  /** Assigning a key keeps the keys of the dict as a prefix, and keeps it a dict. */
  lemma PutKeys(fs: Fields, k: string, v: Value)
    ensures KeysOf(fs) <= KeysOf(Put(fs, k, v))
    ensures forall k' :: HasKey(Put(fs, k, v), k') <==> HasKey(fs, k') || k' == k
    ensures IsDict(fs) ==> IsDict(Put(fs, k, v))
  {
    var r := Put(fs, k, v);
    PutPlaces(fs, k, v);
    if !HasKey(fs, k) {
      assert KeysOf(r) == KeysOf(fs) + [k];
    }
  }

  lemma {:induction false} UpdateKeys(z: Fields, y: Fields)
    ensures KeysOf(z) <= KeysOf(Update(z, y))
    ensures IsDict(z) ==> IsDict(Update(z, y))
    decreases |y|
  {
    if y != [] {
      var z' := Put(z, y[0].key, y[0].val);
      PutKeys(z, y[0].key, y[0].val);
      UpdateKeys(z', y[1..]);
    }
  }

  lemma {:induction false} UpdateHasKey(z: Fields, y: Fields, k: string)
    ensures HasKey(Update(z, y), k) <==> HasKey(z, k) || HasKey(y, k)
    decreases |y|
  {
    if y != [] {
      var z' := Put(z, y[0].key, y[0].val);
      PutGet(z, y[0].key, y[0].val);
      assert HasKey(z', k) <==> Get(z', k).Some?;
      assert HasKey(z, k) <==> Get(z, k).Some?;
      assert KeysOf(y) == [y[0].key] + KeysOf(y[1..]);
      UpdateHasKey(z', y[1..], k);
    }
  }

  lemma {:induction false} UpdateGet(z: Fields, y: Fields, k: string)
    requires IsDict(y)
    ensures Get(Update(z, y), k) == if HasKey(y, k) then Get(y, k) else Get(z, k)
    decreases |y|
  {
    if y != [] {
      var z' := Put(z, y[0].key, y[0].val);
      PutGet(z, y[0].key, y[0].val);
      assert KeysOf(y) == [y[0].key] + KeysOf(y[1..]);
      assert IsDict(y[1..]);
      UpdateGet(z', y[1..], k);
      if k == y[0].key {
        assert !HasKey(y[1..], k);
      }
    }
  }

  /** The merged keys are those of `x` then the new ones of `y`; `y` wins on a
      shared key and `x` keeps the others. */
  lemma MergeTwoDictsSpec(x: Fields, y: Fields)
    requires IsDict(y)
    ensures var z := MergeTwoDicts(x, y);
      && KeysOf(x) <= KeysOf(z)
      && (forall k :: HasKey(z, k) <==> HasKey(x, k) || HasKey(y, k))
      && (forall k :: HasKey(y, k) ==> Get(z, k) == Get(y, k))
      && (forall k :: !HasKey(y, k) ==> Get(z, k) == Get(x, k))
      && (IsDict(x) ==> IsDict(z))
  {
    UpdateKeys(x, y);
    forall k ensures HasKey(Update(x, y), k) <==> HasKey(x, k) || HasKey(y, k) {
      UpdateHasKey(x, y, k);
    }
    forall k ensures Get(Update(x, y), k) == if HasKey(y, k) then Get(y, k) else Get(x, k) {
      UpdateGet(x, y, k);
    }
  }

  // ---------------------------------------------------------------------------
  // remove_one_to_manys

  /** One attribute of `meta["attributes"]`: its name and its `fieldType`. */
  datatype AttributeMeta = AttributeMeta(name: string, fieldType: string)

  const OneToMany := "ONE_TO_MANY"

  /** The names of the one-to-many attributes, in attribute order. */
  function OneToManyNames(attributes: seq<AttributeMeta>): (ns: seq<string>)
    ensures forall n :: n in ns <==> exists a :: a in attributes && a.name == n && a.fieldType == OneToMany
  {
    if attributes == [] then []
    else
      var init, a := attributes[..|attributes| - 1], attributes[|attributes| - 1];
      assert forall b :: b in attributes <==> b in init || b == a;
      OneToManyNames(init) + (if a.fieldType == OneToMany then [a.name] else [])
  }

  /** A row without the entries for the keys in `ns`. */
  function WithoutKeys(fs: Fields, ns: seq<string>): Fields {
    if fs == [] then []
    else (if fs[0].key in ns then [] else [fs[0]]) + WithoutKeys(fs[1..], ns)
  }

  /** The copy keeps exactly the entries whose key is not removed. */
  lemma {:induction false} WithoutKeysMembers(fs: Fields, ns: seq<string>)
    ensures forall e :: e in WithoutKeys(fs, ns) <==> e in fs && e.key !in ns
  {
    if fs != [] {
      WithoutKeysMembers(fs[1..], ns);
      assert fs == [fs[0]] + fs[1..];
    }
  }

  lemma {:induction false} RemoveKeyWithout(fs: Fields, ns: seq<string>, n: string)
    ensures RemoveKey(WithoutKeys(fs, ns), n) == WithoutKeys(fs, ns + [n])
  {
    if fs != [] {
      var e, tail := fs[0], fs[1..];
      var rest := WithoutKeys(tail, ns);
      RemoveKeyWithout(tail, ns, n);
      assert e.key in ns + [n] <==> e.key in ns || e.key == n;
      if e.key in ns {
        assert WithoutKeys(fs, ns) == rest;
        assert WithoutKeys(fs, ns + [n]) == WithoutKeys(tail, ns + [n]);
      } else {
        assert WithoutKeys(fs, ns) == [e] + rest;
        assert ([e] + rest)[0] == e && ([e] + rest)[1..] == rest;
        if e.key == n {
          assert RemoveKey([e] + rest, n) == RemoveKey(rest, n);
          assert WithoutKeys(fs, ns + [n]) == WithoutKeys(tail, ns + [n]);
        } else {
          assert RemoveKey([e] + rest, n) == [e] + RemoveKey(rest, n);
          assert WithoutKeys(fs, ns + [n]) == [e] + WithoutKeys(tail, ns + [n]);
        }
      }
    }
  }

  /** Removing keys leaves every other key with its value. */
  lemma {:induction false} WithoutKeysGet(fs: Fields, ns: seq<string>, k: string)
    ensures Get(WithoutKeys(fs, ns), k) == if k in ns then None else Get(fs, k)
  {
    if fs != [] {
      var e, tail := fs[0], fs[1..];
      var rest := WithoutKeys(tail, ns);
      WithoutKeysGet(tail, ns, k);
      if e.key in ns {
        assert WithoutKeys(fs, ns) == rest;
      } else {
        assert WithoutKeys(fs, ns) == [e] + rest;
        assert ([e] + rest)[0] == e && ([e] + rest)[1..] == rest;
      }
    } else if k in ns {
      assert WithoutKeys(fs, ns) == [];
    }
  }

  /** `remove_one_to_manys(rows, meta)`: a deep copy of the rows, each without
      its one-to-many attributes. */
  method RemoveOneToManys(rows: seq<Fields>, attributes: seq<AttributeMeta>) returns (copied: seq<Fields>)
    ensures |copied| == |rows|
    ensures forall i :: 0 <= i < |rows| ==> copied[i] == WithoutKeys(rows[i], OneToManyNames(attributes))
  {
    var oneToManys: seq<string> := [];
    var a := 0;
    while a < |attributes|
      invariant 0 <= a <= |attributes|
      invariant oneToManys == OneToManyNames(attributes[..a])
    {
      assert attributes[..a + 1][..a] == attributes[..a];
      if attributes[a].fieldType == OneToMany {
        oneToManys := oneToManys + [attributes[a].name];
      }
      a := a + 1;
    }
    assert attributes[..a] == attributes;
    copied := [];
    var i := 0;
    while i < |rows|
      invariant 0 <= i <= |rows|
      invariant |copied| == i
      invariant forall j :: 0 <= j < i ==> copied[j] == WithoutKeys(rows[j], oneToManys)
    {
      var row := RemoveKeys(rows[i], oneToManys);
      copied := copied + [row];
      i := i + 1;
    }
  }

  /** The inner loop of `remove_one_to_manys`: `row.pop(attr, None)` for each name. */
  method RemoveKeys(fs: Fields, ns: seq<string>) returns (row: Fields)
    ensures row == WithoutKeys(fs, ns)
  {
    row := fs;
    WithoutNone(fs);
    assert ns[..0] == [];
    var k := 0;
    while k < |ns|
      invariant 0 <= k <= |ns|
      invariant row == WithoutKeys(fs, ns[..k])
    {
      RemoveKeyWithout(fs, ns[..k], ns[k]);
      assert ns[..k + 1] == ns[..k] + [ns[k]];
      row := RemoveKey(row, ns[k]);
      k := k + 1;
    }
    assert ns[..k] == ns;
  }

  lemma {:induction false} WithoutNone(fs: Fields)
    ensures WithoutKeys(fs, []) == fs
  {
    if fs != [] {
      WithoutNone(fs[1..]);
    }
  }

  /** Rows after `remove_one_to_manys`: no one-to-many attribute is left, any
      other key keeps its value. */
  lemma RemovedRowsSpec(row: Fields, attributes: seq<AttributeMeta>, k: string)
    ensures var r := WithoutKeys(row, OneToManyNames(attributes));
      && (HasKey(r, k) <==> HasKey(row, k) && !exists a :: a in attributes && a.name == k && a.fieldType == OneToMany)
      && ((!exists a :: a in attributes && a.name == k && a.fieldType == OneToMany) ==> Get(r, k) == Get(row, k))
  {
    WithoutKeysGet(row, OneToManyNames(attributes), k);
    assert HasKey(row, k) <==> Get(row, k).Some?;
  }

  // ---------------------------------------------------------------------------
  // set_urls

  /** The characters `rstrip('/api')` strips: a set, not a suffix. */
  const ApiChars: set<char> := {'/', 'a', 'p', 'i'}

  /** `url.rstrip('/').rstrip('/api') + '/'`. */
  function RootUrl(url: string): (root: string)
    ensures |root| >= 1 && root[|root| - 1] == '/'
  {
    RStrip(RStrip(url, {'/'}), ApiChars) + "/"
  }

  /** `set_urls(url)`: the API URL and the root URL, in that order. */
  function SetUrls(url: string): (urls: (string, string))
    ensures urls.0 == urls.1 + "api/"
    ensures urls.1 == RootUrl(url)
  {
    var root := RootUrl(url);
    (root + "api/", root)
  }

  /** A bare server address: empty, or ending in none of the stripped characters. */
  predicate Bare(b: string) {
    b == [] || b[|b| - 1] !in ApiChars
  }

  /** The part of the root URL before its final `/` is bare. */
  lemma RootIsBare(url: string)
    ensures Bare(RootUrl(url)[..|RootUrl(url)| - 1])
  {
    var r := RStrip(RStrip(url, {'/'}), ApiChars);
    assert RootUrl(url)[..|RootUrl(url)| - 1] == r;
  }

  lemma StripBare(b: string)
    requires Bare(b)
    ensures RStrip(RStrip(b, {'/'}), ApiChars) == b
  {
    RStripFixed(b, {'/'});
    RStripFixed(b, ApiChars);
  }

  lemma StripApi(b: string)
    requires Bare(b)
    ensures RStrip(RStrip(b + "/api", {'/'}), ApiChars) == b
  {
    assert (b + "/api")[|b + "/api"| - 1] == 'i';
    RStripFixed(b + "/api", {'/'});
    assert forall i :: 0 <= i < |"/api"| ==> "/api"[i] in ApiChars;
    RStripAppend(b, "/api", ApiChars);
    RStripFixed(b, ApiChars);
  }

  lemma StripSlash(s: string)
    ensures RStrip(s + "/", {'/'}) == RStrip(s, {'/'})
  {
    RStripAppend(s, "/", {'/'});
  }

  /** `b`, `b/`, `b/api` and `b/api/` all give root `b/` and API URL `b/api/`. */
  lemma SetUrlsForms(b: string)
    requires Bare(b)
    ensures SetUrls(b) == (b + "/api/", b + "/")
    ensures SetUrls(b + "/") == (b + "/api/", b + "/")
    ensures SetUrls(b + "/api") == (b + "/api/", b + "/")
    ensures SetUrls(b + "/api/") == (b + "/api/", b + "/")
  {
    assert b + "/" + "api/" == b + "/api/";
    StripBare(b);
    StripSlash(b);
    StripApi(b);
    assert b + "/api/" == (b + "/api") + "/";
    StripSlash(b + "/api");
  }

  /** Feeding either resulting URL back in gives the same pair. */
  lemma SetUrlsIdempotent(url: string)
    ensures SetUrls(SetUrls(url).1) == SetUrls(url)
    ensures SetUrls(SetUrls(url).0) == SetUrls(url)
  {
    var root := RootUrl(url);
    var b := root[..|root| - 1];
    RootIsBare(url);
    assert root == b + "/";
    assert SetUrls(url).0 == b + "/" + "api/" == b + "/api/";
    assert SetUrls(url) == (b + "/api/", b + "/");
    SetUrlsForms(b);
    assert SetUrls(SetUrls(url).0) == SetUrls(b + "/api/");
  }

  /** Stripping the characters of a set never eats into a prefix that does
      not end in one of them. */
  lemma RStripKeeps(b: string, t: string, chars: set<char>)
    requires b == [] || b[|b| - 1] !in chars
    ensures |b| <= |RStrip(b + t, chars)|
    ensures RStrip(b + t, chars) == b + t[..|RStrip(b + t, chars)| - |b|]
  {
    var r := RStrip(b + t, chars);
    if b != [] {
      assert (b + t)[|b| - 1] == b[|b| - 1];
    }
    assert r == (b + t)[..|r|];
  }

  /** The stripping is by characters, not by the suffix `/api`: any tail of
      `/`, `a`, `p` and `i` goes, so `host/wiki` gives the root `host/wik/`. */
  lemma SetUrlsStripsCharacters(b: string, t: string)
    requires Bare(b)
    requires forall i :: 0 <= i < |t| ==> t[i] in ApiChars
    ensures SetUrls(b + t) == (b + "/api/", b + "/")
  {
    RStripKeeps(b, t, {'/'});
    var r := RStrip(b + t, {'/'});
    var m := |r| - |b|;
    assert forall i :: 0 <= i < |t[..m]| ==> t[..m][i] in ApiChars;
    RStripAppend(b, t[..m], ApiChars);
    RStripFixed(b, ApiChars);
    ApiUnderRoot(b);
  }

  lemma ApiUnderRoot(b: string)
    ensures b + "/" + "api/" == b + "/api/"
  {
    assert (b + "/" + "api/")[|b|..] == "/api/";
  }

  lemma WikiExample()
    ensures SetUrls("host/wiki") == ("host/wik/api/", "host/wik/")
  {
    assert "host/wiki" == "host/wik" + "i";
    assert "host/wik"[7] == 'k' && "i"[0] == 'i';
    SetUrlsStripsCharacters("host/wik", "i");
    assert "host/wik" + "/api/" == "host/wik/api/" && "host/wik" + "/" == "host/wik/";
  }

  // ---------------------------------------------------------------------------
  // The row rewrite of create_csv

  /** `",".join(value)` raises a TypeError for an item that is not a string. */
  datatype JoinError = NonStringItem(key: string)

  predicate AllStrings(items: seq<Value>) {
    forall i :: 0 <= i < |items| ==> items[i].Str?
  }

  function Strings(items: seq<Value>): (ss: seq<string>)
    requires AllStrings(items)
    ensures |ss| == |items| && forall i :: 0 <= i < |items| ==> ss[i] == items[i].s
  {
    seq(|items|, i requires 0 <= i < |items| => items[i].s)
  }

  /** The new value of one field: a list becomes its items joined by `,`. */
  function JoinValue(key: string, v: Value): (r: Result<Value, JoinError>)
    ensures r.Err? <==> v.List? && !AllStrings(v.items)
    ensures r.Ok? && !v.List? ==> r.value == v
    ensures r.Ok? && v.List? ==> r.value == Str(Join(Strings(v.items), ","))
  {
    if !v.List? then Ok(v)
    else if AllStrings(v.items) then Ok(Str(Join(Strings(v.items), ",")))
    else Err(NonStringItem(key))
  }

  /** Every field of a row rewritten in order; the first bad list fails. */
  function JoinLists(fs: Fields): (r: Result<Fields, JoinError>)
    ensures r.Ok? ==> |r.value| == |fs|
    ensures r.Ok? <==> forall i :: 0 <= i < |fs| ==> JoinValue(fs[i].key, fs[i].val).Ok?
    ensures r.Ok? ==> forall i :: 0 <= i < |fs| ==>
      r.value[i] == Entry(fs[i].key, JoinValue(fs[i].key, fs[i].val).value)
    decreases |fs|
  {
    if fs == [] then Ok([])
    else match JoinValue(fs[0].key, fs[0].val)
      case Err(e) => Err(e)
      case Ok(v) =>
        match JoinLists(fs[1..])
        case Err(e) => Err(e)
        case Ok(rest) =>
          assert forall i :: 1 <= i < |fs| ==> fs[i] == fs[1..][i - 1];
          Ok([Entry(fs[0].key, v)] + rest)
  }

  /** Rewriting keeps the keys, and a rewritten row holds no list, so a
      second rewrite changes nothing. */
  lemma JoinListsIdempotent(fs: Fields)
    requires JoinLists(fs).Ok?
    ensures KeysOf(JoinLists(fs).value) == KeysOf(fs)
    ensures forall i :: 0 <= i < |fs| ==> !JoinLists(fs).value[i].val.List?
    ensures JoinLists(JoinLists(fs).value) == JoinLists(fs)
  {
    var r := JoinLists(fs).value;
    forall i | 0 <= i < |r| ensures JoinValue(r[i].key, r[i].val) == Ok(r[i].val) {
      assert r[i].val == JoinValue(fs[i].key, fs[i].val).value;
    }
    assert JoinLists(r).value == r;
  }

  /** The first field that fails decides the error of the row. */
  lemma {:induction false} JoinListsFirstError(fs: Fields, i: nat)
    requires i < |fs| && JoinValue(fs[i].key, fs[i].val).Err?
    requires forall j :: 0 <= j < i ==> JoinValue(fs[j].key, fs[j].val).Ok?
    ensures JoinLists(fs) == Err(JoinValue(fs[i].key, fs[i].val).error)
    decreases i
  {
    if i > 0 {
      assert forall j :: 0 <= j < i - 1 ==> fs[1..][j] == fs[j + 1];
      JoinListsFirstError(fs[1..], i - 1);
    }
  }

  /** A row whose rewrite stopped at field `i`, which fails: the fields
      before it hold their new values, it and the fields after it their old
      ones. */
  predicate JoinedUpTo(orig: Fields, now: Fields, i: nat) {
    && i < |orig| == |now|
    && JoinValue(orig[i].key, orig[i].val).Err?
    && (forall j :: 0 <= j < i ==>
          JoinValue(orig[j].key, orig[j].val).Ok? && now[j] == Entry(orig[j].key, JoinValue(orig[j].key, orig[j].val).value))
    && now[i..] == orig[i..]
  }

  /** `for key, value in row.items(): if list: row[key] = ",".join(value)`,
      on the row object itself: it raises at the first list with a
      non-string item, after rewriting the fields before it. */
  method JoinRowLists(row: Row) returns (r: Outcome<JoinError>)
    modifies row
    ensures r.Pass? <==> JoinLists(old(row.fields)).Ok?
    ensures r.Pass? ==> row.fields == JoinLists(old(row.fields)).value
    ensures r.Fail? ==> JoinLists(old(row.fields)) == Err(r.error)
    ensures r.Fail? ==> exists i :: JoinedUpTo(old(row.fields), row.fields, i)
  {
    ghost var orig := row.fields;
    var i := 0;
    while i < |row.fields|
      invariant 0 <= i <= |row.fields| == |orig|
      invariant forall j :: 0 <= j < i ==> JoinValue(orig[j].key, orig[j].val).Ok?
      invariant forall j :: 0 <= j < i ==> row.fields[j] == Entry(orig[j].key, JoinValue(orig[j].key, orig[j].val).value)
      invariant row.fields[i..] == orig[i..]
    {
      var e := row.fields[i];
      assert e == orig[i] by { assert row.fields[i..][0] == orig[i..][0]; }
      var v := JoinValue(e.key, e.val);
      if v.Err? {
        JoinListsFirstError(orig, i);
        assert JoinedUpTo(orig, row.fields, i);
        return Fail(v.error);
      }
      row.fields := row.fields[i := Entry(e.key, v.value)];
      i := i + 1;
      assert row.fields[i..] == orig[i..] by {
        assert forall j :: i <= j < |row.fields| ==> row.fields[j] == orig[j];
      }
    }
    assert row.fields == JoinLists(orig).value;
    return Pass;
  }

  /** The loop of `create_csv` over the caller's rows, each rewritten in
      place before it is written (the writing itself is not modelled). */
  method RewriteTable(table: seq<Row>) returns (r: Outcome<JoinError>)
    modifies set row | row in table
    ensures var run := RunRows(table, old(Snapshot(table)), JoinLists);
      && (r.Pass? <==> run.Ok?)
      && (r.Pass? ==> Snapshot(table) == run.value)
      && (r.Fail? ==> run == Err(r.error))
  {
    assert table[0..] == table;
    ghost var run := RunFrom(table, 0, JoinLists);
    var i := 0;
    while i < |table|
      invariant 0 <= i <= |table|
      invariant run == RunFrom(table, i, JoinLists)
    {
      var out := RewriteNext(table, i, run);
      if out.Fail? {
        return Fail(out.error);
      }
      i := i + 1;
    }
    return Pass;
  }

  /** One pass of that loop: row `i` rewritten in place, as the rest of the
      loop sees it. */
  method RewriteNext(table: seq<Row>, i: nat, ghost run: Result<map<Row, Fields>, JoinError>) returns (r: Outcome<JoinError>)
    requires i < |table|
    requires run == RunFrom(table, i, JoinLists)
    modifies table[i]
    ensures r.Fail? ==> run == Err(r.error)
    ensures r.Pass? ==> run == RunFrom(table, i + 1, JoinLists)
  {
    ghost var before := Snapshot(table);
    RunRowsAt(table, i, before, JoinLists);
    r := JoinRowLists(table[i]);
    if r.Pass? {
      assert Snapshot(table) == before[table[i] := table[i].fields];
    }
  }

  /** The rewrite is idempotent, so a row object that occurs several times in
      the table is still rewritten as if once; the table fails exactly when
      one of its rows holds a list with a non-string item. */
  lemma RewriteTableOnce(table: seq<Row>, orig: map<Row, Fields>)
    requires forall row :: row in table ==> row in orig
    ensures RunRows(table, orig, JoinLists).Ok? <==> forall i :: 0 <= i < |table| ==> JoinLists(orig[table[i]]).Ok?
    ensures RunRows(table, orig, JoinLists).Ok? ==>
      && RunRows(table, orig, JoinLists).value.Keys == orig.Keys
      && forall i :: 0 <= i < |table| ==> RunRows(table, orig, JoinLists).value[table[i]] == JoinLists(orig[table[i]]).value
  {
    forall f | JoinLists(f).Ok? ensures JoinLists(JoinLists(f).value) == JoinLists(f) {
      JoinListsIdempotent(f);
    }
    RunRowsIdempotent(table, orig, JoinLists, orig);
  }
}
