/** The helpers of the EMX2 client (molgenis/emx2/utils.py): trimming a URL
    and rendering a list of rows as CSV text. */
module Emx2Utils {
  import opened PyData

  // ---------------------------------------------------------------------------
  // cleanUrl

  predicate EndsWithSlash(url: string) {
    |url| > 0 && url[|url| - 1] == '/'
  }

  /** `cleanUrl(url)`: `url[0:len(url)-1] if url[-1:] == '/' else url`. */
  function CleanUrl(url: string): string {
    if EndsWithSlash(url) then url[..|url| - 1] else url
  }

  /** Exactly one trailing `/` goes: cleaning undoes appending a `/`, and a
      URL without a trailing `/` (the empty one among them) stays. */
  lemma CleanUrlSpec(url: string)
    ensures CleanUrl(url + "/") == url
    ensures !EndsWithSlash(url) ==> CleanUrl(url) == url
    ensures EndsWithSlash(url) ==> CleanUrl(url) + "/" == url
  {
    assert (url + "/")[..|url|] == url;
  }

  /** Cleaning is not idempotent: of two trailing slashes only one goes. */
  lemma CleanUrlTwice()
    ensures CleanUrl("a//") == "a/"
    ensures CleanUrl(CleanUrl("a//")) == "a"
  {
    assert "a//"[..2] == "a/";
    assert "a/"[..1] == "a";
  }

  // ---------------------------------------------------------------------------
  // The key set

  /** The keys of every row, row after row, duplicates included. */
  function AllKeys(rows: seq<Fields>): seq<string>
    decreases |rows|
  {
    if rows == [] then [] else AllKeys(rows[..|rows| - 1]) + KeysOf(rows[|rows| - 1])
  }

  /** A key is among all keys exactly when some row has it. */
  lemma {:induction false} AllKeysSpec(rows: seq<Fields>)
    ensures forall k :: k in AllKeys(rows) <==> exists i :: 0 <= i < |rows| && HasKey(rows[i], k)
    decreases |rows|
  {
    if rows != [] {
      var init := rows[..|rows| - 1];
      AllKeysSpec(init);
      assert forall i :: 0 <= i < |init| ==> init[i] == rows[i];
    }
  }

  /** The key set `createKeySet` builds: every key once, at its first appearance. */
  function KeySet(rows: seq<Fields>): seq<string> {
    Dedup(AllKeys(rows))
  }

  /** The index of the first `x` in `s`. */
  function FirstIndex(s: seq<string>, x: string): (i: nat)
    requires x in s
    ensures i < |s| && s[i] == x
    decreases |s|
  {
    if s[0] == x then 0 else FirstIndex(s[1..], x) + 1
  }

  /** No earlier element is `x`. */
  lemma {:induction false} FirstIndexIsFirst(s: seq<string>, x: string)
    requires x in s
    ensures forall j :: 0 <= j < FirstIndex(s, x) ==> s[j] != x
    decreases |s|
  {
    if s[0] != x {
      FirstIndexIsFirst(s[1..], x);
      assert forall j :: 1 <= j < |s| ==> s[j] == s[1..][j - 1];
    }
  }

  lemma {:induction false} FirstIndexSnoc(s: seq<string>, x: string, y: string)
    requires y in s
    ensures FirstIndex(s + [x], y) == FirstIndex(s, y)
    decreases |s|
  {
    if s[0] != y {
      assert (s + [x])[1..] == s[1..] + [x];
      FirstIndexSnoc(s[1..], x, y);
    }
  }

  /** `d` lists elements of `s` in the order of their first appearance in `s`. */
  predicate FirstAppearanceOrder(d: seq<string>, s: seq<string>)
    requires forall y :: y in d ==> y in s
  {
    forall i, j :: 0 <= i < j < |d| ==> FirstIndex(s, d[i]) < FirstIndex(s, d[j])
  }

  /** Dedup keeps the elements in the order of their first appearance. */
  lemma {:induction false} DedupOrder(s: seq<string>)
    ensures FirstAppearanceOrder(Dedup(s), s)
    decreases |s|
  {
    if s != [] {
      var init := s[..|s| - 1];
      assert s == init + [s[|s| - 1]];
      DedupOrder(init);
      DedupOrderSnoc(init, s[|s| - 1]);
    }
  }

  lemma DedupOrderSnoc(init: seq<string>, x: string)
    requires FirstAppearanceOrder(Dedup(init), init)
    ensures FirstAppearanceOrder(Dedup(init + [x]), init + [x])
  {
    DedupSnoc(init, x);
    if x in init {
      OrderExtend(Dedup(init), init, x);
    } else {
      OrderAppend(Dedup(init), init, x);
    }
  }

  /** Appending to `s` leaves the first appearances of its elements. */
  lemma OrderExtend(d: seq<string>, s: seq<string>, x: string)
    requires forall y :: y in d ==> y in s
    requires FirstAppearanceOrder(d, s)
    ensures FirstAppearanceOrder(d, s + [x])
  {
    forall i | 0 <= i < |d| ensures FirstIndex(s + [x], d[i]) == FirstIndex(s, d[i]) {
      FirstIndexSnoc(s, x, d[i]);
    }
  }

  /** A new element appears first after all of `s`. */
  lemma OrderAppend(d: seq<string>, s: seq<string>, x: string)
    requires forall y :: y in d ==> y in s
    requires x !in s
    requires FirstAppearanceOrder(d, s)
    ensures FirstAppearanceOrder(d + [x], s + [x])
  {
    var e := d + [x];
    OrderExtend(d, s, x);
    assert FirstIndex(s + [x], x) == |s| by {
      assert forall j :: 0 <= j < |s| ==> (s + [x])[j] == s[j];
    }
    forall i | 0 <= i < |d| ensures FirstIndex(s + [x], e[i]) < |s| {
      assert e[i] == d[i];
      FirstIndexSnoc(s, x, d[i]);
    }
    forall i, j | 0 <= i < j < |e| ensures FirstIndex(s + [x], e[i]) < FirstIndex(s + [x], e[j]) {
      if j < |d| {
        assert e[i] == d[i] && e[j] == d[j];
      }
    }
  }

  /** The key set has no duplicates, holds every key of every row and no
      other, and lists the keys in order of first appearance. */
  lemma KeySetSpec(rows: seq<Fields>)
    ensures NoDup(KeySet(rows))
    ensures forall k :: k in KeySet(rows) <==> exists i :: 0 <= i < |rows| && HasKey(rows[i], k)
    ensures FirstAppearanceOrder(KeySet(rows), AllKeys(rows))
  {
    AllKeysSpec(rows);
    DedupOrder(AllKeys(rows));
  }

  // ---------------------------------------------------------------------------
  // Missing keys

  /** `for key in keyset: if key not in row.keys(): row[key] = None`. */
  function FillMissing(fs: Fields, keys: seq<string>): Fields
    decreases |keys|
  {
    if keys == [] then fs
    else
      var before := FillMissing(fs, keys[..|keys| - 1]);
      var k := keys[|keys| - 1];
      if HasKey(before, k) then before else before + [Entry(k, Null)]
  }

  predicate HasKeys(fs: Fields, keys: seq<string>) {
    forall j :: 0 <= j < |keys| ==> HasKey(fs, keys[j])
  }

  /** Every row has every key. */
  predicate AllHaveKeys(rows: seq<Fields>, keys: seq<string>) {
    forall i :: 0 <= i < |rows| ==> HasKeys(rows[i], keys)
  }

  /** Filling keeps every entry of the row in its place, adds each missing
      key once with the value None, and leaves the row with every key. */
  lemma {:induction false} FillMissingSpec(fs: Fields, keys: seq<string>)
    ensures fs <= FillMissing(fs, keys)
    ensures forall k :: HasKey(FillMissing(fs, keys), k) <==> HasKey(fs, k) || k in keys
    ensures forall i :: |fs| <= i < |FillMissing(fs, keys)| ==> FillMissing(fs, keys)[i].val == Null
    ensures HasKeys(FillMissing(fs, keys), keys)
    decreases |keys|
  {
    if keys != [] {
      var init := keys[..|keys| - 1];
      var k := keys[|keys| - 1];
      FillMissingSpec(fs, init);
      var before := FillMissing(fs, init);
      assert keys == init + [k];
      assert HasKey(before + [Entry(k, Null)], k) by {
        assert KeysOf(before + [Entry(k, Null)])[|before|] == k;
      }
      forall k' | HasKey(before, k') ensures HasKey(before + [Entry(k, Null)], k') {
        var i :| 0 <= i < |before| && KeysOf(before)[i] == k';
        assert KeysOf(before + [Entry(k, Null)])[i] == k';
      }
      forall k' | HasKey(before + [Entry(k, Null)], k') ensures HasKey(before, k') || k' == k {
        assert KeysOf(before + [Entry(k, Null)]) == KeysOf(before) + [k];
      }
    }
  }

  /** A row that already has every key is left as it is. */
  lemma {:induction false} FillMissingComplete(fs: Fields, keys: seq<string>)
    requires HasKeys(fs, keys)
    ensures FillMissing(fs, keys) == fs
    decreases |keys|
  {
    if keys != [] {
      var init := keys[..|keys| - 1];
      assert HasKeys(fs, init) by {
        assert forall j :: 0 <= j < |init| ==> init[j] == keys[j];
      }
      FillMissingComplete(fs, init);
    }
  }

  /** Filling twice is filling once. */
  lemma FillMissingIdempotent(fs: Fields, keys: seq<string>)
    ensures FillMissing(FillMissing(fs, keys), keys) == FillMissing(fs, keys)
  {
    FillMissingSpec(fs, keys);
    FillMissingComplete(FillMissing(fs, keys), keys);
  }

  /** `applyMissingKeys` fails only by iterating a key set that was never built. */
  datatype CsvError = KeySetNotBuilt

  /** The change `applyMissingKeys` makes to one row. */
  function FillStep(keys: seq<string>): Fields -> Result<Fields, CsvError> {
    f => Ok(FillMissing(f, keys))
  }

  /** Filling is idempotent, so each row object ends up filled once, however
      often it occurs in the data. */
  lemma MissingKeysApplied(rows: seq<Row>, orig: map<Row, Fields>, keys: seq<string>)
    requires forall row :: row in rows ==> row in orig
    ensures var run := RunRows(rows, orig, FillStep(keys));
      && run.Ok?
      && run.value.Keys == orig.Keys
      && forall i :: 0 <= i < |rows| ==> run.value[rows[i]] == FillMissing(orig[rows[i]], keys)
  {
    forall f ensures FillStep(keys)(f) == Ok(FillMissing(f, keys)) {
    }
    forall f | FillStep(keys)(f).Ok? ensures FillStep(keys)(FillStep(keys)(f).value) == FillStep(keys)(f) {
      FillMissingIdempotent(f, keys);
    }
    RunRowsIdempotent(rows, orig, FillStep(keys), orig);
  }

  /** Every row, filled on its own. */
  function FillAll(rows: seq<Fields>, keys: seq<string>): (r: seq<Fields>)
    ensures |r| == |rows|
  {
    seq(|rows|, i requires 0 <= i < |rows| => FillMissing(rows[i], keys))
  }

  /** After filling, every row has every key. */
  lemma FillAllHasKeys(rows: seq<Fields>, keys: seq<string>)
    ensures AllHaveKeys(FillAll(rows, keys), keys)
  {
    forall i | 0 <= i < |rows| ensures HasKeys(FillAll(rows, keys)[i], keys) {
      FillMissingSpec(rows[i], keys);
    }
  }

  // ---------------------------------------------------------------------------
  // The CSV text

  /** `row[key]` for each key, in key-set order. */
  function RowValues(fs: Fields, keys: seq<string>): (vs: seq<Value>)
    requires HasKeys(fs, keys)
    ensures |vs| == |keys|
  {
    seq(|keys|, j requires 0 <= j < |keys| => Get(fs, keys[j]).value)
  }

  /** `map(str, values)`. */
  function Strs(vs: seq<Value>): (ss: seq<string>)
    ensures |ss| == |vs|
  {
    seq(|vs|, j requires 0 <= j < |vs| => ToStr(vs[j]))
  }

  /** One line of the body: the row's values in key-set order, joined by `,`. */
  function RowLine(fs: Fields, keys: seq<string>): string
    requires HasKeys(fs, keys)
  {
    Join(Strs(RowValues(fs, keys)), ",")
  }

  function BodyLines(rows: seq<Fields>, keys: seq<string>): (lines: seq<string>)
    requires AllHaveKeys(rows, keys)
    ensures |lines| == |rows|
  {
    seq(|rows|, i requires 0 <= i < |rows| => RowLine(rows[i], keys))
  }

  /** `f"{header}\n{body}\n"`. */
  function CsvText(keys: seq<string>, rows: seq<Fields>): string
    requires AllHaveKeys(rows, keys)
  {
    Join(keys, ",") + "\n" + Join(BodyLines(rows, keys), "\n") + "\n"
  }

  lemma JoinThenEmpty(parts: seq<string>, sep: string)
    requires |parts| >= 1
    ensures Join(parts + [""], sep) == Join(parts, sep) + sep
  {
    JoinLast(parts + [""], sep);
    assert (parts + [""])[..|parts|] == parts;
  }

  /** Text without a `,` or a line break. */
  predicate PlainCell(s: string) {
    ',' !in s && '\n' !in s
  }

  /** A line of plain cells splits back into the cells and has no line break. */
  lemma RowLineSplits(fs: Fields, keys: seq<string>)
    requires HasKeys(fs, keys)
    requires forall j :: 0 <= j < |keys| ==> PlainCell(Strs(RowValues(fs, keys))[j])
    ensures |keys| > 0 ==> Split(RowLine(fs, keys), ',') == Strs(RowValues(fs, keys))
    ensures '\n' !in RowLine(fs, keys)
  {
    var ss := Strs(RowValues(fs, keys));
    if |keys| > 0 {
      SplitJoin(ss, ',');
    }
    NoSepInJoin(ss, ",", '\n');
  }

  /** The text is the header, the lines and an empty last line, joined by
      line breaks. */
  lemma CsvTextParts(keys: seq<string>, rows: seq<Fields>)
    requires |rows| > 0
    requires AllHaveKeys(rows, keys)
    ensures CsvText(keys, rows) == Join([Join(keys, ",")] + BodyLines(rows, keys) + [""], "\n")
  {
    var header := Join(keys, ",");
    var lines := BodyLines(rows, keys);
    JoinThenEmpty([header] + lines, "\n");
    assert ([header] + lines)[1..] == lines;
  }

  /** When no key and no value holds a `,` or a line break, the text splits
      back into the header, one line per row in data order and a final empty
      line, and each line splits back into the row's values in key order. */
  lemma CsvTextLines(keys: seq<string>, rows: seq<Fields>)
    requires |rows| > 0 && |keys| > 0
    requires AllHaveKeys(rows, keys)
    requires forall j :: 0 <= j < |keys| ==> PlainCell(keys[j])
    requires forall i :: 0 <= i < |rows| ==> forall j :: 0 <= j < |keys| ==> PlainCell(Strs(RowValues(rows[i], keys))[j])
    ensures Split(CsvText(keys, rows), '\n') == [Join(keys, ",")] + BodyLines(rows, keys) + [""]
    ensures Split(Join(keys, ","), ',') == keys
    ensures forall i :: 0 <= i < |rows| ==> Split(BodyLines(rows, keys)[i], ',') == Strs(RowValues(rows[i], keys))
  {
    var parts := [Join(keys, ",")] + BodyLines(rows, keys) + [""];
    CsvPartsPlain(keys, rows);
    CsvTextParts(keys, rows);
    assert "\n" == ['\n'] && "," == [','];
    SplitJoin(parts, '\n');
    SplitJoin(keys, ',');
    forall i | 0 <= i < |rows| ensures Split(BodyLines(rows, keys)[i], ',') == Strs(RowValues(rows[i], keys)) {
      RowLineSplits(rows[i], keys);
    }
  }

  /** No line of the text holds a line break. */
  lemma CsvPartsPlain(keys: seq<string>, rows: seq<Fields>)
    requires AllHaveKeys(rows, keys)
    requires forall j :: 0 <= j < |keys| ==> PlainCell(keys[j])
    requires forall i :: 0 <= i < |rows| ==> forall j :: 0 <= j < |keys| ==> PlainCell(Strs(RowValues(rows[i], keys))[j])
    ensures var parts := [Join(keys, ",")] + BodyLines(rows, keys) + [""];
      forall i :: 0 <= i < |parts| ==> '\n' !in parts[i]
  {
    var lines := BodyLines(rows, keys);
    NoSepInJoin(keys, ",", '\n');
    forall i | 0 <= i < |rows| ensures '\n' !in lines[i] {
      var ss := Strs(RowValues(rows[i], keys));
      assert forall j :: 0 <= j < |ss| ==> '\n' !in ss[j];
      NoSepInJoin(ss, ",", '\n');
    }
    FramedWithout(Join(keys, ","), lines, '\n');
  }

  /** A header and lines without `c`, and an empty last line. */
  lemma FramedWithout(header: string, lines: seq<string>, c: char)
    requires c !in header && forall i :: 0 <= i < |lines| ==> c !in lines[i]
    ensures var parts := [header] + lines + [""];
      forall i :: 0 <= i < |parts| ==> c !in parts[i]
  {
    var parts := [header] + lines + [""];
    forall i | 0 <= i < |parts| ensures c !in parts[i] {
      if 0 < i < |parts| - 1 {
        assert parts[i] == lines[i - 1];
      }
    }
  }

  /** A join of parts without `c`, with a separator without `c`, has no `c`. */
  lemma {:induction false} NoSepInJoin(parts: seq<string>, sep: string, c: char)
    requires c !in sep
    requires forall i :: 0 <= i < |parts| ==> c !in parts[i]
    ensures c !in Join(parts, sep)
    decreases |parts|
  {
    if |parts| > 1 {
      NoSepInJoin(parts[1..], sep, c);
      assert forall i :: 0 <= i < |parts[1..]| ==> parts[1..][i] == parts[i + 1];
    }
  }

  // ---------------------------------------------------------------------------
  // toCsvString

  /** The content of each row object, in list order. */
  function Contents(rows: seq<Row>): (fs: seq<Fields>)
    reads set row | row in rows
    ensures |fs| == |rows| && forall i :: 0 <= i < |rows| ==> fs[i] == rows[i].fields
  {
    seq(|rows|, i requires 0 <= i < |rows| reads rows => rows[i].fields)
  }

  /** `toCsvString`: the rows it renders, the key set once built and the CSV
      text once written. */
  class ToCsvString {
    var data: seq<Row>
    var keyset: Option<seq<string>>
    var csv: Option<string>

    constructor (data: seq<Row>)
      ensures this.data == data && keyset.None? && csv.None?
    {
      this.data := data;
      keyset := None;
      csv := None;
    }

    /** `createKeySet`: the keys of all rows, each once, at its first appearance. */
    method CreateKeySet()
      modifies this
      ensures keyset == Some(KeySet(Contents(data)))
      ensures data == old(data) && csv == old(csv)
    {
      var keys := CollectKeys(Contents(data));
      keyset := Some(keys);
    }

    /** `applyMissingKeys`: each row object in place gets the keys it lacks,
        with the value None; without a key set the first row raises. */
    method ApplyMissingKeys() returns (r: Outcome<CsvError>)
      modifies set row | row in data
      ensures r.Fail? <==> keyset.None? && |data| > 0
      ensures keyset.Some? ==> RunRows(data, old(Snapshot(data)), FillStep(keyset.value)) == Ok(Snapshot(data))
      ensures keyset.Some? ==> Contents(data) == FillAll(old(Contents(data)), keyset.value)
      ensures keyset.None? ==> Snapshot(data) == old(Snapshot(data))
    {
      if keyset.None? {
        if |data| > 0 {
          return Fail(KeySetNotBuilt);
        }
        return Pass;
      }
      var keys := keyset.value;
      ghost var orig := Snapshot(data);
      ghost var before := Contents(data);
      ghost var run := RunFrom(data, 0, FillStep(keys));
      assert data[0..] == data;
      var i := 0;
      while i < |data|
        invariant 0 <= i <= |data|
        invariant run == RunFrom(data, i, FillStep(keys))
      {
        FillNext(data, i, keys, run);
        i := i + 1;
      }
      FilledContents(data, orig, Snapshot(data), before, keys);
      assert forall i :: 0 <= i < |data| ==> data[i].fields == Snapshot(data)[data[i]];
      return Pass;
    }

    /** `write`: builds the key set, fills in the missing keys and renders
        the header and one line per row. */
    method Write()
      modifies this, set row | row in data
      ensures data == old(data)
      ensures keyset == Some(KeySet(old(Contents(data))))
      ensures Contents(data) == FillAll(old(Contents(data)), keyset.value)
      ensures AllHaveKeys(Contents(data), keyset.value)
      ensures csv == Some(CsvText(keyset.value, Contents(data)))
    {
      CreateKeySet();
      var keys := keyset.value;
      var applied := ApplyMissingKeys();
      FillAllHasKeys(old(Contents(data)), keys);
      var text := RenderCsv(data, keys);
      csv := Some(text);
    }
  }

  /** The loop over the row objects leaves each with its original content
      filled, also when the list holds a row object more than once. */
  lemma FilledContents(rows: seq<Row>, orig: map<Row, Fields>, now: map<Row, Fields>, before: seq<Fields>, keys: seq<string>)
    requires forall row :: row in rows ==> row in orig
    requires |before| == |rows| && forall i :: 0 <= i < |rows| ==> before[i] == orig[rows[i]]
    requires RunRows(rows, orig, FillStep(keys)) == Ok(now)
    ensures forall i :: 0 <= i < |rows| ==> rows[i] in now && now[rows[i]] == FillAll(before, keys)[i]
  {
    MissingKeysApplied(rows, orig, keys);
  }

  /** One pass of the loop of `applyMissingKeys`: row `i` filled in place,
      as the rest of the loop sees it. */
  method FillNext(rows: seq<Row>, i: nat, keys: seq<string>, ghost run: Result<map<Row, Fields>, CsvError>)
    requires i < |rows|
    requires run == RunFrom(rows, i, FillStep(keys))
    modifies rows[i]
    ensures run == RunFrom(rows, i + 1, FillStep(keys))
  {
    ghost var before := Snapshot(rows);
    RunRowsAt(rows, i, before, FillStep(keys));
    FillRow(rows[i], keys);
    assert Snapshot(rows) == before[rows[i] := rows[i].fields];
  }

  /** The loops of `createKeySet`, over the rows' contents. */
  method CollectKeys(rows: seq<Fields>) returns (keys: seq<string>)
    ensures keys == KeySet(rows)
  {
    keys := [];
    var i := 0;
    while i < |rows|
      invariant 0 <= i <= |rows|
      invariant keys == Dedup(AllKeys(rows[..i]))
    {
      assert rows[..i + 1][..i] == rows[..i];
      keys := AddNewKeys(keys, AllKeys(rows[..i]), KeysOf(rows[i]));
      i := i + 1;
    }
    assert rows[..i] == rows;
  }

  /** The inner loop of `createKeySet`: the keys of one row not seen yet,
      appended in the row's order. */
  method AddNewKeys(keys: seq<string>, ghost seen: seq<string>, ks: seq<string>) returns (r: seq<string>)
    requires keys == Dedup(seen)
    ensures r == Dedup(seen + ks)
  {
    r := keys;
    assert seen + ks[..0] == seen;
    var j := 0;
    while j < |ks|
      invariant 0 <= j <= |ks|
      invariant r == Dedup(seen + ks[..j])
    {
      assert seen + ks[..j + 1] == seen + ks[..j] + [ks[j]];
      DedupSnoc(seen + ks[..j], ks[j]);
      if ks[j] !in r {
        r := r + [ks[j]];
      }
      j := j + 1;
    }
    assert ks[..j] == ks;
  }


  /** The loop of `write` that renders the rows, one line per row object. */
  method RenderLines(data: seq<Row>, keys: seq<string>) returns (rows: seq<string>)
    requires AllHaveKeys(Contents(data), keys)
    ensures rows == BodyLines(Contents(data), keys)
  {
    rows := [];
    var i := 0;
    while i < |data|
      invariant 0 <= i <= |data|
      invariant |rows| == i
      invariant forall m :: 0 <= m < i ==> rows[m] == RowLine(data[m].fields, keys)
    {
      var rowAsString := RowAsString(data[i].fields, keys);
      rows := rows + [Join(Strs(rowAsString), ",")];
      i := i + 1;
    }
  }

  /** The rendering part of `write`: the header, then the body lines. */
  method RenderCsv(data: seq<Row>, keys: seq<string>) returns (text: string)
    requires AllHaveKeys(Contents(data), keys)
    ensures text == CsvText(keys, Contents(data))
  {
    var rows := RenderLines(data, keys);
    var header := Join(keys, ",");
    var body := Join(rows, "\n");
    text := header + "\n" + body + "\n";
  }

  /** The inner loop of `write` on one row: `row[key]` for each key. */
  method RowAsString(fs: Fields, keys: seq<string>) returns (rowAsString: seq<Value>)
    requires HasKeys(fs, keys)
    ensures rowAsString == RowValues(fs, keys)
  {
    rowAsString := [];
    var j := 0;
    while j < |keys|
      invariant 0 <= j <= |keys|
      invariant |rowAsString| == j
      invariant forall m :: 0 <= m < j ==> rowAsString[m] == Get(fs, keys[m]).value
    {
      rowAsString := rowAsString + [Get(fs, keys[j]).value];
      j := j + 1;
    }
  }

  /** The inner loop of `applyMissingKeys` on one row object. */
  method FillRow(row: Row, keys: seq<string>)
    modifies row
    ensures row.fields == FillMissing(old(row.fields), keys)
  {
    ghost var orig := row.fields;
    var j := 0;
    while j < |keys|
      invariant 0 <= j <= |keys|
      invariant row.fields == FillMissing(orig, keys[..j])
    {
      assert keys[..j + 1][..j] == keys[..j];
      if !HasKey(row.fields, keys[j]) {
        PutPlaces(row.fields, keys[j], Null);
        row.fields := Put(row.fields, keys[j], Null);
      }
      j := j + 1;
    }
    assert keys[..j] == keys;
  }
}
