/** The Python values the client handles: JSON-shaped values, dictionaries with
    insertion order, the str() rendering the client relies on, the string
    built-ins it calls (split, join, rstrip) and dictionaries that are changed
    in place through a reference. */
module PyData {

  datatype Option<+T> = None | Some(value: T)

  datatype Result<+T, +E> = Ok(value: T) | Err(error: E)

  datatype Outcome<+E> = Pass | Fail(error: E)

  newtype byte = x: int | 0 <= x < 256

  /** A JSON value as Python decodes it (floats are not modelled). */
  datatype Value =
    | Null
    | Bool(b: bool)
    | Int(i: int)
    | Str(s: string)
    | List(items: seq<Value>)
    | Dict(entries: seq<Entry>)

  datatype Entry = Entry(key: string, val: Value)

  /** A Python dict with string keys, in insertion order. */
  type Fields = seq<Entry>

  /** Python truthiness. */
  predicate Truthy(v: Value) {
    match v
    case Null => false
    case Bool(b) => b
    case Int(i) => i != 0
    case Str(s) => s != ""
    case List(items) => |items| > 0
    case Dict(entries) => |entries| > 0
  }

  /** An optional string argument (`str = None`) as a Python value. */
  function OptStr(o: Option<string>): Value {
    if o.Some? then Str(o.value) else Null
  }

  predicate NoDup<T(==)>(s: seq<T>) {
    forall i, j :: 0 <= i < j < |s| ==> s[i] != s[j]
  }

  /** The distinct elements of `s`, each at its first appearance. */
  function Dedup(s: seq<string>): (r: seq<string>)
    ensures NoDup(r)
    ensures forall x :: x in r <==> x in s
    decreases |s|
  {
    if s == [] then []
    else
      var init := Dedup(s[..|s| - 1]);
      if s[|s| - 1] in s[..|s| - 1] then init else init + [s[|s| - 1]]
  }

  lemma DedupSnoc(s: seq<string>, x: string)
    ensures Dedup(s + [x]) == if x in s then Dedup(s) else Dedup(s) + [x]
  {
    assert (s + [x])[..|s|] == s;
  }

  /** One more element of a prefix. */
  lemma TakeOneMore<T>(s: seq<T>, i: nat)
    requires i < |s|
    ensures s[..i + 1] == s[..i] + [s[i]]
  {
  }

  // ---------------------------------------------------------------------------
  // Dictionaries

  function KeysOf(fs: Fields): (ks: seq<string>)
    ensures |ks| == |fs| && forall i :: 0 <= i < |fs| ==> ks[i] == fs[i].key
  {
    seq(|fs|, i requires 0 <= i < |fs| => fs[i].key)
  }

  /** A key is among `d.keys()` exactly when some entry carries it. */
  lemma KeysOfHas(fs: Fields, k: string)
    ensures k in KeysOf(fs) <==> exists i :: 0 <= i < |fs| && fs[i].key == k
  {
    if k in KeysOf(fs) {
      var i :| 0 <= i < |fs| && KeysOf(fs)[i] == k;
    }
  }

  predicate HasKey(fs: Fields, k: string) {
    k in KeysOf(fs)
  }

  /** A dictionary proper: no key twice. */
  predicate IsDict(fs: Fields) {
    NoDup(KeysOf(fs))
  }

  /** `d[k]`, or None where Python raises KeyError. */
  function Get(fs: Fields, k: string): (r: Option<Value>)
    ensures r.Some? <==> HasKey(fs, k)
  {
    if fs == [] then None
    else if fs[0].key == k then Some(fs[0].val)
    else
      assert KeysOf(fs) == [fs[0].key] + KeysOf(fs[1..]);
      Get(fs[1..], k)
  }

  lemma {:induction false} GetAt(fs: Fields, i: nat)
    requires IsDict(fs) && i < |fs|
    ensures Get(fs, fs[i].key) == Some(fs[i].val)
  {
    if i > 0 {
      assert fs[0].key != fs[i].key by { assert KeysOf(fs)[0] != KeysOf(fs)[i]; }
      assert KeysOf(fs[1..]) == KeysOf(fs)[1..];
      GetAt(fs[1..], i - 1);
    }
  }

  /** `d.pop(k, None)`: the entry for `k` goes, everything else keeps its place. */
  function RemoveKey(fs: Fields, k: string): (r: Fields)
    ensures !HasKey(r, k)
    ensures forall e :: e in r <==> e in fs && e.key != k
    ensures |r| <= |fs|
  {
    if fs == [] then []
    else if fs[0].key == k then RemoveKey(fs[1..], k)
    else [fs[0]] + RemoveKey(fs[1..], k)
  }

  /** `d[k] = v`: an existing key keeps its place, a new key goes last. */
  function Put(fs: Fields, k: string, v: Value): (r: Fields)
    ensures |r| >= |fs|
  {
    if fs == [] then [Entry(k, v)]
    else if fs[0].key == k then [Entry(k, v)] + fs[1..]
    else [fs[0]] + Put(fs[1..], k, v)
  }

  /** Assigning an existing key keeps every key in its place; a new key is
      appended. */
  lemma {:induction false} PutPlaces(fs: Fields, k: string, v: Value)
    ensures HasKey(fs, k) ==> KeysOf(Put(fs, k, v)) == KeysOf(fs)
    ensures !HasKey(fs, k) ==> Put(fs, k, v) == fs + [Entry(k, v)]
    decreases |fs|
  {
    if fs != [] && fs[0].key != k {
      var rest := Put(fs[1..], k, v);
      PutPlaces(fs[1..], k, v);
      assert fs == [fs[0]] + fs[1..];
      KeysOfCons(fs[0], fs[1..]);
      KeysOfCons(fs[0], rest);
      assert Put(fs, k, v) == [fs[0]] + rest;
    }
  }

  lemma KeysOfCons(e: Entry, rest: Fields)
    ensures KeysOf([e] + rest) == [e.key] + KeysOf(rest)
  {
  }

  /** After `d[k] = v`, `d[k]` is `v` and every other key reads as before. */
  lemma {:induction false} PutGet(fs: Fields, k: string, v: Value)
    ensures Get(Put(fs, k, v), k) == Some(v)
    ensures forall k' :: k' != k ==> Get(Put(fs, k, v), k') == Get(fs, k')
    decreases |fs|
  {
    if fs != [] && fs[0].key != k {
      PutGet(fs[1..], k, v);
      assert Put(fs, k, v) == [fs[0]] + Put(fs[1..], k, v);
    }
  }

  // ---------------------------------------------------------------------------
  // Strings

  /** `sep.join(parts)`. */
  function Join(parts: seq<string>, sep: string): string {
    if |parts| == 0 then ""
    else if |parts| == 1 then parts[0]
    else parts[0] + sep + Join(parts[1..], sep)
  }

  /** `s.split(sep)` for a one-character separator: never empty, one more part
      than there are separators. */
  function Split(s: string, sep: char): (parts: seq<string>)
    ensures |parts| >= 1
    ensures forall i :: 0 <= i < |parts| ==> sep !in parts[i]
  {
    if s == [] then [""]
    else
      var rest := Split(s[1..], sep);
      if s[0] == sep then [""] + rest
      else [[s[0]] + rest[0]] + rest[1..]
  }

  lemma {:induction false} JoinSplit(s: string, sep: char)
    ensures Join(Split(s, sep), [sep]) == s
  {
    if s != [] {
      var rest := Split(s[1..], sep);
      JoinSplit(s[1..], sep);
      if s[0] != sep {
        if |rest| == 1 {
        } else {
          assert Join(rest, [sep]) == rest[0] + [sep] + Join(rest[1..], [sep]);
          assert [[s[0]] + rest[0]] + rest[1..] == [[s[0]] + rest[0]] + rest[1..];
        }
      }
    }
  }

  lemma {:induction false} SplitNoSep(p: string, sep: char)
    requires sep !in p
    ensures Split(p, sep) == [p]
  {
    if p != [] {
      assert sep !in p[1..];
      SplitNoSep(p[1..], sep);
      assert [p[0]] + p[1..] == p;
    }
  }

  lemma {:induction false} SplitAfterPart(p: string, sep: char, t: string)
    requires sep !in p
    ensures Split(p + [sep] + t, sep) == [p] + Split(t, sep)
  {
    if p == [] {
      assert [] + [sep] + t == [sep] + t;
      assert ([sep] + t)[1..] == t;
    } else {
      assert sep !in p[1..];
      SplitAfterPart(p[1..], sep, t);
      assert (p + [sep] + t)[1..] == p[1..] + [sep] + t;
      assert (p + [sep] + t)[0] == p[0];
      assert [p[0]] + p[1..] == p;
    }
  }

  /** Splitting a joined list gives the list back when no part holds the separator. */
  lemma {:induction false} SplitJoin(parts: seq<string>, sep: char)
    requires |parts| >= 1
    requires forall i :: 0 <= i < |parts| ==> sep !in parts[i]
    ensures Split(Join(parts, [sep]), sep) == parts
  {
    if |parts| == 1 {
      SplitNoSep(parts[0], sep);
    } else {
      SplitJoin(parts[1..], sep);
      SplitAfterPart(parts[0], sep, Join(parts[1..], [sep]));
    }
  }

  /** `s.split("/")[-1]`: what follows the last `/`, or all of `s`. */
  function LastSegment(s: string): string {
    var parts := Split(s, '/');
    parts[|parts| - 1]
  }

  lemma {:induction false} JoinLast(parts: seq<string>, sep: string)
    requires |parts| >= 2
    ensures Join(parts, sep) == Join(parts[..|parts| - 1], sep) + sep + parts[|parts| - 1]
  {
    if |parts| > 2 {
      JoinLast(parts[1..], sep);
      assert parts[1..][..|parts| - 2] == parts[..|parts| - 1][1..];
    }
  }

  lemma LastSegmentIsSuffix(s: string)
    ensures var r := LastSegment(s);
      && '/' !in r
      && |r| <= |s|
      && s[|s| - |r|..] == r
      && (|r| < |s| ==> s[|s| - |r| - 1] == '/')
  {
    var parts := Split(s, '/');
    var r := parts[|parts| - 1];
    JoinSplit(s, '/');
    if |parts| >= 2 {
      JoinLast(parts, [ '/' ]);
      SuffixAfter(Join(parts[..|parts| - 1], [ '/' ]), '/', r, s);
    }
  }

  lemma SuffixAfter(p: string, c: char, r: string, s: string)
    requires s == p + [c] + r
    ensures |r| < |s| && s[|s| - |r|..] == r && s[|s| - |r| - 1] == c
  {
    assert s[|p| + 1..] == r;
  }

  /** `s.rstrip(chars)`: Python strips a trailing run of characters drawn from
      the set, not a suffix string. */
  function RStrip(s: string, chars: set<char>): (r: string)
    ensures r <= s
    ensures r == [] || r[|r| - 1] !in chars
    ensures forall i :: |r| <= i < |s| ==> s[i] in chars
  {
    if s == [] || s[|s| - 1] !in chars then s
    else RStrip(s[..|s| - 1], chars)
  }

  /** Stripping ignores a tail made of stripped characters. */
  lemma {:induction false} RStripAppend(s: string, t: string, chars: set<char>)
    requires forall i :: 0 <= i < |t| ==> t[i] in chars
    ensures RStrip(s + t, chars) == RStrip(s, chars)
  {
    if t != [] {
      assert (s + t)[|s + t| - 1] == t[|t| - 1];
      assert t[|t| - 1] in chars;
      assert (s + t)[..|s + t| - 1] == s + t[..|t| - 1];
      assert RStrip(s + t, chars) == RStrip(s + t[..|t| - 1], chars);
      RStripAppend(s, t[..|t| - 1], chars);
    } else {
      assert s + t == s;
    }
  }

  lemma RStripFixed(s: string, chars: set<char>)
    requires s == [] || s[|s| - 1] !in chars
    ensures RStrip(s, chars) == s
  {
  }

  function DigitChar(d: nat): char
    requires d < 10
  {
    "0123456789"[d]
  }

  function NatToString(n: nat): string
    decreases n
  {
    if n < 10 then [DigitChar(n)] else NatToString(n / 10) + [DigitChar(n % 10)]
  }

  /** `str(i)` for an int. */
  function IntToString(i: int): string {
    if i < 0 then "-" + NatToString(-i) else NatToString(i)
  }

  /** `repr(v)`.  Strings are quoted with single quotes and not escaped. */
  function Repr(v: Value): string
    decreases v, 1
  {
    match v
    case Null => "None"
    case Bool(b) => if b then "True" else "False"
    case Int(i) => IntToString(i)
    case Str(s) => "'" + s + "'"
    case List(items) =>
      "[" + Join(seq(|items|, k requires 0 <= k < |items| => Repr(items[k])), ", ") + "]"
    case Dict(entries) =>
      "{" + Join(seq(|entries|, k requires 0 <= k < |entries| =>
                   "'" + entries[k].key + "': " + Repr(entries[k].val)), ", ") + "}"
  }

  /** `str(v)`: a string is itself, anything else its repr. */
  function ToStr(v: Value): string {
    if v.Str? then v.s else Repr(v)
  }

  // ---------------------------------------------------------------------------
  // Dictionaries changed in place

  /** A Python dict object: callers that hold the same object see its changes. */
  class Row {
    var fields: Fields

    constructor (fields: Fields)
      ensures this.fields == fields
    {
      this.fields := fields;
    }
  }

  /** The content of every row object in `rows`. */
  ghost function Snapshot(rows: seq<Row>): (m: map<Row, Fields>)
    reads rows
    ensures m.Keys == set r | r in rows
  {
    map r | r in rows :: r.fields
  }

  /** What a loop `for row in rows: <change row in place by step>` does to the
      row objects: it stops at the first failing row; a row object that occurs
      twice in the list is changed twice. */
  ghost function RunRows<E>(rows: seq<Row>, snap: map<Row, Fields>,
                            step: Fields -> Result<Fields, E>): Result<map<Row, Fields>, E>
    requires forall r :: r in rows ==> r in snap
    decreases |rows|
  {
    if rows == [] then Ok(snap)
    else match step(snap[rows[0]])
      case Err(e) => Err(e)
      case Ok(f) => RunRows(rows[1..], snap[rows[0] := f], step)
  }

  /** The rest of such a loop, from row `i` on and from the rows' current
      content. */
  ghost function RunFrom<E>(rows: seq<Row>, i: nat, step: Fields -> Result<Fields, E>): Result<map<Row, Fields>, E>
    reads rows
    requires i <= |rows|
  {
    RunRows(rows[i..], Snapshot(rows), step)
  }

  /** Row `i` of the loop: a failing row stops it, a changed row is
      recorded for the rest of the list. */
  lemma RunRowsAt<E>(rows: seq<Row>, i: nat, snap: map<Row, Fields>, step: Fields -> Result<Fields, E>)
    requires i < |rows| && forall r :: r in rows ==> r in snap
    ensures step(snap[rows[i]]).Err? ==> RunRows(rows[i..], snap, step) == Err(step(snap[rows[i]]).error)
    ensures step(snap[rows[i]]).Ok? ==>
      RunRows(rows[i..], snap, step) == RunRows(rows[i + 1..], snap[rows[i] := step(snap[rows[i]]).value], step)
  {
    assert rows[i..][0] == rows[i] && rows[i..][1..] == rows[i + 1..];
  }

  /** Row objects outside the list keep their content. */
  lemma {:induction false} RunRowsUntouched<E>(rows: seq<Row>, snap: map<Row, Fields>,
                                              step: Fields -> Result<Fields, E>)
    requires forall r :: r in rows ==> r in snap
    ensures RunRows(rows, snap, step).Ok? ==>
      && RunRows(rows, snap, step).value.Keys == snap.Keys
      && forall r :: r in snap && r !in rows ==> RunRows(rows, snap, step).value[r] == snap[r]
  {
    if rows != [] {
      match step(snap[rows[0]])
      case Err(e) =>
      case Ok(f) =>
        RunRowsUntouched(rows[1..], snap[rows[0] := f], step);
    }
  }

  /** Distinct row objects are each changed once, by their own step. */
  lemma {:induction false} RunRowsDistinct<E>(rows: seq<Row>, snap: map<Row, Fields>,
                                             step: Fields -> Result<Fields, E>)
    requires forall r :: r in rows ==> r in snap
    requires NoDup(rows)
    ensures RunRows(rows, snap, step).Ok? <==> forall i :: 0 <= i < |rows| ==> step(snap[rows[i]]).Ok?
    ensures RunRows(rows, snap, step).Ok? ==>
      && RunRows(rows, snap, step).value.Keys == snap.Keys
      && (forall i :: 0 <= i < |rows| ==> RunRows(rows, snap, step).value[rows[i]] == step(snap[rows[i]]).value)
      && (forall r :: r in snap && r !in rows ==> RunRows(rows, snap, step).value[r] == snap[r])
  {
    if rows != [] {
      match step(snap[rows[0]])
      case Err(e) =>
      case Ok(f) =>
        var snap', tail := snap[rows[0] := f], rows[1..];
        assert forall i :: 0 <= i < |tail| ==> tail[i] == rows[i + 1] && tail[i] != rows[0];
        assert forall i :: 0 <= i < |tail| ==> snap'[tail[i]] == snap[tail[i]];
        var run := RunRows(tail, snap', step);
        assert RunRows(rows, snap, step) == run;
        RunRowsDistinct(tail, snap', step);
        if run.Ok? {
          forall i | 0 <= i < |rows| ensures run.value[rows[i]] == step(snap[rows[i]]).value {
            if i > 0 { assert tail[i - 1] == rows[i]; }
          }
        }
    }
  }

  /** An idempotent step changes each row object as if once, even when the
      object occurs several times in the list. */
  lemma {:induction false} RunRowsIdempotent<E>(rows: seq<Row>, snap: map<Row, Fields>,
                                               step: Fields -> Result<Fields, E>, orig: map<Row, Fields>)
    requires forall r :: r in rows ==> r in snap && r in orig
    requires forall f :: step(f).Ok? ==> step(step(f).value) == step(f)
    requires forall r :: r in rows ==> snap[r] == orig[r] || (step(orig[r]).Ok? && snap[r] == step(orig[r]).value)
    ensures RunRows(rows, snap, step).Ok? <==> forall i :: 0 <= i < |rows| ==> step(orig[rows[i]]).Ok?
    ensures RunRows(rows, snap, step).Ok? ==>
      && RunRows(rows, snap, step).value.Keys == snap.Keys
      && (forall i :: 0 <= i < |rows| ==> RunRows(rows, snap, step).value[rows[i]] == step(orig[rows[i]]).value)
  {
    if rows != [] {
      var r0 := rows[0];
      assert step(snap[r0]) == step(orig[r0]);
      match step(snap[r0])
      case Err(e) =>
      case Ok(f) =>
        var snap', tail := snap[r0 := f], rows[1..];
        assert forall r :: r in tail ==> r in rows;
        var run := RunRows(tail, snap', step);
        assert RunRows(rows, snap, step) == run;
        RunRowsIdempotent(tail, snap', step, orig);
        RunRowsUntouched(tail, snap', step);
        assert forall i :: 0 < i < |rows| ==> rows[i] == tail[i - 1];
        if run.Ok? {
          forall i | 0 <= i < |rows| ensures run.value[rows[i]] == step(orig[rows[i]]).value {
            if i > 0 { assert tail[i - 1] == rows[i]; }
          }
        }
        if forall i :: 0 <= i < |rows| ==> step(orig[rows[i]]).Ok? {
          forall i | 0 <= i < |tail| ensures step(orig[tail[i]]).Ok? {
            assert tail[i] == rows[i + 1];
          }
        }
    }
  }
}
