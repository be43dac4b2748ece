/** The URL query builder of molgenis/query_utils.py: it turns the ordered
    options of a read (query, attributes and expands, page size, start, sort)
    into the query string of the MOLGENIS REST API v2. */
module QueryUtils {
  import opened PyData

  /** The only error the builder raises: Python's TypeError for a query given
      as a list instead of an RSQL string. */
  datatype QueryError = TypeError(message: string)

  const RsqlMessage := "Please specify your query in the RSQL format."

  /** The options dict, option name to value, in insertion order. */
  type Options = seq<(string, Value)>

  predicate IsOptionalString(v: Value) {
    v.Null? || v.Str?
  }

  /** The `[attributes, expand]` and `[column, order]` lists. */
  predicate IsPair(v: Value) {
    v.List? && |v.items| >= 2 && IsOptionalString(v.items[0]) && IsOptionalString(v.items[1])
  }

  /** What the callers of `build_api_url` pass: `sort` and `attrs` carry pairs. */
  predicate WellFormed(options: Options) {
    forall i :: 0 <= i < |options| ==> (options[i].0 == "sort" || options[i].0 == "attrs") ==> IsPair(options[i].1)
  }

  /** `process_query`: a list is refused, anything else becomes `q=<value>`. */
  function ProcessQuery(value: Value, option: string): (r: Result<string, QueryError>)
    ensures r.Err? <==> value.List?
    ensures r.Err? ==> r.error == TypeError(RsqlMessage)
    ensures r.Ok? ==> r.value == option + "=" + ToStr(value)
  {
    if value.List? then Err(TypeError(RsqlMessage)) else Ok(option + "=" + ToStr(value))
  }

  /** `process_sort`: nothing without a column, the column alone without an
      order, `column:order` with both. */
  function ProcessSort(pair: Value): (r: Option<string>)
    requires IsPair(pair)
    ensures r.None? <==> !Truthy(pair.items[0])
    ensures r.Some? && !Truthy(pair.items[1]) ==> r.value == "sort=" + pair.items[0].s
    ensures r.Some? && Truthy(pair.items[1]) ==> r.value == "sort=" + pair.items[0].s + ":" + pair.items[1].s
  {
    var column, order := pair.items[0], pair.items[1];
    if Truthy(column) && !Truthy(order) then Some("sort=" + column.s)
    else if Truthy(column) && Truthy(order) then Some("sort=" + column.s + ":" + order.s)
    else None
  }

  /** A reader of the URL recovers the sort: after `sort=` the text splits at
      `:` into the column followed by the parts of the order, if there is one. */
  lemma ProcessSortSplits(pair: Value)
    requires IsPair(pair) && Truthy(pair.items[0]) && ':' !in pair.items[0].s
    ensures ProcessSort(pair).Some?
    ensures |ProcessSort(pair).value| >= 5 && ProcessSort(pair).value[..5] == "sort="
    ensures Split(ProcessSort(pair).value[5..], ':') ==
            [pair.items[0].s] + (if Truthy(pair.items[1]) then Split(pair.items[1].s, ':') else [])
    ensures Truthy(pair.items[1]) && ':' !in pair.items[1].s ==>
            Split(ProcessSort(pair).value[5..], ':') == [pair.items[0].s, pair.items[1].s]
  {
    var column, order := pair.items[0].s, pair.items[1];
    var text := ProcessSort(pair).value;
    if Truthy(order) {
      assert text[5..] == column + [':'] + order.s;
      SplitAfterPart(column, ':', order.s);
      if ':' !in order.s {
        SplitNoSep(order.s, ':');
      }
    } else {
      assert text[5..] == column;
      SplitNoSep(column, ':');
    }
  }

  /** `split_if_not_none`: no names for None or "", else the comma-separated names. */
  function SplitIfNotNone(v: Value): (r: seq<string>)
    requires IsOptionalString(v)
    ensures Truthy(v) <==> r != []
    ensures Truthy(v) ==> Join(r, ",") == v.s
    ensures forall i :: 0 <= i < |r| ==> ',' !in r[i]
  {
    if Truthy(v) then JoinSplit(v.s, ','); Split(v.s, ',') else []
  }

  /** The expanded attributes of an `[attributes, expand]` pair. */
  function Expands(pair: Value): seq<string>
    requires IsPair(pair)
  {
    SplitIfNotNone(pair.items[1])
  }

  /** The attribute list after `merge_attrs` has added the wildcard `*`, which
      it does when only expands are given. */
  function AttrList(pair: Value): seq<string>
    requires IsPair(pair)
  {
    var attrs := SplitIfNotNone(pair.items[0]);
    if |attrs| == 0 && |Expands(pair)| > 0 then attrs + ["*"] else attrs
  }

  /** `set(attrs + expands)`, listed in order of first appearance. */
  function UniqueAttrs(pair: Value): seq<string>
    requires IsPair(pair)
  {
    Dedup(AttrList(pair) + Expands(pair))
  }

  /** An expanded attribute asks for its whole sub-object. */
  function Tag(attr: string, expands: seq<string>): string {
    if attr in expands then attr + "(*)" else attr
  }

  /** The comprehension over the unique attributes. */
  function AttrsOperands(pair: Value): (r: seq<string>)
    requires IsPair(pair)
    ensures |r| == |UniqueAttrs(pair)|
    ensures forall i :: 0 <= i < |r| ==> r[i] == Tag(UniqueAttrs(pair)[i], Expands(pair))
  {
    var unique := UniqueAttrs(pair);
    seq(|unique|, i requires 0 <= i < |unique| => Tag(unique[i], Expands(pair)))
  }

  /** `merge_attrs`: no operator when neither attributes nor expands are given. */
  function MergeAttrs(pair: Value): (r: Option<string>)
    requires IsPair(pair)
    ensures r.None? <==> !Truthy(pair.items[0]) && !Truthy(pair.items[1])
    ensures r.Some? ==> r.value == "attrs=" + Join(AttrsOperands(pair), ",")
  {
    var operands := AttrsOperands(pair);
    if |operands| > 0 then Some("attrs=" + Join(operands, ",")) else None
  }

  /** Every attribute and every expand is listed once, and carries `(*)`
      exactly when it is an expand. */
  lemma MergeAttrsOperands(pair: Value)
    requires IsPair(pair)
    ensures NoDup(UniqueAttrs(pair))
    ensures forall a :: a in UniqueAttrs(pair) <==> a in AttrList(pair) || a in Expands(pair)
    ensures forall i :: 0 <= i < |AttrsOperands(pair)| ==>
      (AttrsOperands(pair)[i] == UniqueAttrs(pair)[i] + "(*)" <==> UniqueAttrs(pair)[i] in Expands(pair))
  {
    forall i | 0 <= i < |AttrsOperands(pair)|
      ensures AttrsOperands(pair)[i] == UniqueAttrs(pair)[i] + "(*)" <==> UniqueAttrs(pair)[i] in Expands(pair)
    {
      var a := UniqueAttrs(pair)[i];
      if a !in Expands(pair) {
        assert |a + "(*)"| != |a|;
      }
    }
  }

  /** Only expands: the wildcard plus every expand asking for its sub-object. */
  lemma {:induction false} MergeAttrsExpandsOnly(pair: Value)
    requires IsPair(pair)
    requires !Truthy(pair.items[0]) && Truthy(pair.items[1])
    requires "*" !in Expands(pair)
    ensures (set a | a in AttrsOperands(pair)) == {"*"} + set e | e in Expands(pair) :: e + "(*)"
  {
    assert AttrList(pair) == ["*"];
    TaggedWildcard(AttrsOperands(pair), UniqueAttrs(pair), Expands(pair));
  }

  /** The tagged list of the wildcard and the expands. */
  lemma TaggedWildcard(ops: seq<string>, unique: seq<string>, expands: seq<string>)
    requires |ops| == |unique| && forall i :: 0 <= i < |ops| ==> ops[i] == Tag(unique[i], expands)
    requires forall a :: a in unique <==> a == "*" || a in expands
    requires "*" !in expands
    ensures (set a | a in ops) == {"*"} + set e | e in expands :: e + "(*)"
  {
    var tagged, wanted := set a | a in ops, {"*"} + set e | e in expands :: e + "(*)";
    TaggedWithin(ops, unique, expands);
    TaggedCovers(ops, unique, expands);
    assert tagged <= wanted by {
      forall x | x in tagged ensures x in wanted {
        if x != "*" {
          var e :| e in expands && x == e + "(*)";
        }
      }
    }
  }

  lemma TaggedCovers(ops: seq<string>, unique: seq<string>, expands: seq<string>)
    requires |ops| == |unique| && forall i :: 0 <= i < |ops| ==> ops[i] == Tag(unique[i], expands)
    requires forall a :: a in unique <==> a == "*" || a in expands
    requires "*" !in expands
    ensures "*" in ops && forall e :: e in expands ==> e + "(*)" in ops
  {
    forall e | e in expands ensures e + "(*)" in ops {
      var i :| 0 <= i < |unique| && unique[i] == e;
      assert ops[i] == e + "(*)";
    }
    var i :| 0 <= i < |unique| && unique[i] == "*";
    assert ops[i] == "*";
  }

  lemma TaggedWithin(ops: seq<string>, unique: seq<string>, expands: seq<string>)
    requires |ops| == |unique| && forall i :: 0 <= i < |ops| ==> ops[i] == Tag(unique[i], expands)
    requires forall a :: a in unique <==> a == "*" || a in expands
    requires "*" !in expands
    ensures forall x :: x in ops ==> x == "*" || exists e :: e in expands && x == e + "(*)"
  {
    forall x | x in ops ensures x == "*" || exists e :: e in expands && x == e + "(*)" {
      var i :| 0 <= i < |ops| && ops[i] == x;
      assert unique[i] in unique;
    }
  }

  /** Splitting the `attrs` operator's value at commas gives the operands back,
      which is how a reader of the URL recovers the attribute set. */
  lemma MergeAttrsSplits(pair: Value)
    requires IsPair(pair)
    requires MergeAttrs(pair).Some?
    ensures Split(Join(AttrsOperands(pair), ","), ',') == AttrsOperands(pair)
  {
    var ops, unique := AttrsOperands(pair), UniqueAttrs(pair);
    forall i | 0 <= i < |ops| ensures ',' !in ops[i] {
      assert unique[i] in AttrList(pair) + Expands(pair);
      assert ',' !in unique[i];
    }
    SplitJoin(ops, ',');
  }

  /** The operator one option contributes, or the error it raises. */
  function OperatorOf(option: string, value: Value): Result<Option<string>, QueryError>
    requires option == "sort" || option == "attrs" ==> IsPair(value)
  {
    if option == "q" && Truthy(value) then
      match ProcessQuery(value, option)
      case Ok(s) => Ok(Some(s))
      case Err(e) => Err(e)
    else if option == "sort" then Ok(ProcessSort(value))
    else if option == "attrs" then Ok(MergeAttrs(value))
    else if Truthy(value) && !(option == "num" && value == Int(100)) then Ok(Some(option + "=" + ToStr(value)))
    else Ok(None)
  }

  /** The `operators` list after the loop over the options, in option order. */
  function Operators(options: Options): Result<seq<string>, QueryError>
    requires WellFormed(options)
  {
    if options == [] then Ok([])
    else
      var n := |options| - 1;
      Extend(Operators(options[..n]), OperatorOf(options[n].0, options[n].1))
  }

  /** One turn of the loop: the first error stays, a non-empty operator is appended. */
  function Extend(prev: Result<seq<string>, QueryError>, next: Result<Option<string>, QueryError>): Result<seq<string>, QueryError> {
    match prev
    case Err(e) => Err(e)
    case Ok(ops) =>
      match next
      case Err(e) => Err(e)
      case Ok(op) => Ok(if op.Some? && op.value != "" then ops + [op.value] else ops)
  }

  /** `build_api_url`. */
  function ApiUrl(base: string, options: Options): Result<string, QueryError>
    requires WellFormed(options)
  {
    match Operators(options)
    case Err(e) => Err(e)
    case Ok(ops) =>
      var url := base + "?" + Join(ops, "&");
      Ok(if url == base + "?" then base else url)
  }

  /** The loop of `build_api_url`. */
  method BuildApiUrl(base: string, options: Options) returns (r: Result<string, QueryError>)
    requires WellFormed(options)
    ensures r == ApiUrl(base, options)
  {
    var operators: seq<string> := [];
    var i := 0;
    while i < |options|
      invariant 0 <= i <= |options|
      invariant Operators(options[..i]) == Ok(operators)
    {
      var (option, value) := options[i];
      assert options[..i + 1][..i] == options[..i];
      var operator := OperatorOf(option, value);
      if operator.Err? {
        OperatorsErrExtends(options, i + 1);
        assert options[..|options|] == options;
        return Err(operator.error);
      }
      if operator.value.Some? && operator.value.value != "" {
        operators := operators + [operator.value.value];
      }
      i := i + 1;
    }
    assert options[..i] == options;
    var url := base + "?" + Join(operators, "&");
    if url == base + "?" {
      r := Ok(base);
    } else {
      r := Ok(url);
    }
  }

  lemma {:induction false} OperatorsErrExtends(options: Options, i: nat)
    requires WellFormed(options) && i <= |options|
    requires Operators(options[..i]).Err?
    ensures Operators(options) == Operators(options[..i])
    decreases |options| - i
  {
    if i < |options| {
      var next := options[..i + 1];
      assert next[..i] == options[..i];
      OperatorsErrExtends(options, i + 1);
    } else {
      assert options[..i] == options;
    }
  }

  /** Every operator in the list is a non-empty string. */
  lemma {:induction false} OperatorsNonEmpty(options: Options)
    requires WellFormed(options)
    requires Operators(options).Ok?
    ensures forall k :: 0 <= k < |Operators(options).value| ==> Operators(options).value[k] != ""
  {
    if options != [] {
      var n := |options| - 1;
      OperatorsNonEmpty(options[..n]);
    }
  }

  /** A `q` option holding a non-empty list. */
  predicate RejectedQuery(option: (string, Value)) {
    option.0 == "q" && option.1.List? && Truthy(option.1)
  }

  lemma OperatorOfFails(option: string, value: Value)
    requires option == "sort" || option == "attrs" ==> IsPair(value)
    ensures OperatorOf(option, value).Err? <==> RejectedQuery((option, value))
    ensures OperatorOf(option, value).Err? ==> OperatorOf(option, value).error == TypeError(RsqlMessage)
  {
  }

  /** Some `q` option in the list holds a non-empty list. */
  predicate AnyRejected(options: Options) {
    exists i :: 0 <= i < |options| && RejectedQuery(options[i])
  }

  lemma AnyRejectedSnoc(options: Options)
    requires options != []
    ensures AnyRejected(options) <==> AnyRejected(options[..|options| - 1]) || RejectedQuery(options[|options| - 1])
  {
    var n := |options| - 1;
    var init := options[..n];
    if AnyRejected(options) && !RejectedQuery(options[n]) {
      var i :| 0 <= i < |options| && RejectedQuery(options[i]);
      assert init[i] == options[i];
    }
    if AnyRejected(init) {
      var i :| 0 <= i < |init| && RejectedQuery(init[i]);
      assert init[i] == options[i];
    }
  }

  /** One step of the fold: the prefix's operators extended by the last option's. */
  lemma OperatorsSnoc(options: Options)
    requires WellFormed(options) && options != []
    ensures WellFormed(options[..|options| - 1])
    ensures Operators(options) ==
      Extend(Operators(options[..|options| - 1]), OperatorOf(options[|options| - 1].0, options[|options| - 1].1))
  {
    WellFormedPrefix(options, |options| - 1);
  }

  lemma WellFormedPrefix(options: Options, n: nat)
    requires WellFormed(options) && n <= |options|
    ensures WellFormed(options[..n])
  {
    var init := options[..n];
    forall i | 0 <= i < |init| ensures (init[i].0 == "sort" || init[i].0 == "attrs") ==> IsPair(init[i].1) {
      assert init[i] == options[i];
    }
  }

  /** The builder fails exactly when some `q` option holds a non-empty list. */
  lemma {:induction false} OperatorsFail(options: Options)
    requires WellFormed(options)
    ensures Operators(options).Err? <==> AnyRejected(options)
    ensures Operators(options).Err? ==> Operators(options).error == TypeError(RsqlMessage)
  {
    if options != [] {
      var n := |options| - 1;
      OperatorsSnoc(options);
      OperatorsFail(options[..n]);
      OperatorOfFails(options[n].0, options[n].1);
      AnyRejectedSnoc(options);
    }
  }

  /** Without operators the URL is the base URL, with no `?`; otherwise the
      base URL, `?` and the operators joined by `&`. */
  lemma UrlShape(base: string, options: Options)
    requires WellFormed(options)
    requires Operators(options).Ok?
    ensures var ops := Operators(options).value;
      ApiUrl(base, options) == Ok(if ops == [] then base else base + "?" + Join(ops, "&"))
  {
    var ops := Operators(options).value;
    OperatorsNonEmpty(options);
    if ops != [] {
      assert |Join(ops, "&")| >= |ops[0]| > 0;
      assert |base + "?" + Join(ops, "&")| > |base + "?"|;
    }
  }

  /** A truthy non-list `q` gives exactly `q=<value>`; a list is refused; a
      falsy `q` gives nothing. */
  lemma QueryOperator(value: Value)
    ensures !Truthy(value) ==> OperatorOf("q", value) == Ok(None)
    ensures Truthy(value) && value.List? ==> OperatorOf("q", value) == Err(TypeError(RsqlMessage))
    ensures Truthy(value) && value.Str? ==> OperatorOf("q", value) == Ok(Some("q=" + value.s))
  {
    assert |"q"| != |"sort"| && |"q"| != |"attrs"|;
    assert "q" + "=" == "q=";
  }

  /** Other options are emitted as `key=value` when truthy, except a page size
      of exactly 100. */
  lemma GenericOperator(option: string, value: Value)
    requires option != "q" && option != "sort" && option != "attrs"
    ensures OperatorOf(option, value).Ok?
    ensures OperatorOf(option, value).value.Some? <==> Truthy(value) && !(option == "num" && value == Int(100))
    ensures OperatorOf(option, value).value.Some? ==> OperatorOf(option, value).value.value == option + "=" + ToStr(value)
  {
  }

  /** The options of a read with nothing asked for: no query, no attributes,
      the default page size 100, start 0, no sort. */
  const DefaultOptions: Options := [
    ("q", Null), ("attrs", List([Null, Null])), ("num", Int(100)), ("start", Int(0)), ("sort", List([Null, Null]))]

  /** Default options give back the base URL itself. */
  lemma DefaultOptionsGiveBase(base: string)
    ensures ApiUrl(base, DefaultOptions) == Ok(base)
  {
    var o := DefaultOptions;
    GenericOperator("num", Int(100));
    GenericOperator("start", Int(0));
    forall i | 0 <= i < |o| ensures OperatorOf(o[i].0, o[i].1) == Ok(None) {
      if i == 0 {
        QueryOperator(Null);
      }
    }
    OperatorsSilent(o);
  }

  /** Options that each contribute no operator give no operators at all. */
  lemma {:induction false} OperatorsSilent(options: Options)
    requires WellFormed(options)
    requires forall i :: 0 <= i < |options| ==> OperatorOf(options[i].0, options[i].1) == Ok(None)
    ensures Operators(options) == Ok([])
    decreases |options|
  {
    if options != [] {
      var n := |options| - 1;
      var init := options[..n];
      OperatorsSnoc(options);
      assert forall i :: 0 <= i < |init| ==> init[i] == options[i];
      OperatorsSilent(init);
    }
  }

  /** A query given as a list of filter dicts is refused, whatever else is asked. */
  lemma ListQueryRefused(base: string, rest: Options)
    requires WellFormed(rest)
    ensures var q := ("q", List([Dict([Entry("field", Str("x"))])]));
      WellFormed([q] + rest) && ApiUrl(base, [q] + rest) == Err(TypeError(RsqlMessage))
  {
    var q := ("q", List([Dict([Entry("field", Str("x"))])]));
    var o := [q] + rest;
    assert RejectedQuery(o[0]);
    assert WellFormed(o) by {
      forall i | 0 <= i < |o| ensures (o[i].0 == "sort" || o[i].0 == "attrs") ==> IsPair(o[i].1) {
        if i > 0 { assert o[i] == rest[i - 1]; }
      }
    }
    OperatorsFail(o);
  }
}
