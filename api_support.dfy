/** The request headers of a session and the import actions of the upload
    (molgenis/api_support.py). */
module ApiSupport {
  import opened PyData

  const TokenHeaderName := "x-molgenis-token"

  /** A frozen `Headers`: the token and the two header maps derived from it
      once, when it is made. */
  datatype Headers = Headers(token: Option<string>, tokenHeader: map<string, string>, ctTokenHeader: map<string, string>)

  /** `Headers(token=token)`: with a token, the token header, and the token
      header with the JSON content type; without one (None or ""), no
      headers at all. */
  function MakeHeaders(token: Option<string>): (h: Headers)
    ensures h.token == token
    ensures token.Some? && token.value != "" ==>
      && h.tokenHeader == map[TokenHeaderName := token.value]
      && h.ctTokenHeader == map[TokenHeaderName := token.value, "Content-Type" := "application/json"]
    ensures token.None? || token.value == "" ==> h.tokenHeader == map[] && h.ctTokenHeader == map[]
  {
    if token.Some? && token.value != "" then
      Headers(token, map[TokenHeaderName := token.value],
              map[TokenHeaderName := token.value, "Content-Type" := "application/json"])
    else Headers(token, map[], map[])
  }

  /** With a token, the content-type headers extend the plain ones by exactly
      the JSON content type; without one, there is no content type either.
      A session sends its token exactly when it has a non-empty one. */
  lemma CtHeadersExtend(token: Option<string>)
    ensures var h := MakeHeaders(token);
      && (forall k :: k in h.tokenHeader ==> k in h.ctTokenHeader && h.ctTokenHeader[k] == h.tokenHeader[k])
      && (forall k :: k in h.ctTokenHeader && k !in h.tokenHeader ==> k == "Content-Type")
      && (TokenHeaderName in h.tokenHeader <==> token.Some? && token.value != "")
    ensures var h := MakeHeaders(token);
      token.Some? && token.value != "" ==>
        h.ctTokenHeader.Keys == h.tokenHeader.Keys + {"Content-Type"} && h.ctTokenHeader["Content-Type"] == "application/json"
    ensures token.None? || token.value == "" ==> MakeHeaders(token).ctTokenHeader == map[]
  {
    var h := MakeHeaders(token);
    if token.Some? && token.value != "" {
      assert h.ctTokenHeader.Keys == h.tokenHeader.Keys + {"Content-Type"};
    }
  }

  /** `ImportDataAction`. */
  datatype ImportDataAction = Add | AddUpdateExisting | Update | AddIgnoreExisting

  /** `ImportDataAction.<member>.value`, the `action` parameter of an upload. */
  function DataActionValue(a: ImportDataAction): string {
    match a
    case Add => "add"
    case AddUpdateExisting => "add_update_existing"
    case Update => "update"
    case AddIgnoreExisting => "add_ignore_existing"
  }

  /** `ImportDataAction(s)`: the member with value `s`, if any. */
  function DataActionOf(s: string): (r: Option<ImportDataAction>)
    ensures r.Some? ==> DataActionValue(r.value) == s
  {
    if s == "add" then Some(Add)
    else if s == "add_update_existing" then Some(AddUpdateExisting)
    else if s == "update" then Some(Update)
    else if s == "add_ignore_existing" then Some(AddIgnoreExisting)
    else None
  }

  /** Each data action has its own value, and the value names it back. */
  lemma DataActionValues(a: ImportDataAction, b: ImportDataAction)
    ensures DataActionOf(DataActionValue(a)) == Some(a)
    ensures DataActionValue(a) == DataActionValue(b) <==> a == b
  {
    assert DataActionOf(DataActionValue(b)) == Some(b);
  }

  /** `ImportMetadataAction`. */
  datatype ImportMetadataAction = MetaAdd | MetaUpdate | MetaUpsert | MetaIgnore

  /** `ImportMetadataAction.<member>.value`, the `metadataAction` parameter of
      an upload. */
  function MetadataActionValue(a: ImportMetadataAction): string {
    match a
    case MetaAdd => "add"
    case MetaUpdate => "update"
    case MetaUpsert => "upsert"
    case MetaIgnore => "ignore"
  }

  /** `ImportMetadataAction(s)`: the member with value `s`, if any. */
  function MetadataActionOf(s: string): (r: Option<ImportMetadataAction>)
    ensures r.Some? ==> MetadataActionValue(r.value) == s
  {
    if s == "add" then Some(MetaAdd)
    else if s == "update" then Some(MetaUpdate)
    else if s == "upsert" then Some(MetaUpsert)
    else if s == "ignore" then Some(MetaIgnore)
    else None
  }

  /** Each metadata action has its own value, and the value names it back. */
  lemma MetadataActionValues(a: ImportMetadataAction, b: ImportMetadataAction)
    ensures MetadataActionOf(MetadataActionValue(a)) == Some(a)
    ensures MetadataActionValue(a) == MetadataActionValue(b) <==> a == b
  {
    assert MetadataActionOf(MetadataActionValue(b)) == Some(b);
  }
}
