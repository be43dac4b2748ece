# molgenis-py-client, modelled in Dafny

This project models the client-side logic of the MOLGENIS Python REST client
(`molgenis-py-client`) and proves properties of it. The model covers:

- the query-string builder of the REST API v2 (`molgenis/query_utils.py`);
- the logic of `molgenis.client.Session`, with the HTTP traffic turned into
  parameters. This covers the token state, the batched read `get`, the
  add/update split of `upsert`, the in-place rewrite of `to_upload_format`,
  the polling of an import job and the ids read back from the server;
- the helpers in `molgenis/utils.py`: dict merge, one-to-many stripping,
  root/API URL derivation and the CSV list rewrite;
- the construction of the error message in `molgenis/errors.py`;
- the session headers and import-action enums in `molgenis/api_support.py`;
- the EMX2 CSV renderer in `molgenis/emx2/utils.py`.

Files and modules, one per source file:

| file | module | models |
|---|---|---|
| `pydata.dfy` | `PyData` | The Python values the client handles. Dicts are insertion-ordered `seq<Entry>`: lookup takes the first match, `pop` filters, and `d[k] = v` replaces in place or appends. Also `str`/`repr`, `split`/`join`/`rstrip`, and a `Row` class for a dict object changed in place through shared references. `RunRows` describes what a loop `for row in rows: <change row>` does to the row objects, including a row object listed twice. |
| `query_utils.dfy` | `QueryUtils` | `build_api_url`, `process_query`, `process_sort`, `split_if_not_none`, `merge_attrs` |
| `errors.dfy` | `Errors` | `MolgenisRequestError`, `raise_exception`, and `str()` of a bytes body |
| `api_support.dfy` | `ApiSupport` | `Headers`, `ImportDataAction`, `ImportMetadataAction` |
| `utils.dfy` | `Utils` | `merge_two_dicts`, `remove_one_to_manys`, `set_urls`, the list rewrite of `create_csv` |
| `client.dfy` | `Client` | `Session`: constructor, `login`, `logout`, `get`, `add`/`add_all` ids, `upsert`, `to_upload_format`, `upload_zip` parameters, `_await_import_job`, the `rindex` slice of `get_meta` |
| `emx2_utils.dfy` | `Emx2Utils` | `cleanUrl`, `toCsvString` |

The following are parameters of the model rather than I/O:
- a read is a list of pages, each with its rows and, when it has a `nextHref`,
  the `start` given in that link;
- a poll of an import job is a list of `sys_ImportRun` answers;
- the server's ids are a set;
- metadata is plain data;
- the UTF-8 and JSON decoding of an error body is a function that gives
  `None` where Python raises `ValueError`.

Python's exceptions are `Result`/`Outcome` values. These are:
- the `TypeError` for a list query;
- the `KeyError`/`TypeError` of `to_upload_format`;
- the `MolgenisRequestError` or lookup failure of `raise_exception`;
- the `TypeError` of `",".join` on non-strings;
- the `TypeError` of iterating a key set that is still `None`.

Where the code and its documentation differ, the model follows the code.

- `rstrip('/api')` strips a trailing run of the characters `/`, `a`, `p` and
  `i`, not the suffix `/api`. So `host/wiki` gives the root `host/wik/`
  (`Utils.WikiExample`).
- `logout` keeps the old headers, which still carry the dropped token.
- `Headers` promises a `Content-Type: application/json` header, but builds it
  only when there is a token. A session without a token sends the JSON bodies
  of `add_all`, `update_one`, `update_all` and `delete_list` with no `Content-Type`
  (`ApiSupport.CtHeadersExtend`).
- `cleanUrl` removes one `/` and is not idempotent.
- `MolgenisRequestError` stores `response` only when the response is truthy.
  For `requests`, an error response (status 4xx/5xx) is false, so the error
  raised for a failed request never has that attribute
  (`Errors.ErrorResponseNotAttached`).
- `to_upload_format` assumes each row object appears once. A row object
  listed twice with a non-empty many-reference fails the second time
  (`Client.NormalizeTwiceFails`).

## Model

| member | source | states |
|---|---|---|
| `PyData.Dedup` | molgenis/query_utils.py:59 | the distinct elements of a list, no duplicates, exactly the members of the list (the model's listing of a Python set) |
| `PyData.DedupSnoc` | molgenis/emx2/utils.py:34-35 | appending an element to the list adds it to the distinct list exactly when it was not there yet, at the end |
| `PyData.KeysOfHas` | molgenis/emx2/utils.py:33 | a key is among `d.keys()` exactly when some entry of the dict carries it |
| `PyData.Get` | molgenis/client.py:307 | `d[k]` is defined exactly when the dict has the key `k` |
| `PyData.GetAt` | molgenis/emx2/utils.py:61 | in a dict without repeated keys, looking up an entry's key gives that entry's value |
| `PyData.RemoveKey` | molgenis/client.py:412-413 | `d.pop(k, None)` leaves no `k`, keeps every other entry and adds none |
| `PyData.PutPlaces` | molgenis/emx2/utils.py:47 | assigning an existing key keeps every key in its place; a new key is appended last |
| `PyData.PutGet` | molgenis/utils.py:83 | after `d[k] = v`, `d[k]` reads `v` and every other key reads as before |
| `PyData.Split` | molgenis/query_utils.py:47 | `s.split(c)` gives at least one part, and no part holds `c` |
| `PyData.JoinSplit` | molgenis/query_utils.py:47 | joining the parts of `s.split(c)` with `c` gives `s` back |
| `PyData.SplitJoin` | molgenis/query_utils.py:64 | splitting a join gives the parts back when no part holds the separator |
| `PyData.LastSegmentIsSuffix` | molgenis/client.py:248 | `s.split("/")[-1]` is a suffix of `s` without `/`, preceded by a `/` unless it is all of `s` |
| `PyData.RStrip` | molgenis/utils.py:124 | `s.rstrip(chars)` is a prefix of `s` that does not end in a stripped character, and everything after it is a stripped character |
| `PyData.RStripAppend` | molgenis/utils.py:124 | stripping ignores a tail made only of stripped characters |
| `PyData.RStripFixed` | molgenis/utils.py:124 | a string that does not end in a stripped character is left unchanged |
| `PyData.RunRowsAt` | molgenis/client.py:410-425 | at row `i` of an in-place loop, a failing row stops the loop with its error; otherwise its new content is what later rows see |
| `PyData.RunRowsUntouched` | molgenis/client.py:410-425 | row objects outside the list keep their content after such a loop |
| `PyData.RunRowsDistinct` | molgenis/client.py:410-425 | with distinct row objects, the loop succeeds exactly when every row's step succeeds, and each object ends with its own step applied once to its old content |
| `PyData.RunRowsIdempotent` | molgenis/emx2/utils.py:44-47 | with an idempotent step, a row object listed several times ends as if changed once, and the loop fails exactly when some row's step fails |
| `QueryUtils.ProcessSortSplits` | molgenis/query_utils.py:37-42 | for a truthy column without `:`, the operator is `sort=` followed by text that splits at `:` into the column and then the parts of the order, if one is given; with a `:`-free order that is exactly [column, order] |
| `QueryUtils.SplitIfNotNone` | molgenis/query_utils.py:45-47 | no names exactly for None or `""`; otherwise names without commas that join back to the string |
| `QueryUtils.MergeAttrs` | molgenis/query_utils.py:50-64 | no operator exactly when neither attributes nor expands are given; otherwise `attrs=` and the operands joined by `,` |
| `QueryUtils.MergeAttrsOperands` | molgenis/query_utils.py:53-61 | the unique attributes are without duplicates and are exactly the attributes (with `*` when only expands are given) and the expands; an operand ends in `(*)` exactly when its attribute is an expand |
| `QueryUtils.MergeAttrsExpandsOnly` | molgenis/query_utils.py:56-61 | with only expands, the operand set is `{*}` together with `e(*)` for each expand |
| `QueryUtils.TaggedWildcard` | molgenis/query_utils.py:56-61 | tagging the wildcard and the expands gives exactly `*` and each `e(*)` |
| `QueryUtils.MergeAttrsSplits` | molgenis/query_utils.py:64 | the operator's value splits at commas back into the operands, so a reader of the URL recovers the attribute set |
| `QueryUtils.BuildApiUrl` | molgenis/query_utils.py:4-27 | the builder's loop over the options computes the URL the option fold defines, or the first error |
| `QueryUtils.OperatorsErrExtends` | molgenis/query_utils.py:8-11 | once an option raises, the later options do not change the outcome |
| `QueryUtils.OperatorsNonEmpty` | molgenis/query_utils.py:19-20 | only non-empty operators are collected |
| `QueryUtils.OperatorOfFails` | molgenis/query_utils.py:10-11 | an option raises exactly when it is a `q` holding a non-empty list, and the error is the RSQL `TypeError` |
| `QueryUtils.OperatorsSnoc` | molgenis/query_utils.py:8-20 | the operators of a list of options are those of all but the last, extended by the last option's |
| `QueryUtils.OperatorsFail` | molgenis/query_utils.py:8-20 | the builder fails exactly when some `q` option holds a non-empty list, always with the RSQL `TypeError` |
| `QueryUtils.UrlShape` | molgenis/query_utils.py:22-27 | without operators the URL is the base URL itself, with no `?`; otherwise it is the base URL, `?` and the operators joined by `&` |
| `QueryUtils.QueryOperator` | molgenis/query_utils.py:10-11 | a falsy `q` gives no operator, a truthy list is refused, a truthy string `s` gives exactly `q=s` |
| `QueryUtils.GenericOperator` | molgenis/query_utils.py:16-17 | any other option never fails and is emitted as `key=value` exactly when its value is truthy and it is not a page size of 100 |
| `QueryUtils.DefaultOptionsGiveBase` | molgenis/query_utils.py:16-27 | a query-less read with page size 100, start 0 and no attributes or sort gives the bare base URL |
| `QueryUtils.OperatorsSilent` | molgenis/query_utils.py:19-20 | options that each contribute nothing give no operators |
| `QueryUtils.ListQueryRefused` | molgenis/query_utils.py:31-32 | a query given as a list of filter dicts is refused whatever the other options are |
| `Errors.BytesReprPlain` | molgenis/errors.py:18-19 | a body of printable characters without quotes or backslashes renders as `b'<body>'` |
| `Errors.ErrorMessageOf` | molgenis/errors.py:16 | `errors[0].message` is found only in a dict that has `errors` |
| `Errors.ErrorMessageOfBody` | molgenis/errors.py:16 | the error body MOLGENIS sends yields the message it carries |
| `Errors.RaiseException` | molgenis/errors.py:11-22 | `raise_exception` never returns: it raises a `MolgenisRequestError` with a string message, or the lookup itself raises |
| `Errors.RaiseWithoutContent` | molgenis/errors.py:14-22 | without a body, the message is `args[0]` and no response is given |
| `Errors.RaiseWithServerMessage` | molgenis/errors.py:14-20 | a body with a MOLGENIS error gives `<args[0]>: <message>`, and the response is given |
| `Errors.RaiseWithUndecodable` | molgenis/errors.py:17-20 | an undecodable body gives `<args[0]>: b'<body>'`, and the response is given |
| `Errors.RaiseLookupFailure` | molgenis/errors.py:16-17 | the only way not to raise a `MolgenisRequestError` is a decodable body without `errors[0].message` |
| `Errors.ErrorResponseNotAttached` | molgenis/errors.py:20 | for an error status (4xx/5xx) the raised error never has a `response` attribute |
| `ApiSupport.CtHeadersExtend` | molgenis/api_support.py:29-36 | with a non-empty token, the content-type headers are the token headers plus `Content-Type: application/json`; without one (None or `""`) both are empty, so no `Content-Type` is sent; the token is sent exactly when it is non-empty |
| `ApiSupport.DataActionOf` | molgenis/api_support.py:39-45 | a data action found for a string has that string as its value |
| `ApiSupport.DataActionValues` | molgenis/api_support.py:39-45 | the four data actions have distinct values, and each value names its action back |
| `ApiSupport.MetadataActionOf` | molgenis/api_support.py:48-54 | a metadata action found for a string has that string as its value |
| `ApiSupport.MetadataActionValues` | molgenis/api_support.py:48-54 | the four metadata actions have distinct values, and each value names its action back |
| `Utils.PutKeys` | molgenis/utils.py:83 | an assignment keeps the old keys as a prefix, adds only its own key and keeps a dict a dict |
| `Utils.UpdateKeys` | molgenis/utils.py:82-83 | `z.update(y)` keeps `z`'s keys first, in order, and keeps a dict a dict |
| `Utils.UpdateHasKey` | molgenis/utils.py:82-83 | after `z.update(y)`, the keys are those of `z` and of `y` |
| `Utils.UpdateGet` | molgenis/utils.py:82-83 | after `z.update(y)`, a key of `y` has `y`'s value and any other key has `z`'s |
| `Utils.MergeTwoDictsSpec` | molgenis/utils.py:80-84 | the merged keys are those of `x` then the new ones of `y`; `y` wins on shared keys and `x` keeps the others; `x` is a value and unchanged |
| `Utils.OneToManyNames` | molgenis/utils.py:107-111 | the names collected are exactly those of the attributes whose `fieldType` is `ONE_TO_MANY` |
| `Utils.WithoutKeysMembers` | molgenis/utils.py:113-115 | a stripped row keeps exactly the entries whose key is not removed |
| `Utils.WithoutKeysGet` | molgenis/utils.py:113-115 | a removed key reads as absent, any other key as before |
| `Utils.RemoveOneToManys` | molgenis/utils.py:101-116 | the copy has one row per input row, in order, each the input row without its one-to-many attributes; the input rows are values and unchanged |
| `Utils.RemoveKeys` | molgenis/utils.py:114-115 | the inner loop of `pop`s leaves the row without the named keys |
| `Utils.RemovedRowsSpec` | molgenis/utils.py:107-116 | no one-to-many attribute is left in a stripped row, and every other key keeps its value |
| `Utils.RootUrl` | molgenis/utils.py:124 | the root URL always ends with `/` |
| `Utils.RootIsBare` | molgenis/utils.py:124 | before its final `/`, the root URL ends in none of `/`, `a`, `p`, `i` |
| `Utils.SetUrlsForms` | molgenis/utils.py:119-127 | for a server address `b` that ends in none of `/`, `a`, `p`, `i`, the forms `b`, `b/`, `b/api` and `b/api/` all give (`b/api/`, `b/`) |
| `Utils.SetUrlsIdempotent` | molgenis/client.py:489-495 | feeding back the resulting root or API URL gives the same pair |
| `Utils.SetUrlsStripsCharacters` | molgenis/utils.py:124 | any tail made of `/`, `a`, `p`, `i` is stripped, not only the suffix `/api` |
| `Utils.WikiExample` | molgenis/utils.py:124 | `host/wiki` gives the root `host/wik/` |
| `Utils.JoinLists` | molgenis/utils.py:74-76 | a row fails exactly when one of its fields fails; otherwise every field keeps its key and place and holds its rewritten value |
| `Utils.JoinListsIdempotent` | molgenis/utils.py:74-76 | a rewritten row keeps its keys and holds no list, so a second rewrite changes nothing |
| `Utils.JoinListsFirstError` | molgenis/utils.py:74-76 | a row's rewrite fails with the error of its first field whose list holds a non-string item |
| `Utils.JoinRowLists` | molgenis/utils.py:74-76 | the row object is rewritten in place to the rewritten row; otherwise it raises the first failing field's error, with the fields before that field already rewritten and the rest as they were |
| `Utils.RewriteTable` | molgenis/utils.py:73-77 | the table succeeds exactly when the in-place loop over its row objects does, and leaves them as that loop does; otherwise it raises the error of the first failing row |
| `Utils.RewriteNext` | molgenis/utils.py:73-76 | one pass rewrites row `i` in place as the rest of the loop sees it, or raises the error with which the rest of the loop fails |
| `Utils.RewriteTableOnce` | molgenis/utils.py:73-77 | a row object listed several times is rewritten as if once, and the table fails exactly when one of its rows fails |
| `Client.LastPage` | molgenis/client.py:171-172 | the first page without a next link; the read cannot go past it |
| `Client.FirstLastPageIsFirst` | molgenis/client.py:167-170 | every page before it has a next link |
| `Client.RequestsSpec` | molgenis/client.py:151-172 | the loop goes on while it wants more rows and the page links on, and stops after the first page where either ends |
| `Client.RequestsStep` | molgenis/client.py:151-170 | a page with a next link, while more rows are wanted, leads to one more request |
| `Client.BatchOptions` | molgenis/client.py:193-197 | the five options of a batch request, named `q`, `attrs`, `num`, `start` and `sort` in that order, in the shape the builder accepts |
| `Client.BatchOptionsAccepted` | molgenis/client.py:193-199 | a batch request's URL always builds, because its query is a string or None |
| `Client.RequestUrl` | molgenis/client.py:199 | the URL of a batch request, built by the builder's loop |
| `Client.Starts` | molgenis/client.py:149-170 | the `start` of each batch request: the caller's start first, then each page's next start |
| `Client.RequestUrls` | molgenis/client.py:152-161 | the URLs requested, one per start, in order |
| `Client.ReadsAllPages` | molgenis/client.py:149-172 | without `num`, the read requests every page up to the one without a next link and keeps all their rows, in order |
| `Client.ReadStopsAtNum` | molgenis/client.py:151 | with a positive `num`, the read stops once it holds `num` rows or the pages run out |
| `Client.ReadsFirstRows` | molgenis/client.py:151-175 | with a positive `num`, the result is the first `min(num, total)` rows of everything the server offers |
| `Client.RequestsStop` | molgenis/client.py:151-172 | the read stops before the last page only once it holds `num` rows |
| `Client.RawReadsOnePage` | molgenis/client.py:162-163 | a raw read makes exactly one request, unless a negative `num` keeps it from making any |
| `Client.SortsByIdAttribute` | molgenis/client.py:146-147 | without a sort column, the read sorts by the entity's id attribute, in the order asked |
| `Client.TakePage` | molgenis/client.py:165-172 | one batch adds the page's rows, goes on exactly when the page links on, and then takes the next start |
| `Client.ReadPages` | molgenis/client.py:149-172 | the batch loop returns the rows of every page it requests, or the first page as it came for a raw read, and records the start of each request |
| `Client.IdOf` | molgenis/client.py:248 | the id read from a URL never holds `/`; the same `split("/")[-1]` gives the id of `add`, of each `add_all` resource and of the import job (`molgenis/client.py:450`) |
| `Client.IdOfResource` | molgenis/client.py:248 | the id the server put after the last `/` of a resource URL is read back |
| `Client.AddedIdsOfResources` | molgenis/client.py:261 | when each `href` is a path, `/` and an id without `/`, `add_all` returns exactly those ids, one per resource, in order |
| `Client.UpsertPartition` | molgenis/client.py:304-310 | each entity goes to exactly one list: to the updates exactly when it has the id attribute and its id exists |
| `Client.UpsertAllNew` | molgenis/client.py:306-310 | with no existing id, everything is added in order and nothing updated |
| `Client.UpsertAllExisting` | molgenis/client.py:306-308 | when every id exists, everything is updated in order and nothing added |
| `Client.LastIdName` | molgenis/client.py:406-408 | the name of an id attribute of the referenced entity (the last one) |
| `Client.ScanRefIdsSpec` | molgenis/client.py:406-408 | the inner loop sets only the attribute's own entry, to the last id attribute, and only when there is one |
| `Client.RefIdsOfHas` | molgenis/client.py:404-408 | an attribute gets an id exactly when some attribute of that name refers to an entity with an id attribute |
| `Client.RefIdsOfLast` | molgenis/client.py:404-408 | the last such attribute and its last id attribute win |
| `Client.RefId` | molgenis/client.py:418 | `ref[ref_ids[attr]]` succeeds exactly when the attribute has an id and the object holds it, and reads that value |
| `Client.RefIdList` | molgenis/client.py:422 | the list succeeds exactly when every element does, and holds their ids in order |
| `Client.NormalizeValueSpec` | molgenis/client.py:416-423 | an object becomes its id, a non-empty list the list of its ids, anything else (an empty list too) stays, and a reference without an id fails |
| `Client.NormalizeFieldsSpec` | molgenis/client.py:415-423 | a row fails exactly when one field fails; otherwise every field keeps its key and place |
| `Client.DataFields` | molgenis/client.py:412-413 | after the pops, the keys are the old ones except `_href` and `_meta` |
| `Client.NormalizedRow` | molgenis/client.py:411-423 | a normalized row has no `_href` or `_meta`, keeps every other field in place and holds the normalized values |
| `Client.NormalizeTwiceFails` | molgenis/client.py:420-422 | a row object normalized twice fails: the ids of a many-reference are strings and cannot be indexed |
| `Client.UploadFormatDistinct` | molgenis/client.py:410-426 | distinct row objects are each normalized once, from their old content |
| `Client.NormalizeFieldsFirstError` | molgenis/client.py:415-423 | a row's normalization fails with the error of its first failing field |
| `Client.NormalizeFieldsInPlace` | molgenis/client.py:415-423 | the field loop rewrites the row object in place to the normalized fields; otherwise it raises the first failing field's error, with the fields before that field already rewritten and the rest as they were |
| `Client.NormalizeRow` | molgenis/client.py:411-423 | the row object becomes the normalized row; otherwise it raises the first failing field's error, with `_href` and `_meta` already popped and the fields before the failing one rewritten |
| `Client.NormalizeNext` | molgenis/client.py:410-425 | one pass normalizes row `i` in place as the rest of the loop sees it, or raises the error with which the rest of the loop fails |
| `Client.NormalizeRows` | molgenis/client.py:410-426 | the loop returns the same row objects exactly when the in-place run succeeds, and leaves them as that run does; otherwise it raises the error of the first failing row |
| `Client.BuildRefIds` | molgenis/client.py:402-408 | the loops build the reference-id map the metadata defines |
| `Client.FirstDone` | molgenis/client.py:479-487 | the first poll that finds the job not running; every poll before it finds it running |
| `Client.UploadParams` | molgenis/client.py:439 | the upload sends exactly `action` and `metadataAction`, whose values name the chosen actions back |
| `Client.RIndex` | molgenis/client.py:389 | `rindex` finds the last occurrence, and fails exactly when there is none |
| `Client.RemoveChar` | molgenis/client.py:389 | `replace(c, "")` leaves no `c` and keeps a string without `c` |
| `Client.StripLeadingSlash` | molgenis/client.py:389 | the slice from the last `/` without its `/`s is what follows that `/` |
| `Client.RefEntityIdIsLastSegment` | molgenis/client.py:388-389 | the referenced entity's id is the last segment of its URL, and a URL without `/` raises |
| `Client.Session.constructor` | molgenis/client.py:32-45 | a session starts with the URLs `set_urls` gives, the token given and headers built from it |
| `Client.Session.Login` | molgenis/client.py:47-64 | on success the returned token becomes the session's and the headers are rebuilt from it; an error raises through `raise_exception` and changes nothing |
| `Client.Session.Logout` | molgenis/client.py:66-75 | on success the token is dropped and the headers stay as they were; an error raises and changes nothing |
| `Client.Session.Get` | molgenis/client.py:110-175 | exactly the result and the batch URLs of the read: the first page for a raw read, else the truncated rows of the pages requested, sorted by the id attribute when no column is given |
| `Client.Session.Upsert` | molgenis/client.py:291-317 | the adds, stripped of one-to-many values, then the updates, each in input order, to the entity's v2 URL |
| `Client.Session.ToUploadFormat` | molgenis/client.py:394-426 | the same row objects, each normalized in place in list order; otherwise the error of the first failing row, as the in-place run over the rows meets it |
| `Client.Session.AwaitImportJob` | molgenis/client.py:478-487 | polls until the first answer that is not RUNNING, once per answer; FAILED raises with the job's message, anything else returns |
| `Emx2Utils.CleanUrlSpec` | molgenis/emx2/utils.py:10 | exactly one trailing `/` is removed; a URL without one, the empty one included, stays |
| `Emx2Utils.CleanUrlTwice` | molgenis/emx2/utils.py:10 | cleaning is not idempotent: `a//` gives `a/`, then `a` |
| `Emx2Utils.AllKeysSpec` | molgenis/emx2/utils.py:32-33 | a key is among all the keys exactly when some row has it |
| `Emx2Utils.DedupOrder` | molgenis/emx2/utils.py:31-35 | the deduplicated keys keep the order of their first appearance |
| `Emx2Utils.KeySetSpec` | molgenis/emx2/utils.py:27-36 | the key set has no duplicates, holds every key of every row and no other, in order of first appearance |
| `Emx2Utils.FillMissingSpec` | molgenis/emx2/utils.py:45-47 | filling keeps every entry in place, adds only the missing keys, with None, and leaves the row with every key |
| `Emx2Utils.FillMissingComplete` | molgenis/emx2/utils.py:45-47 | a row that has every key is left as it is |
| `Emx2Utils.FillMissingIdempotent` | molgenis/emx2/utils.py:45-47 | filling twice is filling once |
| `Emx2Utils.MissingKeysApplied` | molgenis/emx2/utils.py:44-47 | each row object ends filled once, however often it appears in the data |
| `Emx2Utils.FillAllHasKeys` | molgenis/emx2/utils.py:38-48 | after filling, every row has every key |
| `Emx2Utils.RowLineSplits` | molgenis/emx2/utils.py:59-62 | a line of plain cells splits back into the row's values in key order and holds no line break |
| `Emx2Utils.CsvTextParts` | molgenis/emx2/utils.py:64-66 | the text is the header, the row lines and an empty last line, joined by line breaks |
| `Emx2Utils.CsvTextLines` | molgenis/emx2/utils.py:57-66 | for plain keys and values, the text splits back into the header, one line per row in data order and an empty last line, and each line into its values in key order |
| `Emx2Utils.CsvPartsPlain` | molgenis/emx2/utils.py:57-66 | no line of the text holds a line break |
| `Emx2Utils.ToCsvString.constructor` | molgenis/emx2/utils.py:15-25 | a renderer holds its rows and neither key set nor text yet |
| `Emx2Utils.ToCsvString.CreateKeySet` | molgenis/emx2/utils.py:27-36 | the key set becomes the keys of all rows, each once, at its first appearance; nothing else changes |
| `Emx2Utils.ToCsvString.ApplyMissingKeys` | molgenis/emx2/utils.py:38-48 | each row object gets its missing keys with None, in place; without a key set a non-empty list raises and nothing changes |
| `Emx2Utils.ToCsvString.Write` | molgenis/emx2/utils.py:50-66 | the key set of the original rows, every row filled, and the text of the header and one line per row |
| `Emx2Utils.FilledContents` | molgenis/emx2/utils.py:44-47 | after the loop every row object holds its original content filled, even when listed twice |
| `Emx2Utils.FillNext` | molgenis/emx2/utils.py:44-47 | one pass fills row `i` in place as the rest of the loop sees it |
| `Emx2Utils.CollectKeys` | molgenis/emx2/utils.py:31-35 | the nested loops produce the key set |
| `Emx2Utils.AddNewKeys` | molgenis/emx2/utils.py:33-35 | the inner loop appends the row's unseen keys, in the row's order |
| `Emx2Utils.RenderLines` | molgenis/emx2/utils.py:57-62 | the loop renders one line per row object, in order |
| `Emx2Utils.RenderCsv` | molgenis/emx2/utils.py:57-66 | the rendered text is the header line, the body and a final line break |
| `Emx2Utils.RowAsString` | molgenis/emx2/utils.py:59-61 | the inner loop reads the row's value for each key, in key order |
| `Emx2Utils.FillRow` | molgenis/emx2/utils.py:45-47 | the inner loop fills in the row object's missing keys, in place |

## Left out

- HTTP traffic:
  - every request, `raise_for_status` and `response.json()`;
  - the cookie policy `BlockAll` (a foreign `http.cookiejar` interface with no logic of its own).
  Pages, poll answers, the existing ids, the login token and the error responses are parameters.
- The requests inside `get_meta`, and its recursion over referenced entities. The expanded metadata reaches `to_upload_format` as data. Only the `rindex` slice of `molgenis/client.py:389` is modelled.
- `urlparse`/`parse_qs` on `nextHref`: a page gives its next `start` directly, as a string.
- `quote_plus`: URLs take the entity name as it is given, already quoted.
- File and archive handling:
  - `upload_zip`'s reading of the file and its answer text;
  - `import_data` and `_create_emx_archive`;
  - the `csv.DictWriter` output of `create_csv` (only its in-place list rewrite is modelled).
- `sleep(5)` in `_await_import_job`: timing only; the poll answers are a list.
- The other operations of `Session`: `get_by_id`, `update_one`, `update_all` (except as the second request of `upsert`), `delete`, `delete_list`, `get_attribute_meta_data` and `get_entity_meta_data`. Most are plain requests. Two have client-side logic that is left out. `get_by_id` (`molgenis/client.py:92-108`) builds its URL with `build_api_url` from its `attrs` option and, with `uploadable=True`, returns `to_upload_format(entity, [result])[0]`; both are made of modelled pieces (`QueryUtils.MergeAttrs`, `QueryUtils.BuildApiUrl`, `Client.Session.ToUploadFormat`), but `get_by_id` itself is not a member. `delete` (`molgenis/client.py:321-323`) appends the id only when `id_` is truthy, so `delete(entity, "")`, like `delete(entity)`, deletes every row of the entity; that URL choice is not modelled. `Client.Session.Upsert` takes the result of `get_entity_meta_data` and of the id read as parameters.
- `Client.Session.Get`: `uploadable=True` is not applied inside `Get`. The rows of a read are values, and the in-place rewrite it would call is `Client.Session.ToUploadFormat`, modelled on row objects.
- `Client.Session.Upsert`: the model assumes that the `add_all` request succeeds. The result is both requests, the adds and then the updates. In the source, a failing `add_all` raises through `raise_exception` (`molgenis/client.py:256-259`), and then `update_all` is never sent.
- `Client.Session.Get`: a request that fails midway raises through `raise_exception` in the source; the model assumes every batch request succeeds.
- `Client.Session.ToUploadFormat`: on a failing row the error is stated, but the content of the row objects is not; the earlier rows hold their normalized content and the failing row is partly rewritten (as `Client.NormalizeRow` states for one row).
- `Client.NormalizeRows`: on a failing row the error is stated, but not the content of the row objects at that point; `Client.NormalizeRow` states it for the failing row alone.
- `Utils.RewriteTable`: on a failing row the error is stated, but not the content of the row objects at that point; `Utils.JoinRowLists` states it for the failing row alone.
- `Client.Session.Get`: `q` is a string or None, as the parameter's type says, so the `TypeError` that a list query raises inside `_get_batch` cannot arise through `Get`; that refusal is stated about the builder itself (`QueryUtils.ListQueryRefused`, `QueryUtils.OperatorsFail`).
- `Client.Session.Get` and `Client.Session.AwaitImportJob`: the pages are a finite list that reaches a page without `nextHref`, and the poll answers a finite list that reaches a status other than RUNNING. So a server that always links on (with a falsy `num`), or a job that runs forever, is excluded; against those the source loops forever.
- `utils.py`'s own copies of `raise_exception` (`molgenis/utils.py:87-98`) and `MolgenisRequestError` (`molgenis/utils.py:38-42`) are the same code as those of `molgenis/errors.py` and are modelled once, in `Errors`. Likewise the copies of `Headers` and the enums in `molgenis/utils.py:20-64` are modelled once, in `ApiSupport`.
- The `print(attribute)` in `remove_one_to_manys`: output only.
- Floating-point values are not part of `Value`.
- The ids in `upsert`'s existing-id set are compared as model values, so Python's `1 == True` (equal hashes) is not reproduced, and neither is a `TypeError` for an unhashable id.
- `repr` of strings inside lists and dicts is single-quoted without escaping; Python's choice of quotes and its escapes for such strings are not modelled. The `repr` of a bytes body under `Errors` is modelled in full.
- `cleanUrl(None)` (the default argument) raises a `TypeError` in Python; `Emx2Utils.CleanUrl` takes a string.
- The shared mutable default `data=[]` of `toCsvString.__init__` is not modelled; a renderer is always given its rows.
- `merge_attrs` lists a Python set, whose iteration order is unspecified. The model lists the attributes in order of first appearance, and its properties are stated on the set of operands.
- URL building is split from the batch loop: `Client.ReadPages` records the start of each request and `Client.RequestUrls` builds the URLs afterwards. The URLs and their order are the same as in `get`.
