# Release-list query translation of the Helm REST façade

The service exposes Helm release operations over HTTP. Its install, update,
delete and list handlers hand their work to the Helm client and to Helm's
chart downloader. The one piece of logic the repository owns is how a
`GET /api/v1/releases` request is turned into release-list options. This
project models that translation and proves what it does.

- `contains` (`Releases.Contains`) is a linear membership test over a list of strings.
- `releaseStatusCodes` (`Releases.ReleaseStatusCodes`) maps a `status` parameter to release status codes.
  - The whole word `all` gives every code except SUPERSEDED.
  - Any other value is split on `,`. Each recognised keyword (`deployed`, `deleted`, `deleting`, `failed`, `superseded`, `pending`) is checked once, in a fixed order. `pending` adds three codes.
- `listOptions` (`Releases.ListOptionsFor`) chooses, from the query parameters:
  - the sort key and the sort order;
  - the limit, which is `strconv.Atoi` of `limit` with 256 as the fallback;
  - the status list, `[DEPLOYED, FAILED]` when `status` is empty;
  - offset, filter and namespace, which are passed through unchanged.

The Go library functions these rely on are modelled in module `GoStrings`:
- `strings.Split` with a one-character separator (`Split`);
- its inverse `strings.Join` (`Join`);
- what `strconv.Atoi` accepts (`Atoi`, with `Itoa` as its inverse).

Each method is proved against a specification function:
- `ReleaseStatusCodes` against `StatusesFor`. For a value other than `all`, `StatusesFor` keeps the codes of the fixed report order whose keyword is one of the segments.
- `ListOptionsFor` against `Atoi` and `StatusesFor`.

Lemmas then state the properties of those functions.

The request is modelled as a function from parameter name to value, where an
absent parameter is `""`. This is what go-restful's `QueryParameter` returns.
The result is a record of the chosen values, not Helm's option closures.
Status codes and sort choices are datatypes with named constructors. Their
numeric values belong to Helm's generated protobuf package, which is not part
of this model.

## Model

| member | source | states |
|---|---|---|
| `Releases.Contains` | main.go:118-126 | The result is true exactly when some element equals the string; an empty list gives false. |
| `Releases.ReleaseStatusCodes` | main.go:128-170 | The result equals `StatusesFor(code)`: for exactly `"all"` the eight codes UNKNOWN, DEPLOYED, DELETED, DELETING, FAILED, PENDING_INSTALL, PENDING_UPGRADE, PENDING_ROLLBACK in that order; otherwise the codes of DEPLOYED, DELETED, DELETING, FAILED, SUPERSEDED, PENDING_* whose keyword is one of the comma-separated segments. |
| `Releases.ListOptionsFor` | main.go:172-206 | Sort is LAST_RELEASED iff `sort_by` is `last_released`, else NAME. Order is DESC iff `sort_ord` is `desc`, else ASC. The limit is the parsed integer when `limit` parses and 256 otherwise. The statuses are `[DEPLOYED, FAILED]` when `status` is empty, else `StatusesFor(status)`. Offset, filter and namespace are passed through unchanged. |
| `Releases.StatusesMembers` | main.go:142-169 | Apart from `"all"`, a code is listed iff its keyword is one of the segments. `pending` stands for all three PENDING_* codes, and UNKNOWN is never listed. |
| `Releases.StatusesOrdered` | main.go:142-169 | Apart from `"all"`, the result is a subsequence of the fixed order DEPLOYED, DELETED, DELETING, FAILED, SUPERSEDED, PENDING_INSTALL, PENDING_UPGRADE, PENDING_ROLLBACK. It has no duplicates and at most 8 elements, even when keywords repeat. |
| `Releases.StatusesNoneRecognised` | main.go:142-169 | Apart from `"all"`, a value with no recognised segment yields the empty list. |
| `Releases.StatusesPendingTogether` | main.go:165-167 | PENDING_INSTALL, PENDING_UPGRADE and PENDING_ROLLBACK are listed all together or not at all, for every input. |
| `Releases.StatusesIgnoreSegmentOrder` | main.go:143-167 | Two comma-joined lists with the same set of segments give the same codes, whatever the order or repetition of the segments, provided neither joined value is `"all"`. |
| `Releases.StatusesAllOnlyWhole` | main.go:129-140 | `all,failed` is not the `"all"` branch and lists only FAILED. |
| `Releases.StatusesExactMatch` | main.go:145-167 | `FAILED, deployed,Pending ` selects nothing: its segments differ from keywords in case or by a space. |
| `Releases.StatusesRepeatedKeyword` | main.go:145-167 | `pending,deployed,pending` gives DEPLOYED and then the three PENDING_* codes: the fixed order, each code once. |
| `Releases.SelectByKeyword` | main.go:145-167 | Selecting from the fixed order is the same as the six keyword tests in sequence, the last adding the three pending codes together. |
| `GoStrings.Split` | main.go:143 | `strings.Split` with a one-character separator: every segment between separators, empty ones included and nothing trimmed. Its contract states that there is always at least one segment. The four lemmas below state what the segments are, and `""` gives `[""]`. |
| `GoStrings.JoinSplit` | main.go:143 | Joining the segments of `Split(s, sep)` with `sep` gives back `s`, so splitting loses nothing. |
| `GoStrings.SplitJoin` | main.go:143 | Splitting a join of one or more separator-free segments gives back exactly those segments. |
| `GoStrings.SplitSegments` | main.go:143 | No segment produced by `Split` contains the separator. |
| `GoStrings.SplitCount` | main.go:143 | `Split` gives one segment more than there are separators, so the empty string gives one empty segment. |
| `GoStrings.Atoi` | main.go:184 | A value parses exactly when it is an optional `+` or `-` followed by one or more decimal digits (so `""` fails). A leading `-` gives a value of at most 0, and any other accepted string a value of at least 0. |
| `GoStrings.AtoiItoa` | main.go:184-186 | Every integer written in decimal (`Itoa`) parses back to itself, so such a `limit` is used as given. |

## Left out

- The Install, Update, List and Delete handlers (main.go:53-116, main.go:208-241). They only decode JSON, call the Helm client or chart downloader, and map the outcome to HTTP 400/500/200/201. Those calls go to code outside this model. This includes List's mapping of `io.EOF` to an empty list.
- Route registration in `WebService` (main.go:243-276), `NewReleaseResource`, `init` and `main` (main.go:278-302). These cover framework configuration, flag parsing, client construction and network listening.
- The Helm option constructors (`helm.ReleaseListSort` and the others, main.go:197-205) and the `int32` conversions of the enums. The model returns the chosen values instead of the closures.
- GoStrings.Atoi: models only the syntax that `strconv.Atoi` accepts. It does not model the range error for values outside the platform's `int`. Where Go falls back to 256 for such a `limit`, `ListOptionsFor` uses the large value.
- GoStrings.Split: works on characters, not UTF-8 bytes. With the ASCII separator `,` this gives the same segments.
- A request parameter given several times: go-restful returns its first value. The model's request function already yields that one value.
- Chart download (main.go:62-70, main.go:94-102) happens inside Helm's `downloader.ChartDownloader` and is not modelled.
- main_test.go: an end-to-end test against a live server and cluster, with sleeps and polling.
