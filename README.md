# Fakturoid export scripts: a Dafny model

The repository holds two small Python scripts.

- `download-data.py` downloads every invoice or expense of a Fakturoid
  account. It builds the first request URL from a template, then runs a
  loop: fetch a page, append its JSON array to the output, and follow the
  `next` entry of the page's `Link` header until none is left.
- `json2csv.py` turns a JSON array of records into CSV. Each dict element is
  flattened into one row of dotted paths (`a.b`, `a.0`, `a.0.b`). The first
  row's keys form the header. A row with a key the header lacks makes the
  CSV writer raise.

The model has one module per concept:

| module | file | contents |
|---|---|---|
| `Wrappers` | `wrappers.dfy` | `Option` |
| `JsonValue` | `json_value.dfy` | an already-parsed JSON value; object members in document order |
| `Decimal` | `decimal.dfy` | `str(n)` for a list index, and its inverse |
| `OrderedDict` | `ordered_dict.dfy` | a Python dict as an insertion-ordered association list: `d[k] = v` and `d.update(e)` |
| `JsonFlatten` | `flatten.dfy` | `flatten`, and an independent list of leaf assignments it is proved equal to |
| `Json2Csv` | `csv_output.dfy` | `json_to_csv_output` as two loops: filter and flatten, then write rows |
| `Text` | `text.dfy` | `str.split`, `str.strip` and `s[1:-1]` |
| `LinkHeader` | `link_header.dfy` | the next-link rule of the `Link` header, and the loop that applies it |
| `SinceDate` | `since_date.dfy` | `strptime(since, '%Y-%m-%d')` and `isoformat()` |
| `DownloadData` | `download.dfy` | the first URL and the `download_all` loop over a given page source |

Flattening is stated two ways. `JsonFlatten.Flatten` follows the code:
`d[k] = v` for a scalar, `d.update(flatten(...))` for a nested container.
`JsonFlatten.Leaves` lists every (path, scalar) the traversal assigns, in
order. The theorem `FlattenIsUpdateOfLeaves` says the row is these
assignments applied one by one to an empty dict. The row's properties
follow from that:
- its keys are distinct and in order of first assignment;
- a path assigned twice takes its last value and keeps its first position;
- every value is a scalar.

The download loop is a method `DownloadData.Download`. It is proved equal
to the recursive reference `DownloadData.Crawl`. The lemmas about `Crawl`
prove three things:
- the output is the concatenation of the pages, in request order;
- each request is the `next` URL of the page before it;
- a first page without a usable `next` link means exactly one request.

The HTTP round trip is a parameter `fetch`: a function from a URL to the
page's array and its optional `Link` header. A `fuel` parameter bounds the
number of requests.

Where the code and a plain reading of its intent disagree, the model
follows the code:
- The relation text must be exactly `next` after `strip()`. Quotes are not
  removed, so the Web Linking form `rel="next"` (RFC 8288, section 3) never
  matches.
- An entry without `;` raises `IndexError`, even when an earlier entry is
  not `next` and a later one is.
- The URL is whatever lies between the first and the last character of
  the stripped first part. The brackets are not checked.
- `wrong_fields` is computed only for keys the header lacks. A row missing
  header keys gets empty cells and is not an error.

## Model

| member | source | states |
|---|---|---|
| `Decimal.NatToString` | json2csv.py:25 | `str(idx)` is a non-empty string of decimal digits, with a leading `0` only for index 0 |
| `Decimal.NatToStringRoundTrip` | json2csv.py:25 | reading `str(idx)` as a number gives `idx` back |
| `Decimal.NatToStringInjective` | json2csv.py:25 | different list indices give different key suffixes |
| `OrderedDict.Get` | json2csv.py:51-52 | a lookup misses exactly when the key is absent; otherwise it returns the value of the key's entry |
| `OrderedDict.Set` | json2csv.py:29-31 | `items[k] = v` on the ordered dict; its meaning is stated by `SetShape` and `SetSpec` |
| `OrderedDict.SetShape` | json2csv.py:29-31 | `items[k] = v` appends a new key at the end, and for an existing key replaces that entry in place |
| `OrderedDict.SetSpec` | json2csv.py:29-31 | after `items[k] = v`: `k` maps to `v`, every other key is unchanged, a new key is appended, keys stay distinct, no other value appears |
| `OrderedDict.LastValue` | json2csv.py:20-27 | the last value a sequence of assignments gives a key exists exactly when the key is assigned |
| `OrderedDict.Update` | json2csv.py:20-27 | `items.update(e)` as the entries of `e` set one after another; its meaning is stated by `UpdateKeys`, `UpdateGet` and `UpdateEntries` |
| `OrderedDict.UpdateKeys` | json2csv.py:20-27 | `items.update(e)` keeps the old keys in place and appends the new keys of `e` in order of first occurrence |
| `OrderedDict.UpdateGet` | json2csv.py:20-27 | after `items.update(e)` a key has the last value `e` gives it, or keeps its old value when `e` does not mention it |
| `OrderedDict.UpdateEntries` | json2csv.py:20-27 | `items.update(e)` keeps keys distinct and brings in only entries of `items` or of `e` |
| `OrderedDict.UpdateConcat` | json2csv.py:20-27 | updating with `a` then with `b` is updating with `a + b` |
| `OrderedDict.UpdateDistinct` | json2csv.py:20-27 | when no key repeats, an update appends the entries unchanged |
| `OrderedDict.UpdateWithUpdated` | json2csv.py:20-27 | `items.update(flatten(...))` equals applying the sub-object's leaf assignments to `items` directly |
| `JsonFlatten.Flatten` | json2csv.py:9-32 | a value that is not a dict flattens to the empty dict |
| `JsonFlatten.MemberKey` | json2csv.py:17 | `parent_key + sep + k if parent_key else k`: an empty parent key is false, so a top-level member keeps its bare name; stated by `FlattenNestedObject` and `TopLevelScalarLeaves` |
| `JsonFlatten.IndexKey` | json2csv.py:25 | `new_key + sep + str(idx)`; `FlattenScalarList` states the keys it gives, and `NatToStringInjective` that distinct indices give distinct keys |
| `JsonFlatten.FlattenFields` | json2csv.py:16-31 | the loop over `json_object.items()` with `items` as the accumulator; stated by `FlattenFieldsIsUpdate` |
| `JsonFlatten.FlattenElems` | json2csv.py:23-29 | the loop over `enumerate(v)`; stated by `FlattenElemsIsUpdate` |
| `JsonFlatten.FlattenIsUpdateOfLeaves` | json2csv.py:13-32 | the flattened dict is the traversal's leaf assignments applied one by one to `{}` |
| `JsonFlatten.FlattenFieldsIsUpdate` | json2csv.py:16-31 | the loop over the items of a dict, from any accumulator with distinct keys, performs the dict's leaf assignments on it |
| `JsonFlatten.FlattenElemsIsUpdate` | json2csv.py:23-29 | the loop over a list's elements performs the list's leaf assignments on the accumulator |
| `JsonFlatten.LeavesAreScalars` | json2csv.py:19-31 | every assigned value is neither a dict nor a list |
| `JsonFlatten.FlattenRow` | json2csv.py:13-32 | a flattened row has distinct keys and scalar values; its keys are the leaf paths in order of first assignment; each key holds the last value assigned to it |
| `JsonFlatten.TopLevelScalarLeaves` | json2csv.py:17-31 | at the top level, members with scalar values are assigned under their own names, in order |
| `JsonFlatten.FlattenScalarObject` | json2csv.py:16-31 | a dict of scalars with distinct keys flattens to itself, same keys, order and values |
| `JsonFlatten.FlattenNestedObject` | json2csv.py:17-20 | a member holding a dict contributes that dict flattened under `parent + sep + k`, or under `k` when the parent key is empty |
| `JsonFlatten.FlattenScalarList` | json2csv.py:22-29 | a member holding a list of scalars contributes `key + sep + str(i)` for each element `i`, in index order |
| `JsonFlatten.ElemLeavesConcat` | json2csv.py:23-29 | the element indices run on across a split of the list: the second part starts at the first part's length |
| `JsonFlatten.NestedListVanishes` | json2csv.py:23-27 | a list nested directly in a list contributes nothing, but keeps its index, so later elements keep their positions |
| `JsonFlatten.EmptyContainersVanish` | json2csv.py:19-27 | an empty list, an empty dict or a list of lists as a member's value adds no column |
| `JsonFlatten.FlattenExamples` | json2csv.py:9-32 | `{"a": {"b": 1}}` gives `a.b`, `{"a": [1, 2]}` gives `a.0` and `a.1`, `{"a": [{"b": 1}]}` gives `a.0.b` |
| `Json2Csv.ObjectsOf` | json2csv.py:40-41 | an element is kept exactly when it is in the input and is a dict |
| `Json2Csv.ObjectsOfAppend` | json2csv.py:39-42 | filtering distributes over concatenation, so kept elements stay in input order |
| `Json2Csv.RowCells` | json2csv.py:51-52 | each header column's cell is the row's value for that key, or the empty `restval` when the row lacks it |
| `Json2Csv.ExtraKeys` | json2csv.py:51-52 | the writer's `wrong_fields` for one row, in row order; stated by `ExtraKeysMembers` and `NoExtraKeys` |
| `Json2Csv.ExtraKeysMembers` | json2csv.py:51-52 | the fields `writerow` rejects are exactly the row keys missing from the header |
| `Json2Csv.NoExtraKeys` | json2csv.py:49-52 | a row whose keys all appear in the header is written without error, so the first row never fails |
| `Json2Csv.RowCellsOwnHeader` | json2csv.py:49-52 | under its own keys as the header, a row's cells are its values in order, none empty |
| `Json2Csv.FlattenedRows` | json2csv.py:39-42 | the first loop yields the flattening of each dict element, in input order |
| `Json2Csv.WriteRows` | json2csv.py:50-52 | the rows are written when no row has an extra key; otherwise the first row with one raises, naming its extra keys |
| `Json2Csv.JsonToCsvOutput` | json2csv.py:34-55 | no dict element gives the diagnostic; otherwise the header is the first row's keys, each row's cells are its values under that header, and the output fails at the first later row with a key the header lacks |
| `Text.Split` | download-data.py:60-64 | `split` yields at least one piece |
| `Text.SplitPieces` | download-data.py:60-64 | no piece of a split holds the separator, and there is a single piece exactly when the separator is absent |
| `Text.SplitPrefix` | download-data.py:60-64 | a separator-free prefix becomes the start of the first piece |
| `Text.JoinSplit` | download-data.py:60-64 | joining the pieces of a split gives the string back |
| `Text.SplitJoin` | download-data.py:60-64 | splitting a join of separator-free pieces gives the pieces back |
| `Text.Strip` | download-data.py:65-66 | `str.strip()` over Python's `isspace` characters; stated by `StripSpec` and `StripUnchanged` |
| `Text.StripSpec` | download-data.py:65-66 | `strip()` returns the slice between the leading and trailing whitespace; only whitespace is cut, and the result neither starts nor ends with it |
| `Text.StripUnchanged` | download-data.py:65-66 | a string without whitespace at its ends is its own `strip()` |
| `Text.DropEnds` | download-data.py:65 | `s[1:-1]` removes the first and last characters whatever they are, and gives `''` for fewer than two |
| `LinkHeader.EntryUrl` | download-data.py:65 | `parts[0].strip()[1:-1]`; `NextEntryRoundTrip` states that `<u>` gives `u` |
| `LinkHeader.EntryRel` | download-data.py:66 | `parts[1].strip()`, defined only for an entry holding `;`; `QuotedRelNeverMatches` states that `rel="next"` is not `next` |
| `LinkHeader.ScanLinks` | download-data.py:62-69 | the `for link in links` scan with its `break`; stated by `ScanLinksFirstDecisive` and `ScanLinksNone` |
| `LinkHeader.NextLink` | download-data.py:60-69 | the scan applied to `link_header.split(',')`; stated by `NextEntryRoundTrip`, `QuotedRelNeverMatches`, and computed by `ParseNextLink` |
| `LinkHeader.ScanLinksFirstDecisive` | download-data.py:62-69 | the scan is decided by the first entry that either lacks `;` or is `next`; later entries are ignored |
| `LinkHeader.ScanLinksNone` | download-data.py:61-70 | no link is found exactly when every entry has `;` and none is `next` |
| `LinkHeader.ParseNextLink` | download-data.py:58-70 | the `for link in links` loop with its `break` computes the next-link rule |
| `LinkHeader.NextEntryRoundTrip` | download-data.py:64-68 | `<u>; next` yields `u` back, for any `u` without `,` or `;` |
| `LinkHeader.QuotedRelNeverMatches` | download-data.py:66-67 | the standard form `<u>; rel="next"` is not recognised |
| `SinceDate.ParseDate` | download-data.py:44 | a date is accepted only when it names a real calendar day |
| `SinceDate.IsoFormat` | download-data.py:44 | `isoformat()` of the midnight: the zero-padded date and `T00:00:00`; `ParseDateText` and `PaddedDateText` state its round trips |
| `SinceDate.Padded` | download-data.py:44 | an ISO field is exactly as wide as requested and all digits |
| `SinceDate.PaddedValue` | download-data.py:44 | a zero-padded field reads back as the number it renders |
| `SinceDate.PaddedOfValue` | download-data.py:44 | a digit field of the date renders back as itself when zero-padded to its own width |
| `SinceDate.ParseDateText` | download-data.py:44 | every representable date parses back from its ISO text |
| `SinceDate.PaddedDateText` | download-data.py:44 | a zero-padded `YYYY-MM-DD` is its own ISO text |
| `SinceDate.ParseFields` | download-data.py:44 | three dash-joined fields parse to their values when these name a real day, and are rejected otherwise |
| `SinceDate.ParseUnpadded` | download-data.py:44 | `2021-1-5` is accepted as 5 January 2021 |
| `SinceDate.ParseLeapDay` | download-data.py:44 | `2021-02-29` is rejected and `2024-02-29` accepted |
| `DownloadData.RequestUrlInjective` | download-data.py:42 | two first URLs are equal exactly when the slugs and the resource types are |
| `DownloadData.RequestUrl` | download-data.py:10-42 | `REQUEST_URL_TEMPLATE.format(slug, type + '.json')`; `RequestUrlInjective` states that it determines the slug and the type |
| `DownloadData.InitialUrl` | download-data.py:42-44 | without `since` (absent or empty) the URL is the template; with one, the request fails exactly when the date does not parse |
| `DownloadData.InitialUrlPaddedSince` | download-data.py:43-44 | a zero-padded date is sent as `?since=` + the date + `T00:00:00` |
| `DownloadData.StepAfter` | download-data.py:54-70 | no header or an empty one stops; a non-empty `next` URL is followed and every followed URL is one; an entry without `;` before any `next` entry raises, and only then |
| `DownloadData.Crawl` | download-data.py:45-70 | the reference for the loop: an empty URL requests nothing; stated by `CrawlPages`, `CrawlChain`, `CrawlStatus` and `SingleRequest` |
| `DownloadData.CrawlPages` | download-data.py:41-53 | the output is the concatenation of the requested pages' arrays, in request order |
| `DownloadData.CrawlChain` | download-data.py:45-70 | requests start at the first URL, each later one is the previous page's next link, at most `fuel` of them, and none only for an empty URL or no fuel |
| `DownloadData.CrawlStatus` | download-data.py:45-70 | a finished loop's last page has no usable next link, a failed one's last page has the entry without `;`, and running out of fuel means `fuel` requests |
| `DownloadData.SingleRequest` | download-data.py:54-58 | a first page without a usable next link means exactly one request and its array as the output |
| `DownloadData.CrawlFuelSuffices` | download-data.py:45-70 | once the loop ends within the bound, a larger bound changes nothing |
| `DownloadData.NextUrl` | download-data.py:54-70 | the next `api_url` after a page is the step its `Link` header calls for |
| `DownloadData.Download` | download-data.py:45-70 | the `while api_url:` loop ends in the state the reference `Crawl` gives |
| `DownloadData.DownloadAll` | download-data.py:36-71 | a bad `since` fails before any request; otherwise the loop runs from the first URL, and the output is the concatenation of the pages requested |

## Left out

- Credential handling: `get_auth` reads or writes the `.auth` file and prompts for input (download-data.py:12-34). The account slug is a parameter; the user name and key are not modelled.
- The HTTP round trip: building the request, Basic authentication with base64, `urlopen` and `getheader` (download-data.py:47-50, 56). It is the `fetch` parameter; network errors are not modelled.
- JSON text: `json.loads` and `json.dumps` (download-data.py:52, 71; json2csv.py:63). The model starts from parsed values. A page body that is not an array is not modelled.
- Floating-point numbers: JSON numbers are integers in the model.
- `DownloadData.Download`: the `fuel` bound on requests is not in the source, which loops forever on a cycle of `next` links. `CrawlFuelSuffices` shows that once the bound is large enough it changes nothing.
- `DownloadData.Download`: `print(json.dumps(all_data))` is not modelled. The printed array is the `data` result when the status is `Finished`.
- `SinceDate.ParseDate`: accepts only ASCII digits, while `strptime` also accepts other Unicode decimal digits.
- CSV rendering: quoting, `\r\n` line ends, `StringIO` and the trailing newline of `print` (json2csv.py:48-55). The model gives the header, the row cells and the error outcome.
- `Json2Csv.WriteRows`: lists the extra keys in row order; Python builds them as a set, so the order in its message is unspecified.
- `Json2Csv.JsonToCsvOutput`: takes an array. Iterating over another top-level JSON value is not modelled.
- Objects with repeated member names: `json.loads` keeps the last one. The model takes members as given.
- Command-line parsing and the startup code (download-data.py:73-93; json2csv.py:57-63).
