# url-to-postman, modelled in Dafny

`url-to-postman convert <file>` reads a newline-delimited list of URLs and
prints (or writes) one Postman v2.1.0 collection with one GET request item
per URL. This project models the part of `cmd.js` that does the work:

- `urlToItem` cuts a URL at the first `"//"`, then at `"/"`, and then cuts the
  last path piece at `"?"`. From those pieces it builds the request item:
  `name`, `request.method`, `request.header` and `request.url` with `raw`,
  `host`, `path` and `query`. A host override that is truthy replaces the
  parsed host.
- `parseQueryParams` turns a query string into `{key, value}` entries, one per
  `"&"`-separated piece.
- Around them, the file text is cut into lines and the empty lines are
  dropped. An empty list is an error. Otherwise the items are mapped in order
  and wrapped in one collection envelope that carries the given name and the
  fixed schema URL.

Everything rests on a model of JavaScript's `String.prototype.split` with a
non-empty string separator (`Strings.Split`). Occurrences are found left to
right without overlap, empty pieces are kept, and there is always at least
one piece. Reading an index past the end of a split result gives `undefined`
in the source. Calling `.split` on `undefined` throws a `TypeError`. The model
makes each of these throws an explicit `Failure` of a `Result`.

Modules, one per concern:

- `wrappers.dfy` (`Wrappers`): `Option` (for `undefined`) and `Result` (for a throw).
- `strings.dfy` (`Strings`): `IndexOf`, `Split`, `Join`, `Before`, `After`,
  `Count`. Lemmas show that `Join` undoes `Split`, that no piece holds the
  separator, and how many pieces there are. They also show that for a
  one-character separator the pieces are the only separator-free pieces that
  join back to the input.
- `query.dfy` (`QueryParams`): `parseQueryParams`.
- `url_item.dfy` (`UrlItem`): `urlToItem`, once as a function and once as a
  method. The method follows the source's steps: it reads the split pieces
  by index and updates a local sequence of `"/"`-pieces step by step
  (`shift` as `[1..]`, `pop` as `[..n-1]`, `push` as `+ [x]`). It is
  proved equal to the function.
- `conversion.dfy` (`Conversion`): the blank-line filter, the empty-file
  check, the mapping, and the collection envelope.

The model keeps the code's behaviour in these edge cases:

- There is no batching (`--split`). Only one collection is ever produced.
- A URL whose last path piece has no `"?"` does not get an empty query.
  `parseQueryParams(undefined)` throws, so `urlToItem` fails with
  `NoQueryString`. The whole conversion then fails. This includes a line such
  as `https://b.com/p/q`.
- The empty query string (`"...x?"`) yields one entry, with key `""` and no
  value. It does not yield an empty list.
- A URL with no `"/"` after the authority does not get a degenerate path.
  `pop()` returns `undefined` and `urlToItem` fails with `NoPathSegment`.
- A value that contains `"="` is cut at its second `"="`
  (`QueryParams.ValueTruncated`).
- The text parsed is only what lies between the first and the second `"//"`.
  It is cut again at the first and second `"?"` of the last piece. Anything
  after a second `"//"` or `"?"` is ignored.

## Model

| member | source | states |
|---|---|---|
| `Strings.IndexOf` | cmd.js:87-88 | an index it returns is one where the separator occurs |
| `Strings.IndexOfFirst` | cmd.js:87-88 | `IndexOf` returns the first occurrence: none occurs before the index it returns, and none at all when it returns nothing |
| `Strings.Split` | cmd.js:87-88 | `split` with a string separator always yields at least one piece |
| `Strings.SplitShape` | cmd.js:87-91 | a second piece (index 1) exists exactly when the separator occurs; piece 0 is the text before it, piece 1 the text between its first and second occurrence |
| `Strings.JoinSplit` | cmd.js:87-88 | joining the pieces with the separator gives back the input (round trip) |
| `Strings.SplitPiecesFree` | cmd.js:87-88 | no piece contains the separator |
| `Strings.SplitCount` | cmd.js:88 | splitting on one character yields one more piece than there are such characters |
| `Strings.SplitJoin` | cmd.js:88 | for a one-character separator, any separator-free pieces that join to `s` are exactly `Split(s)` (the other round trip) |
| `QueryParams.ParamOf` | cmd.js:102-106 | the key is the text before the first `=`; the value is absent exactly when there is no `=`, and otherwise is the text between the first and second `=` |
| `QueryParams.ParseQueryParams` | cmd.js:100-108 | one entry per `&`-separated piece, in order, duplicates kept; as many entries as `&` characters plus one; `""` yields one entry with key `""` and no value |
| `QueryParams.ParamRoundTrip` | cmd.js:102-106 | a piece with at most one `=` is rebuilt from its entry |
| `QueryParams.ValueTruncated` | cmd.js:102-105 | a piece with two or more `=` has a value, and the entry loses text |
| `QueryParams.QueryRoundTrip` | cmd.js:100-108 | a query string whose pieces hold at most one `=` is rebuilt by rendering its entries and joining them with `&` |
| `UrlItem.UrlToItem` | cmd.js:79-98 | fails exactly when the URL has no `//`, or the text after it has no `/`, or the last path piece has no `?`, in that order; otherwise name and raw URL are the input, method is GET, header is empty, and host is the truthy override or else scheme + `//` + authority |
| `UrlItem.BuildItem` | cmd.js:79-98 | the step-by-step version (index reads on the split pieces; `shift`, `pop` and `push` as updates of a local sequence) returns exactly `UrlToItem` |
| `UrlItem.PathCount` | cmd.js:88-93 | the path has as many segments as the rest of the URL has `/` characters |
| `UrlItem.PathPieces` | cmd.js:88-93 | no segment holds `/`, and the last holds no `?`; the last piece is the last segment, `?` and the text after it; authority, `/` and the pieces joined by `/` spell the rest again |
| `UrlItem.PathLength` | cmd.js:88-93 | an item's path is never empty and has one segment per `/` between the first and second `//` |
| `UrlItem.PathSegments` | cmd.js:87-93 | an item's segments are verbatim `/`-separated pieces of the text between the first and second `//`, the last one cut at its first `?` |
| `UrlItem.ItemQuery` | cmd.js:91-95 | an item's query is `parseQueryParams` of the `?`-free text between the first and second `?` of the last piece, one entry per `&` plus one |
| `UrlItem.RestRebuilt` | cmd.js:88-95 | the rest of the URL begins with authority, `/`, the path joined by `/`, `?` and the query text |
| `UrlItem.UrlRebuilt` | cmd.js:87-95 | the raw URL begins with the parsed host, `/`, the path joined by `/`, `?` and the query text, in that order |
| `UrlItem.OverrideOnlyChangesHost` | cmd.js:89-95 | whether the URL fails, the error, the path, the query and every other field do not depend on the host override |
| `Conversion.DropEmpty` | cmd.js:42 | the kept lines are non-empty, each non-empty line is kept as often as it occurs, their concatenation is unchanged, and a list without empty lines is kept whole |
| `Conversion.DropEmptyAppend` | cmd.js:42 | the filter keeps file order: filtering two lists joined end to end is filtering each and joining the results |
| `Conversion.DropEmptyOne` | cmd.js:42 | a single line is kept exactly when it is not empty (with `DropEmptyAppend` this fixes the filter's result completely) |
| `Conversion.DropEmptyNothing` | cmd.js:42-43 | nothing is kept exactly when every line is empty |
| `Conversion.NonEmptyLines` | cmd.js:41-42 | every URL line is non-empty and holds no line break |
| `Conversion.OnlyLineBreaks` | cmd.js:41-43 | there is no URL line exactly when the text is nothing but line breaks |
| `Conversion.UrlList` | cmd.js:41-43 | the URL list is the non-empty lines in order; it is the "empty file" error exactly when the text is nothing but line breaks |
| `Conversion.MapOrThrow` | cmd.js:51 | `map` with a throwing callback: all results in order, or the error of the first element that throws, with every element before it succeeding |
| `Conversion.MapItems` | cmd.js:51 | one item per URL in the same order, each the item of its own URL, or the error of the first URL that fails |
| `Conversion.MapItemsSucceeds` | cmd.js:51 | mapping succeeds exactly when every URL line is accepted |
| `Conversion.Convert` | cmd.js:41-60 | "empty file" exactly when the text is only line breaks; a generation error is the error of the first URL line that fails, every earlier line being accepted; on success the info is the given name with the v2.1.0 schema URL, with one item per non-empty line in file order |
| `Conversion.ItemsFollowLines` | cmd.js:51-60 | every item of a collection is named by its own line, carries it as its raw URL, and has the override as host when one is given |

## Left out

- Command-line dispatch through `commist` and option parsing through `minimist` (cmd.js:19-37), and the usage text (cmd.js:7-17), are not modelled. They are foreign libraries and console output. The options arrive as parameters: `host` and `name` are each `Option<string>`, with `None` for an absent option. A repeated option, which `minimist` turns into an array, is not modelled.
- Reading the file (cmd.js:41) is not modelled. The model starts from the file's text. Read errors are I/O, so they are not modelled.
- `console.log(item)` (cmd.js:52), `console.error`, `process.exit`, writing the output file, and printing the collection (cmd.js:45-46, 62-75) are left out. They are console and process I/O.
- `JSON.stringify` (cmd.js:68) is left out. It is a foreign serialiser, so the model stops at the collection value. The omission of `undefined` values (`name`, `value`) in JSON output is therefore not modelled.
- The messages of the thrown errors are left out. They are engine-specific `TypeError` texts, so only the kind of failure is kept (`UrlError`, `ConvertError`).
- The ordering of the `async`/`await` steps in `urlToPostman` is left out. It has no logical content beyond sequencing the I/O.
- `UrlItem.BuildItem`: the source's `"/"`-array is a local array that nothing else refers to. The model replaces its in-place `shift`, `pop` and `push` with reassignments of a local sequence. The result is the same, but the model does not capture the array's update in place.
- JavaScript strings are sequences of UTF-16 code units, and the model uses Dafny `char` (Unicode scalar values). This is left out because every separator the code splits on (`"\n"`, `"//"`, `"/"`, `"?"`, `"&"`, `"="`) is ASCII, so the pieces are the same either way.
- The items never carry headers. The code never creates one, so the element type `Header` is a placeholder.
