# duckdb_warc parser core in Dafny

`duckdb_warc` is a DuckDB extension. It provides a scalar function
`parse_warc(blob)` that turns one captured Web ARChive (WARC) record into a
struct of six columns:

- `warc_version`
- `warc_headers`, a JSON-like map
- `http_version`
- `http_status`
- `http_headers`, a JSON-like map
- `http_body`

This project models the parsing core of `src/lib.rs` and proves what it
computes.

- `wrappers.dfy`: Rust's `Option` and `Result`. It also defines `Somes`, which keeps the present values of a sequence of options, with lemmas locating each value.
- `text.dfy`: the `str` operations the parser is built from.
  - `trim`, with Rust's Unicode `char::is_whitespace`.
  - `split_once`, `splitn(3, ' ')`, `lines`, `starts_with` and `join`.
- `decimal.dfy`: two numeric conversions.
  - The `Display` form of the unsigned content length.
  - `str::parse::<i32>`, which reads the status code.
- `json_map.dfy`: how the JSON-like maps are rendered.
  - Quote escaping, `replace('"', "\\\"")`.
  - `"key": "value"` and `"key": 7` pairs.
  - The `{…}` object joined with `", "`.
- `warc_headers.dfy`: `headers_to_json`.
  - A method that performs the ten pushes of the source in order.
  - The function it is proved equal to.
  - Lemmas on order, presence, distinct keys, and the single bare `Content-Length`.
- `http.dfy`: `parse_http_response`.
  - The status line.
  - The `for line in lines` walk with its `body_start` flag. This is a method with loop invariants, proved equal to a specification built from the first blank line.
  - Lemmas on the header map, the body and the `\n` re-join.
- `warc_record.dfy`: three pieces.
  - `parse_warc_record`.
  - The gzip-or-raw choice of `invoke`.
  - How a row's six columns become null.

Behaviour of `src/lib.rs` worth knowing:

- HTTP header names keep their case. They are not lower-cased.
- The header/body separator is the first line after the status line that `trim()` leaves empty. The first line is always taken as the status line, even when it is blank. There is no search for CRLFCRLF or LFLF. A message without a blank line still yields its version, status and headers.
- Header lines are parsed even when the first line does not start with `HTTP/`. Only the version and the status depend on that prefix.
- The body is not passed on as raw bytes:
  - It is the text after the first blank line that follows the status line, split into lines and re-joined with `\n`.
  - One carriage return directly before each `\n` is lost; any earlier one is kept.
  - A final line break is lost.
- Null bytes are neither detected nor stripped.
- No diagnostic event is emitted.
- Only double quotes are escaped, as `\"`. Backslashes and control characters pass through unchanged.

## Model

| member | source | states |
|---|---|---|
| Text.Trim | src/lib.rs:94-98 | the result is the slice of the line between a leading and a trailing run of Unicode whitespace, it neither starts nor ends with whitespace, and it is empty exactly when the line is all whitespace |
| Text.TrimCore | src/lib.rs:97-98 | the text between the leading whitespace run and the trailing one is a non-empty slice with whitespace on both sides and none at its ends |
| Text.TrimStartThenEnd | src/lib.rs:97-98 | trimming both ends is trimming the start and then the end |
| Text.SliceIsTrimEnd | src/lib.rs:97-98 | the slice between the leading and the trailing whitespace run is what trimming the end leaves of the text after the leading run |
| Text.EndUnique | src/lib.rs:97-98 | only one prefix of a text leaves a whitespace rest and does not itself end in whitespace, so the trimmed end is determined |
| Text.LeadingRun | src/lib.rs:97-98 | the length of the leading whitespace run: all of it is whitespace and the next character is not |
| Text.TrailingRun | src/lib.rs:97-98 | the length of the trailing whitespace run: all of it is whitespace and the character before it is not |
| Text.TrimStart | src/lib.rs:97-98 | drops exactly the leading run of whitespace: a suffix whose dropped part is all whitespace and whose first character is not |
| Text.TrimEnd | src/lib.rs:97-98 | drops exactly the trailing run of whitespace: a prefix whose dropped part is all whitespace and whose last character is not |
| Text.StartsWith | src/lib.rs:74 | true exactly when the prefix is no longer than the text and matches it character by character |
| Text.SplitOnce | src/lib.rs:96 | absent exactly when the separator does not occur; otherwise the line is the part before, the separator, and the part after, and the part before holds no separator |
| Text.SplitOnceAt | src/lib.rs:96 | cutting `a + c + b` at the first `c` gives `(a, b)` whenever `a` holds no `c` |
| Text.SplitN3 | src/lib.rs:75 | one to three pieces that re-joined with a space give back the line; only the third piece may hold a space |
| Text.JoinAppend | src/lib.rs:64 | joining two non-empty runs of parts puts exactly one separator between their joins |
| Text.Lines | src/lib.rs:70 | no line holds `\n`, and there are no lines exactly when the text is empty |
| Text.LinesSingle | src/lib.rs:70 | a non-empty text without `\n` is one line, kept whole, a final `\r` included |
| Text.LinesCons | src/lib.rs:70 | the first line is the text up to the first `\n`, less one trailing `\r`, followed by the lines of the rest |
| Text.LinesAppend | src/lib.rs:70 | a text cut right after a `\n` has the lines of both parts, in order |
| Text.LinesCrLf | src/lib.rs:70 | a `\r\n` line end gives the same lines as a bare `\n` |
| Text.LinesJoin | src/lib.rs:112 | for a text without `\r`, re-joining its lines with `\n` gives back the text except for one final `\n` |
| Decimal.NatToDecimal | src/lib.rs:53 | the numeral is non-empty, all digits, and has no leading zero except for `0` itself |
| Decimal.DecimalRoundTrip | src/lib.rs:53 | reading back the printed length gives the length |
| Decimal.ParseI32 | src/lib.rs:77 | a parsed text is an optional `+` or `-` followed by at least one digit and nothing else, its value is the digits read in decimal with the sign applied, and it lies in the `i32` range |
| Decimal.ParseI32Numeral | src/lib.rs:77 | every optional sign followed by digits, leading zeros included, parses to its signed value when that lies in the `i32` range and fails otherwise |
| Decimal.ParseI32RoundTrip | src/lib.rs:77 | every `i32`, printed and parsed, is recovered |
| Decimal.ParseI32OutOfRange | src/lib.rs:77 | a numeral outside the `i32` range does not parse, whatever its sign and however many leading zeros it has |
| Decimal.ParseI32Accepts | src/lib.rs:77 | `200`, `+042` and `-7` parse to 200, 42 and -7 |
| Decimal.ParseI32Rejects | src/lib.rs:77 | a lone sign, the empty text, a trailing letter and a leading space do not parse |
| JsonMap.Escape | src/lib.rs:36 | the escaped text is longer than the original by exactly its number of `"` |
| JsonMap.EscapeShape | src/lib.rs:36 | a text without `"` is unchanged; only the empty text escapes to empty; afterwards every `"` follows a backslash; the last character survives unless it was `"` |
| JsonMap.EscapeConcat | src/lib.rs:36 | escaping distributes over concatenation |
| JsonMap.EscapeSingle | src/lib.rs:36 | a lone `"` becomes `\"` and any other lone character is kept |
| JsonMap.UnescapeEscape | src/lib.rs:36 | un-escaping an escaped text gives back the original |
| JsonMap.EscapeInjective | src/lib.rs:97-98 | two different texts never escape to the same text |
| JsonMap.Quoted | src/lib.rs:99 | the text appears unchanged between two double quotes |
| JsonMap.RenderPair | src/lib.rs:99 | a pair renders as its key between double quotes, then `": `, then a text value between double quotes or a number as its decimal digits; it ends in `"` exactly when the value is a string |
| JsonMap.RenderPairs | src/lib.rs:99 | one rendered pair per pair, position by position |
| JsonMap.Object | src/lib.rs:106 | the map text starts with `{` and ends with `}`, whatever the pairs |
| JsonMap.PushedPair | src/lib.rs:35-37 | the list of rendered pairs grows by one rendering exactly when the entry is present |
| WarcHeaders.EntriesAt | src/lib.rs:35-62 | position `i` of the entry table is the entry of the `i`-th field of the fixed order |
| WarcHeaders.WarcHeadersJson | src/lib.rs:64 | the WARC map is the rendered pairs joined with `", "` in braces, and it always begins with `{` and ends with `}` |
| WarcHeaders.WarcPairsInOrder | src/lib.rs:35-62 | the map lists each present field exactly once under its canonical name, in the fixed order, and lists no absent field |
| WarcHeaders.FieldNamesDistinct | src/lib.rs:35-62 | no two positions of the order carry the same key |
| WarcHeaders.WarcKeysDistinct | src/lib.rs:35-62 | no key occurs twice in the WARC map |
| WarcHeaders.ContentLengthOnce | src/lib.rs:53 | the computed block length is always present as `"Content-Length": <digits>`, and it is the only `Content-Length` entry and the only bare number |
| WarcHeaders.LengthRendering | src/lib.rs:53 | the length entry renders as the quoted name, `: ` and the unquoted decimal digits |
| WarcHeaders.LengthPosition | src/lib.rs:50-54 | the seventh position of the order, and only it, is the computed length named `Content-Length` |
| WarcHeaders.OnlyLookedUpFieldsMatter | src/lib.rs:31-65 | two records that agree on the nine looked-up headers and on the computed length give the same map |
| WarcHeaders.DeclaredLengthIgnored | src/lib.rs:53 | changing the record's declared `Content-Length` header leaves the map unchanged |
| WarcHeaders.WarcTypeFirst | src/lib.rs:35-37 | a record with a type lists that type first, escaped, and also holds the computed length |
| WarcHeaders.HeadersToJson | src/lib.rs:31-65 | the sequence of ten pushes and the final join produce exactly the WARC map |
| WarcHeaders.PushHeader | src/lib.rs:35-37 | one conditional push adds the escaped pair exactly when the record has that header |
| WarcHeaders.PushLength | src/lib.rs:53 | the unconditional push adds the bare length pair |
| Http.StatusLine | src/lib.rs:73-84 | a version exactly when the line starts with `HTTP/`; a status code only with a version, and it is always in the `i32` range; an `HTTP/` line without a space is all version and gives no status |
| Http.FirstBlankSpec | src/lib.rs:91-95 | `FirstBlank`, the line at which the walk sets `body_start` and leaves the header phase, is a line that `trim()` empties and that no earlier such line precedes; there is none, and the phase never ends, when no line is blank |
| Http.HeaderField | src/lib.rs:96-99 | a line gives a pair exactly when it holds a colon, and the value is always a quoted string |
| Http.Response | src/lib.rs:68-116 | the version and the status are what the status-line step gives for the first line, so a version exactly when it starts with `HTTP/` and a status code only with a version and in the `i32` range; empty content gives four absent fields |
| Http.ParseHttpResponse | src/lib.rs:68-116 | the status-line step, the line walk and the final wrapping compute exactly `Response` |
| Http.ScanLines | src/lib.rs:87-101 | the loop collects the rendered pairs of the lines before the first blank line, and exactly the lines after it |
| Http.PushHeaderLine | src/lib.rs:96-100 | one header line adds the pair of its trimmed and escaped name and value exactly when it holds a colon |
| Http.SectionsSnoc | src/lib.rs:91-101 | one more line joins the body when a blank line has been seen, joins neither section when it is the first blank line, and otherwise joins the header section |
| Http.FirstBlankSnoc | src/lib.rs:92-95 | once set, `body_start` stays set, and it is set by the first blank line |
| Http.FirstBlankPrefix | src/lib.rs:92-95 | a first blank line found among the lines read so far stays the first blank line of the whole message |
| Http.FirstBlankAt | src/lib.rs:92-95 | a blank line preceded by no blank line is where the header phase ends |
| Http.VersionToken | src/lib.rs:75-76 | the version is the status line up to its first space: it starts with `HTTP/` and holds no space |
| Http.StatusLineParts | src/lib.rs:75-77 | `version code reason` and `version code` give the version and the `i32` reading of the code; the reason phrase may hold spaces and plays no part |
| Http.HeaderFieldAt | src/lib.rs:96-99 | `name:value` is cut at its first colon, so later colons stay in the value |
| Http.HeaderPairsInOrder | src/lib.rs:91-101 | every line with a colon gives one pair and no other line gives one; the pairs follow the order of the lines, and repeated names are all kept |
| Http.HeadersAbsent | src/lib.rs:103-107 | the header map is absent exactly when no line between the first line and the first blank line after it holds a colon; otherwise it is the object of their pairs |
| Http.BodyAbsent | src/lib.rs:109-113 | the body is absent exactly when no line after the first is blank or the first such blank line is the last line; otherwise it is the lines after it joined with `\n` |
| Http.BlankStatusLine | src/lib.rs:73-95 | a blank first line is still taken as the status line, so it does not separate headers from body: `\n\nbody` has the body `body` |
| Http.FirstLineOnlyStatus | src/lib.rs:73-101 | the first line decides only the version and the status; the headers and the body come from the following lines, whatever the first line is |
| Http.BodyRoundTrip | src/lib.rs:91-113 | after a head ending in a blank line, a body without `\r` comes back unchanged except for one final `\n` |
| Http.RestLinesAppend | src/lib.rs:70-73 | after a head that ends in `\n`, the lines the walk sees are the head's lines past the first, followed by the body's lines |
| Http.BodySectionAfter | src/lib.rs:92-93 | when the last line read so far is the first blank line, everything after it is body |
| WarcRecord.ParseWarcRecord | src/lib.rs:119-158 | a result exactly when a record was read without error and has a `WARC-Type`; it then carries the record's version and WARC map |
| WarcRecord.HttpColumnsByType | src/lib.rs:135-157 | a `response` record gets the four fields of the HTTP parse of its block; any other type gets none of them |
| WarcRecord.SelectInput | src/lib.rs:211-220 | the parser sees the inflated bytes when inflation succeeded with a non-empty result, and the stored blob otherwise; a non-empty blob never becomes empty |
| WarcRecord.RowOf | src/lib.rs:194-259 | a null blob gives six nulls; otherwise the selected input is parsed, a failed parse gives six nulls and a successful one fills the six columns from the parse; the version column is null exactly when the WARC map column is; a WARC map column is always braced |

## Left out

- DuckDB registration, the scalar-function signatures, the vector API and the per-row loop of `invoke` (src/lib.rs:160-296) are left out. They are host plumbing. `RowOf` models one iteration of the loop, with the columns as option values.
- Gzip inflation is left out. `GzDecoder` is not part of this model, so `RowOf` takes inflation as a function parameter `inflate` that returns `None` on failure.
- The WARC reader is left out. `WarcReader`, the framing of records and the `warc` crate's header lookup are not part of this model. `ParseWarcRecord` receives what reading the first record yields: no record, an error, or a `Record` with the version, the header map, the computed length and the block.
- `String::from_utf8_lossy` is left out. The block is taken as already-decoded text, so invalid UTF-8 and its replacement characters are not modelled.
- WarcHeaders.Record: `content_length` is a `u64` in the source and a `nat` here. Its 64-bit bound is not modelled because the value is only printed.
- Text.Lines follows the current `str::lines`: a `\r` is dropped only before a `\n`. Older Rust releases also dropped a lone `\r` at the very end of the text. That variant is not modelled.
- Rust strings are UTF-8 byte sequences. Here they are sequences of code points. The parser never indexes them by byte offset, so this does not change any result.
