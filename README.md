# minicurl header handling, in Dafny

`minicurl` is a small command-line HTTP client. Before it sends its one GET
request it turns the `-H` option, a string such as `"Accept:text/plain,X-Token:abc"`,
into a header map in two stages:

1. `parse_headers` splits the string at every comma into segments, splits each
   segment at every colon, takes the first piece as the header name and the
   second as the value, validates both with the `http` crate, and collects the
   pairs. Any failure panics and ends the run.
2. `construct_header_map` inserts the pairs one by one into an empty
   `HeaderMap`; `insert` replaces an existing entry, so the last pair with a
   given name wins.

The project models both stages as they are written, and proves what they do:

- `strings.dfy` (module `Strings`): Rust's `str::split(char)` as `Split`, with
  `Before`/`After` (the text before and after the first separator) and `Join`.
  `Split` gives one more piece than there are separators and no piece holds a
  separator; `Join` and `Split` are proved inverse to each other.
- `http.dfy` (module `Http`): the two validators of the `http` crate, stated
  by the grammar they enforce (section 3.2 and section 3.2.6 of RFC 7230). A
  name must be a non-empty token and is lower-cased, as `HeaderName` stores
  it; a value may hold visible ASCII, space and horizontal tab and is kept as
  is.
- `minicurl.dfy` (module `Minicurl`): `parse_headers` as the pure function
  `ParseHeaders`. It is split into the per-segment closure `ParseSegment`,
  the mapping `ParseEach` and `Collect`, with every `expect` turned into a
  `Failure` naming the panic (`NoHeader`, `BadHeaderName`, `BadHeaderValue`).
  `construct_header_map` is the method `ConstructHeaderMap`, a loop over the
  pairs that updates a `map`, proved against the specification function
  `HeaderMapOf`. `RequestHeaders` is the composition on line 65 of `main`.

What the code does, including behaviour a user might not expect:

- Nothing is trimmed, although the doc comment of `parse_headers`
  (src/main.rs:24-25) shows spaces after the comma and the colon. Its form
  `"Header1: value1, Header2: value2"` is always rejected, because the second name is `" Header2"` and a space is not
  a token character (`SpaceAfterCommaRejected`). Values keep their leading
  space.
- The split at colons is not a split at the first colon only. The value is the
  text between the first and the second colon, and the rest is dropped, so
  `Referer: http://x` gives the value `" http"` (`ExtraColonDropped`).
- The empty string, which is the default of `-H`, is one empty segment. Its
  empty name is rejected, so the result is a failure, not an empty list of
  headers (`EmptyInputRejected`). No string parses to the empty list.
- Names and values are validated while parsing, before any map is built. The
  order of the checks within a segment is: name, then whether there is a
  second piece, then value.

## Model

| member | source | states |
|---|---|---|
| `Strings.Split` | src/main.rs:28 | `split(',')` yields one more piece than the string has separators, and no piece contains a separator |
| `Strings.Before` | src/main.rs:31-34 | the first piece of `split(':')` is the longest separator-free prefix: it is followed by a separator or by the end |
| `Strings.After` | src/main.rs:37-39 | the string is the first piece, one separator, then the remainder |
| `Strings.SplitParts` | src/main.rs:31-39 | the first piece is `Before`; there is a second piece exactly when the segment holds a separator, and it is `Before` of the text after the first separator |
| `Strings.BeforeAfterOf` | src/main.rs:31-39 | in `p + [d] + rest` with `d` not in `p`, the first piece is `p` and the remainder is `rest` |
| `Strings.JoinSplit` | src/main.rs:28 | the segments joined back with commas give the original string: nothing is lost or reordered by splitting |
| `Strings.SplitJoin` | src/main.rs:28 | splitting pieces joined by a separator they do not contain gives the pieces back |
| `Strings.PieceAfterSeparator` | src/main.rs:28 | the text after any comma, up to the next comma, is one of the segments (never the first) |
| `Http.Lowercase` | src/main.rs:32-35 | the normalised name has the same length, no upper-case letter, equals the input ignoring case, is the input when that was lower-case, and is a token exactly when the input is |
| `Http.ParseName` | src/main.rs:32-35 | `HeaderName::from_str` accepts exactly the tokens and returns the lower-cased token |
| `Http.TokenExcludesSeparators` | src/main.rs:32-35 | a name accepted by `HeaderName::from_str` never contains a comma, a colon or a space |
| `Http.ParseValue` | src/main.rs:37-40 | `HeaderValue::from_str` accepts exactly the field values and returns the text unchanged |
| `Minicurl.ParseSegment` | src/main.rs:30-42 | a segment gives a pair exactly when it is well formed; the pair is (lower-cased text before the first colon, text between first and second colon); a bad name is reported first, then a missing colon, then a bad value |
| `Minicurl.Collect` | src/main.rs:29-43 | `collect` succeeds exactly when every result does, and then holds their values in order, one per result |
| `Minicurl.CollectFailure` | src/main.rs:29-43 | a failed `collect` reports the error of the first failing result, all results before it having succeeded |
| `Minicurl.CollectSuccesses` | src/main.rs:29-43 | results that all succeed collect to exactly their values |
| `Minicurl.ParseEach` | src/main.rs:29-42 | the closure is applied to every segment, one result per segment, in order |
| `Minicurl.ParseHeaders` | src/main.rs:27-45 | a successful parse has exactly one pair more than the input has commas, so it is never empty |
| `Minicurl.ParseHeadersSucceeds` | src/main.rs:28-43 | all or nothing: the parse succeeds exactly when every comma-separated segment is well formed |
| `Minicurl.ParseHeadersPairs` | src/main.rs:28-43 | on success the i-th pair comes from the i-th segment: its lower-cased name text and its untrimmed value text |
| `Minicurl.ParseHeadersFailure` | src/main.rs:29-43 | a failed parse reports the error of the first segment that is not well formed |
| `Minicurl.LeadingSpaceRejected` | src/main.rs:31-35 | a segment starting with a space fails with a bad name: nothing is trimmed |
| `Minicurl.SpaceAfterCommaRejected` | src/main.rs:24-35 | any header string with a space after a comma, the documented form, fails |
| `Minicurl.ParseSegmentEntry` | src/main.rs:30-42 | a segment `name:value` written from an expressible pair parses back to that pair |
| `Minicurl.FormatSegments` | src/main.rs:28-42 | the segments of a written list are its entries, one per pair, each parsing back to its pair |
| `Minicurl.ParseFormat` | src/main.rs:27-45 | round trip: a non-empty list of expressible pairs, written as `name:value` joined by commas, parses back to the same list |
| `Minicurl.SegmentText` | src/main.rs:31-40 | in `name:value` followed by nothing or by `:...`, the name text is `name` and the value text is `value` |
| `Minicurl.ExtraColonDropped` | src/main.rs:31-40 | `name:value:rest` without commas parses to the single pair (lower-cased name, value), whatever `rest` holds |
| `Minicurl.EmptyInputRejected` | src/main.rs:12-35 | the default empty string fails with a bad name instead of giving no headers |
| `Minicurl.NoColonRejected` | src/main.rs:37-39 | a valid name with no colon (here `"A1"`) fails with "There was no header!" |
| `Minicurl.NamesOccur` | src/main.rs:55-56 | a name is among the inserted names exactly when some pair carries it |
| `Minicurl.LastValueIsLast` | src/main.rs:55-57 | the value kept for a name is that of the pair at its last index |
| `Minicurl.HeaderMapOfLastWins` | src/main.rs:53-58 | the built map has exactly the names of the list as keys, each bound to the value of the last pair with that name, and no more entries than pairs |
| `Minicurl.SwapDistinctNames` | src/main.rs:55-57 | swapping two neighbouring pairs with different names does not change the map: only the order within one name matters |
| `Minicurl.ConstructHeaderMap` | src/main.rs:53-59 | the loop returns the map whose keys are the names of the list, each bound to the value of the last pair with that name, with at most one entry per pair; it equals `HeaderMapOf` |
| `Minicurl.ServesFromPairs` | src/main.rs:53-58 | the map of pairs read off segments has the segments' lower-cased names as keys, each bound to the value text of the last segment with that name |
| `Minicurl.HeaderMapOfSegments` | src/main.rs:65 | after a successful parse, the map of the parsed pairs is read off the segments of the input string directly |
| `Minicurl.RequestHeaders` | src/main.rs:65 | the header stage of `main` fails exactly when some segment is ill formed, with the parse's error; otherwise it yields the map of the parsed pairs, keyed by the segments' lower-cased names, each with the value text of the last segment of that name |

## Left out

- The request itself (src/main.rs:61-71 apart from line 65): the `reqwest` client, the GET request, decoding the response body and `println!`. These are network I/O and foreign library calls.
- Argument parsing with StructOpt (src/main.rs:6-18). Only its default value for `-H`, the empty string, appears, in `EmptyInputRejected`.
- A panic ends the process. Here it is a `Failure` value carrying which `expect` fired; the message text and the process exit are not modelled.
- `Http.ParseValue`: accepts only visible ASCII, space and tab. The `http` crate also accepts non-ASCII text (`obs-text`). That case is not modelled, because the crate's byte tables are not part of this model.
- `Http.ParseName`: does not model the `http` crate's upper limit on the length of a name.
- The internals of `HeaderMap`: its hashing, capacity, iteration order and multi-value `append`. The code only calls `insert`, and the map is modelled as a Dafny `map` from name to value.
- src/hello.rs: a Rust syntax tutorial with no behaviour of its own, which does not compile as written.
