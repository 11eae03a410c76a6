# knigavuhe-rust book parser, modelled in Dafny

This project models `src/book_parser.rs` of knigavuhe-rust. That file scrapes an audiobook page on knigavuhe.org in two ways.

- **Book metadata.** `extract_book_info` makes six CSS-selector lookups on the parsed page:
  - title, author, series, genre and reader come from the trimmed inner HTML of the first matching element;
  - the cover URL comes from the `src` attribute of the first matching image.

  Every lookup is required. The first one that finds nothing aborts the extraction with its message ("No title", …, "No cover"), and `series` is always `Some` on success.
- **Chapter list.** `extract_book_chapters` goes through `extract_book_player_args`:
  - the regex `var player = new BookPlayer\((.*)\);` finds the player's constructor call in the raw page text;
  - the captured argument text is wrapped as `[` + capture + `]`;
  - the wrapped text is parsed as JSON and decoded into the eight-position tuple `BookPlayerArgs`;
  - the result is its element 1, the list of `BookChapter { duration_float, title, url }`.

Modules, one file each:

| file | module | what it holds |
|---|---|---|
| `wrappers.dfy` | `Wrappers` | `Option`, `Result` and Rust's `ok_or` |
| `json.dfy` | `Json` | JSON values as RFC 8259 describes them. Objects are member lists, so repeated keys can be represented |
| `text.dfy` | `Text` | `str::trim` with Rust's Unicode White_Space set, and its characterisation |
| `document.dfy` | `Document` | The parsed page as what a query observes (the elements each selector matches, in document order); `get_node_content` and `get_node_attribute` |
| `book_info.dfy` | `BookInfoExtraction` | `extract_book_info` and the all-or-first-missing contract |
| `player_call.dfy` | `PlayerCall` | The regex search: leftmost start, `.` never crossing a line feed, greedy group to the last `);` of the line |
| `chapter_decode.dfy` | `ChapterDecode` | The derived `Deserialize` of `BookChapter`, `Vec<BookChapter>` and `BookPlayerArgs`, as `serde` drives them from a JSON value; the encoder and the round trips |
| `book_chapters.dfy` | `BookChapters` | `extract_book_player_args` and `extract_book_chapters` end to end, and the source's unit-test cases |

Parsing JSON text into a value is a parameter, `parse: string -> Option<Value>`. `None` means the text is not JSON.

How serde decodes a chapter:
- A chapter object ignores unknown keys.
- It rejects a field given twice (`DuplicateField`) or of the wrong JSON kind (`InvalidType`).
- It then reports the first missing field in declaration order (`MissingField`).
- A chapter may also be written as a three-element array `[duration, title, url]`. serde accepts this form for any derived struct, and the model has it too.

How serde decodes the player arguments:
- They must be a JSON array of exactly eight elements.
- It reports `InvalidLength(n)` at the first missing position.
- When there are more than eight, serde_json reports "trailing characters". The model names that error `TrailingElements`; it is not one of serde's own error kinds.
- Element 1 is decoded as a chapter list before elements 2 and 3 are checked to be arrays, so that error comes first.

The source has no encoder. `EncodeChapter`, `EncodeChapterList` and `EncodePlayerArgs` write the JSON the page carries for a value. They serve only as the partner of the decoders in the round-trip lemmas, so they have no row below.

## Model

| member | source | states |
|---|---|---|
| `Wrappers.OkOr` | src/book_parser.rs:36 | `ok_or` yields `Ok` exactly when the option is present, with its value, and otherwise the given error |
| `Text.Trim` | src/book_parser.rs:20 | The trimmed text neither starts nor ends with a White_Space character |
| `Text.TrimStart` | src/book_parser.rs:20 | The result is a suffix of the input that does not start with whitespace |
| `Text.TrimEnd` | src/book_parser.rs:20 | The result is a prefix of the input that does not end with whitespace |
| `Text.TrimStartDropsWhitespace` | src/book_parser.rs:20 | Everything `TrimStart` drops is whitespace |
| `Text.TrimEndDropsWhitespace` | src/book_parser.rs:20 | Everything `TrimEnd` drops is whitespace |
| `Text.TrimIsSlice` | src/book_parser.rs:20 | `trim` returns a contiguous slice of its input with only whitespace on either side |
| `Text.TrimUnique` | src/book_parser.rs:20 | Any whitespace padding around an already trimmed text trims back to exactly that text, so `trim` is determined by that property |
| `Text.TrimIdempotent` | src/book_parser.rs:20 | Trimming twice equals trimming once |
| `Document.FirstMatch` | src/book_parser.rs:19 | `.next()` is absent exactly when nothing matches; otherwise it is the first match in document order |
| `Document.GetNodeContent` | src/book_parser.rs:16-22 | Absent exactly when nothing matches; otherwise the trimmed inner HTML of the first match, which is itself trimmed |
| `Document.GetNodeAttribute` | src/book_parser.rs:24-31 | Present exactly when there is a match and the first match carries the attribute; then it holds the attribute's raw value |
| `Document.FirstMatchDecides` | src/book_parser.rs:16-31 | Only the first match counts. A later match with the attribute does not rescue a first match without it |
| `BookInfoExtraction.FirstAbsentIsReported` | src/book_parser.rs:36-41 | When `f` is the first lookup in source order to find nothing, the extraction fails with `f` |
| `BookInfoExtraction.FirstAbsentExists` | src/book_parser.rs:36-41 | If some lookup finds nothing, a first such lookup exists in title, author, series, genre, reader, cover order |
| `BookInfoExtraction.AllPresentIsExtracted` | src/book_parser.rs:35-42 | When all six lookups find something, the record holds exactly those six values, with `series` wrapped in `Some` |
| `BookInfoExtraction.ExtractBookInfoSucceeds` | src/book_parser.rs:33-43 | The extraction succeeds if and only if all six lookups find something, and then returns the looked-up values |
| `BookInfoExtraction.ExtractBookInfo` | src/book_parser.rs:33-43 | A successful extraction always has `series` present |
| `BookInfoExtraction.ExtractedTextIsTrimmed` | src/book_parser.rs:36-40 | Title, author, series, genre and reader of a successful extraction are trimmed |
| `BookInfoExtraction.ExtractBookInfoFails` | src/book_parser.rs:36-41 | A failed extraction names a field that is the first absent one in source order |
| `BookInfoExtraction.OnlyMissingFieldIsReported` | src/book_parser.rs:36-41 | When every field except `f` is present, the extraction fails with exactly `f` |
| `PlayerCall.LineEnd` | src/book_parser.rs:65 | The first line feed at or after a position, or the end of the text; none lies before it |
| `PlayerCall.LastCloseBefore` | src/book_parser.rs:65 | The last `);` that fits in a range, or absent exactly when there is none |
| `PlayerCall.GroupEnd` | src/book_parser.rs:65 | The greedy `(.*)\);` from a position ends at a `);` on the same line with no later one; absent exactly when no `);` is reachable without crossing a line feed |
| `PlayerCall.MatchAt` | src/book_parser.rs:65 | The regex matches at a start position exactly when the result is present, and then its group ends at the last possible `);` |
| `PlayerCall.FindFrom` | src/book_parser.rs:65 | The search from a position returns the leftmost match start at or after it, with the greedy group end; absent exactly when no match starts there or later |
| `PlayerCall.FindPlayerCall` | src/book_parser.rs:66 | `re.captures` fails exactly when the regex matches nowhere; otherwise it gives the leftmost match and its longest group |
| `PlayerCall.Capture` | src/book_parser.rs:65-67 | Absent exactly when nothing matches. Otherwise it is group 1 of the leftmost match: the text between the prefix and the last `);` reachable on that line, with no line feed in it |
| `PlayerCall.WholeCallCapture` | src/book_parser.rs:65-67 | A one-line text that is just `var player = new BookPlayer(` + args + `);` captures exactly args, even when args contain `);` |
| `ChapterDecode.VisitMembers` | src/book_parser.rs:45-50 | The derived visitor over an object's members fails only with `InvalidType` or with `DuplicateField` of a chapter field. On success it keeps every field already seen and adds only chapter fields |
| `ChapterDecode.FinishChapter` | src/book_parser.rs:45-50 | A chapter is built exactly when all three fields were seen, from their values. Otherwise the first missing field in declaration order (`duration_float`, `title`, `url`) is reported as `MissingField` |
| `ChapterDecode.DecodeChapter` | src/book_parser.rs:45-50 | A value that is neither an object nor an array is `InvalidType`. An object fails only with `InvalidType`, `DuplicateField` or `MissingField` of a chapter field; an array only with `InvalidType`, `TrailingElements` or `InvalidLength` below 3. Which inputs succeed, and with what, is stated by `ChapterObjectSpec` and `ChapterArraySpec` |
| `ChapterDecode.VisitKeepsFieldsTyped` | src/book_parser.rs:45-50 | The member visitor only collects values of the kind their field requires |
| `ChapterDecode.VisitMembersSpec` | src/book_parser.rs:45-50 | After a successful visit each field is either unseen or held once with a fitting value, and the collected value is that member's value |
| `ChapterDecode.ChapterObjectSpec` | src/book_parser.rs:45-50 | A chapter object decodes if and only if `duration_float` (a number), `title` and `url` (strings) each occur exactly once. The chapter then holds those three values |
| `ChapterDecode.UnknownMemberIgnored` | src/book_parser.rs:45-50 | Inserting a member with a non-field key anywhere leaves the member visitor's result unchanged |
| `ChapterDecode.ExtraKeyIgnored` | src/book_parser.rs:45-50 | Extra keys in a chapter object never change its decoding |
| `ChapterDecode.ChapterArraySpec` | src/book_parser.rs:45-50 | A chapter written as an array decodes if and only if it has exactly three elements: a number, then two strings. The chapter then holds them in field order |
| `ChapterDecode.DecodeChapterList` | src/book_parser.rs:55 | A chapter list decodes if and only if every element does; then the result has the same length and the same order |
| `ChapterDecode.DecodePlayerArgs` | src/book_parser.rs:52-62 | Decoding succeeds if and only if the value is an array of exactly eight elements whose element 1 is an array of decodable chapters and whose elements 2 and 3 are arrays. The chapters are then exactly element 1's decoding and the other positions are kept as given |
| `ChapterDecode.ChapterRoundTrip` | src/book_parser.rs:45-50 | Decoding the JSON object written for a chapter gives back that chapter |
| `ChapterDecode.ChapterListRoundTrip` | src/book_parser.rs:55 | Decoding an encoded chapter list gives back the list |
| `ChapterDecode.PlayerArgsRoundTrip` | src/book_parser.rs:52-62 | Decoding the eight-element array written for a `BookPlayerArgs` gives back the same arguments |
| `BookChapters.Wrap` | src/book_parser.rs:68 | The snippet enclosed in one `[` and one `]` |
| `BookChapters.ExtractBookPlayerArgs` | src/book_parser.rs:64-71 | Fails with "No match found" exactly when the regex matches nowhere in the page |
| `BookChapters.ParsedTextIsWrappedCapture` | src/book_parser.rs:65-69 | Once the call is found, the JSON parser sees only the bracketed capture. A syntax error is reported as such, and a value that does not fit the schema is reported with the decoder's error |
| `BookChapters.ExtractBookChapters` | src/book_parser.rs:90-92 | Succeeds exactly when the player arguments are extracted; then it returns their element 1, and otherwise it returns the same error |
| `BookChapters.ChaptersAreSecondArgument` | src/book_parser.rs:90-92 | The returned chapters are, position by position, the decodings of element 1 of the parsed argument array, with the same count |
| `BookChapters.CallRoundTrip` | src/book_parser.rs:64-71 | A page holding one constructor call, whose arguments parse to the encoding of `args`, yields `args` and its chapters |
| `BookChapters.EmptyPageHasNoCall` | src/book_parser.rs:77 | An empty page fails with "No match found" |
| `BookChapters.EmptyChapterListExample` | src/book_parser.rs:78 | `1, [], [], [], 2, 3, 4, 5` as the call's arguments yields an empty chapter list |
| `BookChapters.OneChapterExample` | src/book_parser.rs:79-86 | The one-chapter arguments of the unit test yield exactly one chapter with duration 1, title `ttl` and url `url://` |
| `BookChapters.TrailingStatementExample` | src/book_parser.rs:65 | A page line `var player = new BookPlayer(1); f(2);` captures `1); f(2`. The greedy group swallows the second statement, so the bracketed text is not JSON and the extraction fails with a syntax error |

## Left out

- `src/main.rs`: the HTTP fetch with `reqwest` and the printing are I/O and are not modelled.
- HTML parsing and CSS selector matching (`Html::parse_document`, `doc.select`) belong to the `scraper` crate. The page is represented by what the selectors match (`Document.Html`), so `extract_book_info` takes that representation instead of the response text.
- `Selector::parse` and `Regex::new` can only fail on malformed patterns. Every pattern here is a fixed literal, so those error paths are not modelled.
- JSON tokenizing (`serde_json::from_str` turning text into a value) is the `parse` parameter.
  - serde reads the text as a stream. When the text holds both a schema error and a later syntax error, the model reports the syntax error, whereas serde reports the schema error. Which of the two errors is reported is therefore not modelled.
- `Box<dyn Error>` values are not modelled:
  - metadata errors are the `Field` that failed, and `Missing` gives the source's message for it;
  - chapter errors are `ChapterError`. Schema errors keep serde's error kinds, and `TrailingElements` stands for serde_json's "trailing characters".
- `BookChapter.duration_float` is an `f32` in the source and the exact number (`real`) here. Rounding to single precision is not modelled.
- `BookPlayerArgs` positions 0 and 2–7 are `serde_json::Value` in the source. Here they keep the JSON value as parsed. In particular, an object with a repeated key keeps every occurrence, whereas `serde_json::Value` keeps only the last.
