# A verified model of a small HTTP/1.1 file server

This project models the protocol core of a small HTTP/1.1 file server written in Rust, and proves properties of the model in Dafny. The core has three parts:

- **The request parser**, `HttpRequest::from_stream`.
  - It reads the request line and splits it into method, path and version.
  - It reads header lines into a map until a line that is exactly CRLF or LF.
  - When `Content-Length` parses as a `usize`, it reads exactly that many body bytes.
- **The response builder**, `supports_gzip` and `build_response`. It appends to a byte vector, in this order:
  - the status line;
  - `Connection: close`, `Content-Encoding: gzip`, `Content-Type` and `Content-Length`, each only when it applies;
  - a blank line, then the body.
- **The connection loop**, `handle_connection`.
  - It decides `should_close` for each request.
  - It answers the request through an ordered route table: `/`, `/echo/`, `/user-agent`, GET and POST on `/files`.
  - It writes the response, and goes on until a parse failure, a write failure, or a request that asked to close.

## How the model is laid out

One Dafny module per concern:

- `Text`: bytes and byte strings, with the string operations the source relies on:
  - `split_whitespace`, `trim`, `split_once`;
  - `trim_start_matches`, `contains`, `eq_ignore_ascii_case`;
  - UTF-8 validity.
- `Numeric`: `str::parse::<usize>`, and decimal formatting of a length.
- `Wire`: a header field written as `Name: value\r\n`, and the map that inserting fields in order produces.
- `HttpRequest`: the parser.
  - The stream is the bytes a connection delivers, `Input(data, end)`. `end` says whether the stream ends cleanly (`Eof`) or with a transport error (`Broken`).
  - `read_line` and `read_exact` are functions of the stream and a cursor.
  - `Parse` is `from_stream` as a function.
  - `FromStream` is the imperative version: a loop that inserts into the header map, proved equal to `Parse`.
  - The round-trip lemmas serialize a well-formed `Message` and parse it back.
- `Response`:
  - `SupportsGzip`;
  - `ResponseBytes`, the bytes `build_response` returns;
  - `BuildResponse`, the imperative builder that appends piece by piece, proved equal to `ResponseBytes`.
- `Router`: the route table (`RouteOf`, `Dispatch`), over a file system given as a value.
- `Connection`: `should_close` and the connection loop.
  - The loop is stated once over a `Machine`: a reader, a responder, a write oracle and the stream length. `Run` is that loop as a function.
  - `HandleConnection` is the imperative `while !should_close` loop, proved equal to `Serve`.
- `Pipelining`: requests sent back to back on one connection are read and answered one after another.
- `Framing`: a response read back with the parser's own framing rules gives the fields the builder wrote and exactly the transmitted body.

Things outside the core are parameters:

- gzip compression;
- `String::from_utf8_lossy`;
- `PathBuf::join` of the served directory and a file name;
- whether the write of the `k`-th response succeeds.

The file system is `FileSystem(files, unwritable)`:

- a read succeeds exactly on the paths that hold a file;
- a write fails exactly on the paths in `unwritable`.

## Model

| member | source | states |
|---|---|---|
| Text.TrimStart | src/http_request.rs:38-39 | the result is a suffix of the input, everything cut off is whitespace, and the result does not start with whitespace |
| Text.TrimEnd | src/http_request.rs:38-39 | the result is a prefix of the input, everything cut off is whitespace, and the result does not end with whitespace |
| Text.TrimShape | src/http_request.rs:38-39 | `trim` leaves no whitespace at either edge and returns an infix of the input with only whitespace around it |
| Text.TrimSurrounded | src/http_request.rs:38-39 | trimming whitespace + `c` + whitespace gives back `c` when `c` has no whitespace at its edges |
| Text.WordLen | src/http_request.rs:22 | the length of the leading run of non-whitespace bytes: none of them is whitespace, and the byte after them is |
| Text.Tokens | src/http_request.rs:22 | every token `split_whitespace` yields is a non-empty run with no whitespace |
| Text.TokensOfSpace | src/http_request.rs:22 | leading whitespace does not change the tokens |
| Text.TokensCons | src/http_request.rs:22-25 | whitespace, then a word, then a whitespace boundary: the word is the first token and the rest is split on its own |
| Text.Find | src/http_request.rs:36 | the index of the first occurrence of the byte, or the length when it does not occur |
| Text.SplitOnceNone | src/http_request.rs:36 | `split_once(':')` fails exactly when the line has no colon |
| Text.SplitOnceFirst | src/http_request.rs:36 | `split_once` splits at the first colon, so the value keeps any later colons |
| Text.TrimStartMatches | src/main.rs:99 | the result is no longer than the input and, for a non-empty pattern, no longer starts with it |
| Text.TrimStartMatchesSuffix | src/main.rs:99 | `trim_start_matches` returns a suffix of its input |
| Text.TrimStartMatchesRepeat | src/main.rs:99 | every leading repetition of the pattern is removed, not just one |
| Text.TrimStartMatchesOnce | src/main.rs:122 | stripping a pattern that leads the input equals stripping the rest |
| Text.ContainsAt | src/main.rs:25 | `contains` holds iff the pattern occurs at some index |
| Text.StartsWith | src/main.rs:98 | `str::starts_with`: the pattern is a prefix of the string; see `Router.PrefixesDisjoint` |
| Text.AsciiIsUtf8 | src/http_request.rs:20 | ASCII bytes pass `read_line`'s UTF-8 check |
| Text.Trim | src/http_request.rs:38-39 | `str::trim` over ASCII whitespace, by `TrimStart` then `TrimEnd`; characterised by `Text.TrimShape` |
| Text.SplitOnce | src/http_request.rs:36 | `str::split_once` on one byte; characterised by `Text.SplitOnceNone` and `Text.SplitOnceFirst` |
| Text.Contains | src/main.rs:25 | `str::contains` on a byte pattern; characterised by `Text.ContainsAt` |
| Text.EqIgnoreAsciiCase | src/main.rs:93 | `eq_ignore_ascii_case`: equal length, and equal bytes once ASCII capitals are lowered |
| Text.Utf8Valid | src/http_request.rs:20 | the UTF-8 check `read_line` makes, by the Unicode table of well-formed byte sequences; see `Text.AsciiIsUtf8` and `HttpRequest.ReadLineFails` |
| Numeric.ParseUsize | src/http_request.rs:45 | `str::parse::<usize>`: an optional `+`, then one or more digits, at most `usize::MAX`; characterised by `Numeric.ParseDecimal`, `Numeric.ParseOverflow` and `Numeric.ParseUsizeRejects` |
| Numeric.Decimal | src/main.rs:66 | the decimal form of a length is a non-empty run of digits without a leading zero (unless it is 0) |
| Numeric.DigitsValueOfDecimal | src/main.rs:66 | reading the decimal form of `n` back as digits gives `n` |
| Numeric.ParseDecimal | src/http_request.rs:45 | `parse::<usize>` of a decimal length, with or without a leading `+`, gives that length |
| Numeric.ParseOverflow | src/http_request.rs:45 | a value above `usize::MAX` does not parse |
| Numeric.ParseUsizeRejects | src/http_request.rs:45 | a parsed value fits in a `usize`; the empty string, a lone `+` and anything starting with `-` do not parse |
| Wire.FieldBlockJoin | src/main.rs:39-67 | the header block of two field lists is the two blocks one after the other |
| Wire.FieldBlockOne | src/main.rs:42 | the block of one field is its line |
| Wire.RecordDistinct | src/http_request.rs:37-40 | inserting fields with distinct names gives a map whose keys are the old keys plus those names, with each field's value, and the other keys unchanged |
| HttpRequest.NextLf | src/http_request.rs:30 | the LF search stays within the stream |
| HttpRequest.NextLfFirst | src/http_request.rs:30 | the search stops at the first LF |
| HttpRequest.ReadLine | src/http_request.rs:29-30 | a line read is the bytes from the cursor up to where reading resumes |
| HttpRequest.ReadLineAt | src/http_request.rs:30 | a complete UTF-8 line ending in its only LF is read whole, and reading resumes right after it |
| HttpRequest.ReadLineAtEnd | src/http_request.rs:30 | at the end of a cleanly closed stream `read_line` yields the empty line; at the end of a broken stream, an error |
| HttpRequest.ReadExact | src/http_request.rs:46-47 | `read_exact` succeeds iff enough bytes remain, and then yields exactly the next `n` bytes |
| HttpRequest.ReadLineFails | src/http_request.rs:20 | `read_line` fails when the stream breaks before an LF, and any line it returns is valid UTF-8, so a line that is not is never returned |
| HttpRequest.ReadLineRejectsInvalidUtf8 | src/http_request.rs:30 | the line `0xFF LF` makes `read_line` fail even on a cleanly closed stream |
| HttpRequest.IsTerminator | src/http_request.rs:32-34 | the line that ends the header section is exactly CRLF or exactly LF; see `HttpRequest.ReadHeadersStops` and `HttpRequest.WhitespaceLineIsSkipped` |
| HttpRequest.FieldOf | src/http_request.rs:36-40 | a header line split at its first colon with both sides trimmed, nothing without a colon; characterised by `HttpRequest.FieldOfSplit` and `HttpRequest.NoColonNoField` |
| HttpRequest.InsertField | src/http_request.rs:37-40 | `HashMap::insert` of a line's field, if it has one; see `HttpRequest.FoldFieldsLast` |
| HttpRequest.FoldFields | src/http_request.rs:27-42 | the map after inserting the lines' fields in order; characterised by `HttpRequest.FoldFieldsLast` and `HttpRequest.FoldFieldsUntouched` |
| HttpRequest.TokenOr | src/http_request.rs:23-25 | `parts.next().unwrap_or("")`: the `i`-th token, or the empty string; see `HttpRequest.RequestLineTokens`, `HttpRequest.RequestLineMissing` and `HttpRequest.RequestLineTwoWords` |
| HttpRequest.BodyLength | src/http_request.rs:44-45 | the body length a request announces: `Content-Length`, exact casing, when it parses as a `usize`; see `HttpRequest.BodyRule` |
| HttpRequest.ReadHeaders | src/http_request.rs:27-42 | when the header loop ends at a terminator, reading resumes after the cursor and within the stream |
| HttpRequest.WithBody | src/http_request.rs:44-54 | the body step never reads past the stream |
| HttpRequest.Parse | src/http_request.rs:18-63 | a parsed request ends after where it started and within the stream |
| HttpRequest.FromStream | src/http_request.rs:18-63 | the loop that inserts into the header map returns exactly `Parse`, and every read advances |
| HttpRequest.ReadHeadersOverConcat | src/http_request.rs:28-41 | over complete UTF-8 non-terminator lines, ASCII or not, the loop inserts each line's field in order and carries on after them |
| HttpRequest.ReadHeadersOfLines | src/http_request.rs:28-42 | complete UTF-8 header lines, ASCII or not, then a terminator: the map is the lines' fields inserted in order, and the loop stops right after the terminator |
| HttpRequest.ReadHeadersEnd | src/http_request.rs:32-34 | a terminator ends the loop with the map so far, right after it |
| HttpRequest.ReadHeadersStep | src/http_request.rs:36-41 | a complete UTF-8 line, ASCII or not, that is not a terminator has its field inserted, and the loop goes on after it |
| HttpRequest.ReadHeadersUnterminated | src/http_request.rs:28-34 | a header block of complete UTF-8 lines, optionally followed by a UTF-8 part of a line with no LF, that the end of the stream cuts off stalls on a clean end and fails on a broken one |
| HttpRequest.ReadHeadersPartialLine | src/http_request.rs:29-34 | a UTF-8 header line cut off by the end of the stream: on a clean end the partial line is read and the loop then stalls; on a broken stream `read_line` fails |
| HttpRequest.ReadHeadersAtEnd | src/http_request.rs:29-34 | at the end of the stream the loop stalls (clean end) or fails (broken stream) |
| HttpRequest.FieldOfSplit | src/http_request.rs:36-40 | a colon-free key, a colon, then a value give the trimmed key and the trimmed value |
| HttpRequest.NoColonNoField | src/http_request.rs:36 | a line without a colon yields no field and leaves the map unchanged |
| HttpRequest.ReadHeadersSkipsNoColon | src/http_request.rs:36 | a colon-free line is skipped without error, and the loop goes on after it |
| HttpRequest.WhitespaceLineIsSkipped | src/http_request.rs:32-36 | `" \r\n"` is not a terminator; it is skipped as a colon-free line |
| HttpRequest.ReadHeadersStops | src/http_request.rs:32-34 | a line that is exactly CRLF or LF ends the header section |
| HttpRequest.FoldFieldsLast | src/http_request.rs:37 | a repeated header keeps the value of its last occurrence |
| HttpRequest.FoldFieldsUntouched | src/http_request.rs:37 | a key no line mentions keeps its old presence and value |
| HttpRequest.FieldLineReadsBack | src/http_request.rs:36-40 | a well-formed `Name: value\r\n` line is a complete ASCII non-terminator line whose field is exactly that name and value |
| HttpRequest.FoldFieldLines | src/http_request.rs:37-40 | reading the lines of well-formed fields builds the same map as inserting the fields themselves |
| HttpRequest.RequestLineTokens | src/http_request.rs:22-25 | for `m SP p SP v` + anything starting with whitespace, method, path and version are `m`, `p` and `v`; later tokens are ignored |
| HttpRequest.RequestLineMissing | src/http_request.rs:23-25 | missing tokens become the empty string: all three for a blank line, path and version for a one-word line |
| HttpRequest.RequestLineTwoWords | src/http_request.rs:23-25 | a two-word line such as `GET /\r\n` keeps its method and path and has the empty string as its version |
| HttpRequest.ParseHead | src/http_request.rs:18-44 | any successful parse consists of a line read, a header loop ended by a terminator, and the body step on the tokens and map they gave |
| HttpRequest.BodyRule | src/http_request.rs:44-54 | a body is read iff `Content-Length` is present (exact casing) and parses as a `usize`; then exactly that many bytes are read, or the parse fails; otherwise no body and nothing is read |
| HttpRequest.ZeroLengthBody | src/http_request.rs:44-48 | `Content-Length: 0` gives a present body `Some(lossy(""))`, not `None`, and consumes nothing |
| HttpRequest.ParseAtEnd | src/http_request.rs:18-34 | with nothing left, the parse stalls on a clean end of stream and fails on a broken one |
| HttpRequest.RequestLineIsLine | src/http_request.rs:20 | a serialized request line is a complete UTF-8 line |
| HttpRequest.ParseSerialize | src/http_request.rs:18-63 | a well-formed message, serialized at any position, is parsed back as the request it denotes, and parsing stops exactly at its end |
| HttpRequest.ParseLaidOut | src/http_request.rs:18-63 | the same round trip over the three parts of the message, each at its place |
| HttpRequest.HeadLaidOut | src/http_request.rs:18-42 | a serialized request line and header block read back; only the body step remains |
| HttpRequest.ParseOfHead | src/http_request.rs:22-44 | a request line of three words and a finished header loop give those words, that map and the body step |
| HttpRequest.HeaderBlockReads | src/http_request.rs:27-42 | a serialized block of well-formed fields plus the blank line is read back as the map of those fields, and the loop stops at the block's end |
| HttpRequest.ParseOfParts | src/http_request.rs:18-44 | a parse is its request line's tokens, its header map and the body step after them |
| HttpRequest.BodyOfParts | src/http_request.rs:44-54 | a body as long as the headers announce (empty when none are announced) is read whole, and parsing stops after it |
| Response.SupportsGzip | src/main.rs:22-27 | `supports_gzip`: `gzip` occurs in the `Accept-Encoding` value; characterised by `Response.SupportsGzipIff` |
| Response.StatusLine | src/main.rs:39 | `format!("HTTP/1.1 {}\r\n", status)`; see `Framing.StatusLineIsLine` and `Connection.AnswerIsResponse` |
| Response.Transmitted | src/main.rs:45-55 | the bytes sent as the body: nothing, the body itself, or the compressor's output; characterised by `Response.TransmittedBody` |
| Response.ResponseBytes | src/main.rs:29-76 | the bytes `build_response` returns; characterised by `Response.ResponseLayout` and `Response.ResponseHeaderMap`, and read back by `Framing.ResponseReadsBack` |
| Response.BuildResponse | src/main.rs:29-76 | appending piece by piece (status line, optional fields, blank line, body) returns exactly `ResponseBytes` |
| Response.SupportsGzipIff | src/main.rs:22-27 | `supports_gzip` holds iff `Accept-Encoding` is present and `gzip` occurs somewhere in its value |
| Response.GzipIsCaseSensitive | src/main.rs:25 | `Accept-Encoding: GZIP` does not enable compression |
| Response.TransmittedBody | src/main.rs:45-55 | no body sends nothing; a body without gzip support is sent byte for byte; a gzip-encoded body is the compressor's output |
| Response.ResponseLayout | src/main.rs:39-73 | the response is the status line, the header block, CRLF, then exactly the transmitted body |
| Response.ResponseFieldsInOrder | src/main.rs:39-67 | header fields always appear in the order Connection, Content-Encoding, Content-Type, Content-Length |
| Response.RecordResponseFields | src/main.rs:39-67 | the map of the response's fields is the four optional parts inserted in order |
| Response.ResponseHeaderMap | src/main.rs:39-67 | `Connection: close` iff should_close; `Content-Encoding: gzip` iff encoded; `Content-Type: ct` iff a type is given; `Content-Length` iff the transmitted body is non-empty, with its length as value; no other field |
| Router.RouteOf | src/main.rs:96-153 | the arm of the match a request takes: each arm only when its method and path test hold, tried in the source's order |
| Router.ReadFile | src/main.rs:125 | `fs::read`: the contents exactly on the paths that hold a file, the error elsewhere; see `Router.GetFileReply` |
| Router.WriteFile | src/main.rs:141 | `fs::write` fails exactly on the unwritable paths; after a write the path reads back the data written, every other path reads as before, and the unwritable paths are unchanged |
| Router.UserAgentOf | src/main.rs:109-112 | the `User-Agent` value, or `Unknown`; see `Router.UserAgentReply` |
| Router.Dispatch | src/main.rs:96-153 | the reply of each arm and the files after it; characterised arm by arm by the reply lemmas, `Router.Statuses` and `Router.BodiesAreTyped` |
| Router.PrefixesDisjoint | src/main.rs:96-136 | `/` and the prefixes `/echo/`, `/user-agent`, `/files` never overlap, except that `/files/` lies inside `/files` |
| Router.RootRoute | src/main.rs:97 | the root arm is taken iff the request is exactly `GET /` |
| Router.EchoStripsEveryPrefix | src/main.rs:98-99 | `/echo/` repeated `k` times before `rest` routes to an echo of `rest` |
| Router.EchoRepeated | src/main.rs:98-99 | `GET /echo//echo/x` echoes `x` |
| Router.EchoContent | src/main.rs:98-99 | an echo path routes to an echo whose content is a suffix of the path no longer starting with `/echo/` |
| Router.FilesWithoutSlash | src/main.rs:121-136 | GET matches `/files` without a trailing slash; POST on `/files` falls through |
| Router.GetFilesRoute | src/main.rs:121-122 | any GET path under `/files` reads the name left after stripping every leading `/files/` |
| Router.FilesRoutesAgree | src/main.rs:121-137 | under `/files/`, GET and POST use the same file name |
| Router.FallThrough | src/main.rs:96-153 | methods other than GET and POST, POST outside `/files/`, and GET on a path that is not `/` and starts with none of `/echo/`, `/user-agent`, `/files`, fall through to the last arm |
| Router.UnroutedReply | src/main.rs:153 | the last arm answers a bare 404 and leaves the files unchanged |
| Router.NotFoundExample | src/main.rs:153 | `GET /nope` gets a bare 404 |
| Router.EchoReply | src/main.rs:98-107 | an echo answers 200 `text/plain` with the stripped path as body, and leaves the files unchanged |
| Router.UserAgentReply | src/main.rs:108-120 | `/user-agent` answers 200 `text/plain` with the `User-Agent` value, or `Unknown` when it is absent |
| Router.GetFileReply | src/main.rs:121-135 | a file GET answers 200 `application/octet-stream` with the contents iff the read succeeds, else a bare 404; the files are unchanged |
| Router.PostFileReply | src/main.rs:136-152 | a file POST answers 400 without a body, 201 and writes the body when the write succeeds, 500 and changes nothing when it fails |
| Router.PostThenGet | src/main.rs:121-152 | after a POST that answered 201, a GET of the same path returns exactly the posted body |
| Router.Statuses | src/main.rs:96-153 | every reply is one of the five statuses; only a 201 changes the files, and then exactly by writing the posted body at the joined path |
| Router.BodiesAreTyped | src/main.rs:96-153 | a reply has a body iff it has a content type; bodies come only with 200, typed `text/plain` or `application/octet-stream` |
| Connection.ShouldClose | src/main.rs:91-94 | `should_close`: a `Connection` value equal to `close` up to ASCII case; characterised by `Connection.ShouldCloseIgnoresCase` and `Connection.ShouldCloseExamples` |
| Connection.Answer | src/main.rs:96-154 | the route table's reply passed to `build_response` with `should_close`; see `Connection.AnswerIsResponse` |
| Connection.Run | src/main.rs:82-162 | the connection loop from a position on, with `k` responses written before; characterised by `Connection.RunSound`, `Connection.RunChain` and `Connection.CloseIgnoresRest` |
| Connection.Serve | src/main.rs:82-162 | the whole session of this server on one connection; implemented by `Connection.HandleConnection` |
| Connection.ShouldCloseIgnoresCase | src/main.rs:91-94 | `should_close` depends only on the `Connection` value up to ASCII case |
| Connection.ShouldCloseExamples | src/main.rs:91-94 | `Close` and `CLOSE` close; `keep-alive` and a missing header do not |
| Connection.AnswerIsResponse | src/main.rs:96-154 | every answer starts with the status line prefix `HTTP/1.1 ` |
| Connection.ReaderOf | src/main.rs:83 | reading a request always advances within the stream |
| Connection.HandleConnection | src/main.rs:80-162 | the imperative loop returns exactly the session `Serve` describes: the responses written, the files after, and why it stopped |
| Connection.RunSound | src/main.rs:82-162 | in any session every response written starts with a status line and its write succeeded; a write error is the write right after them; a closed session wrote a response |
| Connection.ServeSound | src/main.rs:82-162 | every session of this server is sound in that sense |
| Connection.CloseIgnoresRest | src/main.rs:82-94 | after a request asking to close nothing more is read, so what follows cannot change the session; when the write succeeds exactly that request's answer is written and the session is `Closed`, with the files that answer left; when it fails nothing is written and the session ends on `WriteError` |
| Connection.EndOfInput | src/main.rs:83-88 | with no more requests, the loop spins for ever on a clean end of stream (`Stalled`) and stops with a parse error on a broken one, writing nothing |
| Connection.FixedReaderOf | src/http_request.rs:28-34 | the parser with a zero-byte read at a clean end treated as an error: it never stalls, and agrees with the parser as written wherever that one does not stall |
| Connection.ServeFixed | src/main.rs:82-162 | the session of this server with the corrected parser; see `Connection.ServeFixedEnds` |
| Connection.RunNeverStalls | src/main.rs:82-162 | a reader that never stalls gives a session that never stalls |
| Connection.RunAgreesUnlessStalled | src/main.rs:82-162 | readers that differ only where the first stalls give the same session whenever the first session does not stall |
| Connection.ServeFixedEnds | src/main.rs:82-162 | with the corrected parser every session ends: a client closing its end gives a parse error with nothing written, and every session of the source that ends is unchanged |
| Connection.RunChain | src/main.rs:82-162 | requests read one after another, none asking to close and every write succeeding, are answered in order, each on the files the previous ones left; the session then goes on after the last |
| Pipelining.ReadsFirst | src/main.rs:83 | the reader at the start of a serialized well-formed message reads back the request it denotes and resumes at its end |
| Pipelining.SerializedChain | src/main.rs:82-89 | well-formed messages sent back to back are read back one by one, each at its offset |
| Pipelining.Pipelined | src/main.rs:82-162 | well-formed keep-alive messages sent back to back are answered one by one, in order, and the session goes on right after the last of them |
| Framing.StatusLineIsLine | src/main.rs:39 | the status line is a complete UTF-8 line |
| Framing.ResponseFieldsWellFormed | src/main.rs:39-67 | every field the builder writes survives the parser's split and trim, given a printable content type |
| Framing.ResponseBodyLength | src/main.rs:65-66 | the `Content-Length` the builder writes, parsed back, is exactly the number of bytes transmitted, and is absent when none are |
| Framing.ResponseReadsBack | src/main.rs:29-76 | a response read with the request parser's rules gives the fields the builder wrote and exactly the transmitted body, and ends at the end of the response |
| Framing.ResponseFramed | src/main.rs:39-73 | the same over a response given by its status line, header block and body |

## Left out

- Sockets, `TcpListener`, `std::thread::spawn`, `stream.flush().unwrap()` and `main` (src/main.rs:161, 165-180). They are network and concurrency plumbing. A connection is modelled as the finite sequence of bytes it delivers plus how it ends.
- clap argument parsing (src/main.rs:15-20). It only supplies the served directory, which appears here only through `join`.
- `fs::read` and `fs::write`. They are a value `FileSystem(files, unwritable)`; the operating system's file semantics are not modelled.
- `PathBuf::join`, the gzip encoder and `String::from_utf8_lossy` are function parameters with no properties assumed. Absolute-path replacement in `join` and DEFLATE itself are therefore not modelled.
- `print_request` (src/http_request.rs:65-75) and every `eprintln!`. They only write diagnostics.
- Whitespace is the ASCII part of Rust's `char::is_whitespace` (tab, LF, VT, FF, CR, space). Non-ASCII whitespace such as U+00A0 in a request line or header is not modelled.
- The header loop at the end of a cleanly closed stream. There `read_line` keeps yielding the empty string, which is neither a terminator nor a field, so the source spins for ever at full CPU. The model reports this as `Stalled` (`ParseStalled`, `HeadersStalled`) instead of diverging; see "## Findings".
- A huge `Content-Length`: `vec![0; length]` may abort on allocation before `read_exact` runs. The model goes straight to `read_exact`, which fails when the stream holds fewer bytes.
- Router.PostThenGet and Connection.RunChain: the file system belongs to one connection and a write fails on a fixed set of paths. The source shares one directory across connection threads (src/main.rs:172-173), so writes by other connections between two requests, with their last-writer-wins race, and write failures that come and go, are not modelled.
- `usize` is 64 bits wide: `parse::<usize>` rejects values above 2^64 - 1 (`Numeric.USIZE_MAX`). The bound of a target with another pointer width is not modelled.
- A partial `write_all` is not modelled. A write either delivers the whole response or fails; the result of the `k`-th write is the parameter `writeOk(k)`.
- HttpRequest.ParseSerialize: the round trip is proved only for well-formed messages. Their tokens and fields are printable ASCII with no whitespace at the edges, and their body is exactly as long as `Content-Length` announces.
- Framing.ResponseReadsBack: like the round trip, it needs a printable status and content type without whitespace at the edges of the type.
- Pipelining.Pipelined: stated for any responder, not just this server's `Respond(host)`. It says the exchange is answered in order, not what each answer is; that is for the `Router` lemmas.

## Findings

| source | as written | input that shows it | evidently intended | confidence | as-written member | corrected member |
|---|---|---|---|---|---|---|
| src/http_request.rs:28-34 | at a clean end of stream `read_line` returns at once with an empty line, which is neither a terminator nor a field, so the header loop never ends and the connection thread spins at full CPU | a client that sends one keep-alive request and then closes its end, or connects and closes at once: the stream `Input(data, Eof)` once `data` is used up | a read of zero bytes ends the request with an error, so `handle_connection` leaves its loop | high (not executed) | Connection.EndOfInput | Connection.ServeFixedEnds |

The rest of the model follows the code as written (`Serve`, `HandleConnection`). The corrected parser `FixedReaderOf` plugs into the same `Machine`, so `RunSound`, `RunChain` and `CloseIgnoresRest` hold for it unchanged.
