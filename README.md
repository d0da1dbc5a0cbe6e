# simple-multithreaded-httpserver: the HTTP layer, modelled in Dafny

This project models the sequential HTTP layer of a small Rust web server and
proves what it computes:

- `parse_request` (src/request.rs) reads the first line of a raw request and
  returns its first two whitespace-separated tokens, the method and the path.
  This is a loose form of the request line of section 3 of RFC 9112.
- `build_response` (src/response.rs) routes the parsed request to a file.
  `GET /` goes to `pages/index.html`; any other request goes to its path
  without the leading byte. It then prefixes either
  `HTTP/1.1 200 OK\r\n\r\n` and the file's text, or
  `HTTP/1.1 404 NOT FOUND\r\n\r\n404 Not Found`.
- `handle_connection` (src/main.rs) reads into a zero-filled 1024-byte buffer.
  The buffer must start with exactly `GET / HTTP/1.1\r\n` to get the index page
  and the 200 status; every other request gets `pages/404.html` and the 404
  status. The response is `status\r\nContent-Length: N\r\n\r\nbody`, where N
  is the body's length in UTF-8 bytes (section 8.6 of RFC 9110).

src/request.rs and src/response.rs are not declared as modules in src/lib.rs
or src/main.rs, so the crate never compiles them. The model follows them as
written.

Modules, one per file:

| file | module | models |
|---|---|---|
| outcomes.dfy | `Outcomes` | `Option`, `Result`, and `Panic`, which names the `unwrap()` or slice that aborted |
| files.dfy | `Files` | the filesystem as a map from path to `Option<text>`; `Path::is_file`, `fs::read_to_string(..).unwrap()` |
| text.dfy | `Text` | `char::is_whitespace`, `str::lines`, `split_whitespace`, `str::len` (UTF-8 bytes), `format!("{}", n)` |
| request.dfy | `Request` | src/request.rs |
| response.dfy | `Response` | src/response.rs |
| server.dfy | `Server` | the pure part of `handle_connection` in src/main.rs |

Design decisions:

- A panic is a value. Each `unwrap()` on `None` or `Err`, and each slice at a
  byte index that is not a char boundary, aborts the handling thread. The model
  returns `Err(p)` there, where `p` names the failing call. Because of this, the
  conditions under which each function fails are proved (in both directions)
  instead of being assumed away by a precondition.
- Strings are sequences of Unicode scalar values. Rust's byte-level facts are
  written out where they matter. `len()` is the UTF-8 byte count (`Utf8Len`).
  `&path[1..]` succeeds exactly when the first character is one byte long.
- The filesystem is a parameter `fs: map<string, Option<string>>`.
  - A key is a path where a regular file exists.
  - `Some(text)` means the file reads as UTF-8 text.
  - `None` means `read_to_string` fails on it.
- Whitespace is the full Unicode White_Space set, which is what
  `char::is_whitespace` uses.
- `lines()` follows current Rust behaviour: a line ends at `\n`, and a `\r` is
  dropped only when it comes right before that `\n`.
- `split_whitespace` is modelled as the iterator step `NextToken`, called twice
  as the source does. `Tokens` is an independent reference definition (maximal
  runs of non-whitespace, built character by character). Lemmas connect the two.
- The response format has a partner, `ParseResponse`. It splits at the first
  `\r\n\r\n`, then at the first `\r\n`, and reads the Content-Length value.
  The round trip through it is proved.

## Model

| member | source | states |
|---|---|---|
| `Files.ReadToString` | src/main.rs:50 | reading succeeds exactly for a regular file whose content is text, gives that text, and otherwise panics naming the path |
| `Text.FirstLineOf` | src/request.rs:2-3 | the first line of `line + "\n" + tail` is `line` with a trailing `\r` removed, whatever `tail` is; an unterminated non-empty line is its own first line |
| `Text.FirstLine` | src/request.rs:2-3 | `lines().next()` is nothing exactly when the request is empty |
| `Text.NextToken` | src/request.rs:5-7 | the iterator yields nothing exactly when the text is all whitespace; otherwise a non-empty token with no whitespace, followed by the end of the text or by whitespace |
| `Text.NextTokenSplits` | src/request.rs:5-7 | the text is leading whitespace, then the token, then the remainder, in that order |
| `Text.NextTokenOf` | src/request.rs:5-7 | whitespace, a token, and then an end or whitespace always yield exactly that token and remainder (the token is determined uniquely) |
| `Text.NextTokenIsFirstToken` | src/request.rs:5-7 | the iterator step agrees with the reference tokenisation: it yields its first token and leaves exactly the others |
| `Text.Utf8Len` | src/main.rs:56 | `len()` is between the number of characters and four times that number, and equals it exactly when every character is ASCII |
| `Text.Decimal` | src/main.rs:54-56 | the Content-Length numeral is non-empty, all digits, and has no leading zero |
| `Text.ParseDecimal` | src/main.rs:54-56 | a numeral is read exactly when it is a non-empty string of digits |
| `Text.CanonicalDecimal` | src/main.rs:54-56 | a numeral that reads as n and has no leading zero is exactly the numeral `format!` writes for n |
| `Text.ParseDecimalOfDecimal` | src/main.rs:54-56 | reading back the numeral that `format!` writes gives the number |
| `Request.ParseRequest` | src/request.rs:1-10 | the result has exactly two elements, method then path, and both are non-empty and free of whitespace; it panics for lack of a first line exactly when the request is empty |
| `Request.ParseRequestLine` | src/request.rs:5-9 | on the request line, the only failures are the missing method and the missing path |
| `Request.ParseRequestIsFirstTwoTokens` | src/request.rs:5-9 | method and path are tokens 1 and 2 of the first line; the parse panics with a missing method when there are no tokens and with a missing path when there is one |
| `Request.ParseRequestReadsFirstLineOnly` | src/request.rs:2-3 | changing anything after the first line terminator leaves the result unchanged |
| `Request.ParseRequestOfLine` | src/request.rs:2-9 | a first line of whitespace, method, whitespace, path and whitespace-led rest parses to that method and path, with or without a terminator and with anything after it |
| `Request.ParseRequestIgnoresSpacing` | src/request.rs:5 | leading and repeated whitespace do not change the result: `"  GET   /x"` parses like `"GET /x"` |
| `Request.ParseRequestOfRootRequest` | src/request.rs:1-10 | `"GET / HTTP/1.1\r\n"` parses to `["GET", "/"]`, with the version ignored |
| `Response.ConsultedFile` | src/response.rs:12-20 | `GET /` consults `pages/index.html`. For any other request, the byte slice `&path[1..]` succeeds exactly when the path's first character is one UTF-8 byte; the file is then the path minus that character, one byte shorter, and for a path starting with `/` it is the path without its leading `/`. Otherwise, including the empty path, it panics at the slice |
| `Response.Serve` | src/response.rs:13-25 | an existing file gets the 200 status line and its text; a missing file gets the 404 status line and the fixed page; it panics exactly for a file that cannot be read. `BuildResponseOfRoot` and `BuildResponseOfPath` tie it to whole requests through `Serves` |
| `Response.BuildResponse` | src/response.rs:6-31 | every response starts with exactly one of the two status prefixes |
| `Response.StatusLinesDiffer` | src/response.rs:15-17 | neither status prefix can begin a response that starts with the other |
| `Response.BuildResponseOfRoot` | src/response.rs:12-18 | the root request gets `pages/index.html` after the 200 prefix, or the fixed 404 page when that is not a file, or a panic when it cannot be read |
| `Response.BuildResponseOfPath` | src/response.rs:19-25 | any other request with an ASCII first path character is served the same way from the path minus that character (the empty path for non-GET `/`) |
| `Response.BuildResponseOfNonAsciiPath` | src/response.rs:20 | a path whose first character takes more than one UTF-8 byte makes the slice panic |
| `Response.BuildResponseOfUnparsable` | src/response.rs:7-10 | a request that `parse_request` rejects fails with the same panic |
| `Response.BuildResponseIgnoresMethod` | src/response.rs:12-22 | apart from the root request `GET /`, two requests for the same path get identical responses whatever their methods; this includes `/` requested with two methods other than GET |
| `Response.SplitStatus` | src/response.rs:28 | a split puts back together into the response it came from |
| `Response.SplitStatusOfResponse` | src/response.rs:28 | removing the status prefix gives back the status line and the body unchanged |
| `Response.BuildResponseSplits` | src/response.rs:12-30 | every response is a status prefix followed by the body. After the 404 prefix the consulted file does not exist and the body is `404 Not Found`; after the 200 prefix the body is the consulted file's text |
| `Server.ReceiveBuffer` | src/main.rs:34-37 | the buffer holds 1024 bytes: the received bytes, then zeros |
| `Server.ReceiveBufferStartsWith` | src/main.rs:34-41 | the zero-filled buffer starts with `GET / HTTP/1.1\r\n` exactly when the received bytes do, so shorter input never matches |
| `Server.SelectPage` | src/main.rs:40-47 | the index page is chosen exactly when the buffer's first 16 bytes are `GET / HTTP/1.1\r\n`, and always with the 200 status line; every other buffer gets the 404 status line and `pages/404.html`. `SelectPageOfReceived` carries this back to the received bytes |
| `Server.SelectPageOfReceived` | src/main.rs:40-47 | 200 and `pages/index.html` exactly for requests that begin with that line; 404 and `pages/404.html` for all others |
| `Server.HandleConnection` | src/main.rs:40-58 | the only way it fails is that one of the two pages cannot be read |
| `Server.FormatResponse` | src/main.rs:53-58 | the response begins with the status line, ends with the contents unchanged, and has a header section between them. `FormatResponseRoundTrip` and `FormatResponseFirstLine` characterise it; with `Text.CanonicalDecimal` they determine it completely, because its Content-Length digits are the only numeral without a leading zero that reads as the body's length |
| `Server.ParseAssembledResponse` | src/main.rs:53-58 | a status line without `\r`, one Content-Length field whose digits read as n, a blank line and a body read back as exactly those parts |
| `Server.FormatResponseRoundTrip` | src/main.rs:53-58 | splitting the response at its first blank line and first line break gives back the status line, a Content-Length equal to the body's UTF-8 byte length, and the exact body |
| `Server.HeaderSectionHasNoBlankLine` | src/main.rs:53-55 | the status line and the Content-Length line contain no `\r\n\r\n`, so the first blank line is the one before the body |
| `Server.FormatResponseFirstLine` | src/main.rs:53-55 | the first line of the response is the status line |
| `Server.HandleConnectionResponse` | src/main.rs:40-58 | the response carries the status chosen by the first bytes, and the chosen page's text as a body whose byte length is its Content-Length; it panics exactly when that page cannot be read |

## Left out

- src/lib.rs `ThreadPool` and `Worker`: their purpose is concurrency. Channel
  hand-off, the mutex-guarded receiver, spawning and joining threads, and
  `Drop` rest on `std::sync::mpsc`, `Arc<Mutex<..>>` and `thread`, whose
  semantics are not modelled.
- The accept loop in `main` (`TcpListener::bind`, `incoming().take(2)`,
  `pool.execute`): this is socket I/O and thread hand-off.
- `stream.read`: the bytes that one read delivers are a parameter of
  `Server.HandleConnection`. The panic of its `.unwrap()` when the read fails
  is not modelled. The model does not decide how many bytes a read
  returns; a request split across reads is not modelled.
- `stream.write_all`, `stream.flush`, and the `.unwrap()` on each of them: the
  model returns the response text and does not write it anywhere.
- `println!` diagnostics: output only.
- Operating-system path semantics (`.`, `..`, directories, symbolic links,
  permissions): the filesystem is a map from path strings.
- Files outside the working directory: a path that starts with `//` becomes
  an absolute path once its first byte is dropped, and a path containing `..`
  can climb out of the directory. The map abstraction gives such paths no
  meaning of their own, so the model does not express that they escape the
  directory the server runs in.
- Server.HandleConnection: its response is text (`String`), not the bytes of
  `response.as_bytes()`. The Content-Length is still the UTF-8 byte count of
  the body.
