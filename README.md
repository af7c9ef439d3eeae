# A verified model of a minimal HTTP/1.1 server

This is a Dafny model of the request/response core of a small Rust web server. The server:

- accepts TCP connections one at a time;
- reads up to 1024 bytes from each into a zeroed buffer;
- parses the request line at the front of the buffer;
- passes the request, or the parse error, to a `Handler`;
- writes back a status line, an empty line and an optional body.

The handler shipped with the server serves static files below a public directory.

The modules follow the program's structure:

- `Wrappers`: `Option` and `Result`.
- `Utf8`: strict UTF-8 decoding and encoding per section 4 of RFC 3629. This is the check `str::from_utf8` performs. Decoding and encoding are proved inverse in both directions. Concatenation and trailing zero bytes are also covered.
- `HttpTypes`: the closed `Method` and `StatusCode` enumerations. It also has the types of the two functions the model takes as parameters instead of defining:
  - `Method::from_str`, as a `MethodParser`;
  - the numeric code and reason phrase of a status, as `StatusText`.
- `HttpRequest`: `ParseError` and its messages, `get_next_word` and `Request::try_from`. `get_next_word` and `Request::try_from` are each a specification function plus a method that follows the Rust code step by step and is proved equal to it. `message` is a function with a read-back `ErrorNamed`, proved to invert it. The lemmas state:
  - the error order (encoding, then a missing word, then protocol, then method);
  - the `?` split;
  - that the text after the third word is irrelevant.
- `HttpResponse`: `Response::new`, and `send` as the text it writes. There is a read-back function for the body, proved to invert it.
- `Server`: the `Handler` trait as two functions over the handler's own state, and its default `handle_bad_request`. It models the 1024-byte read buffer as an `array`, one loop iteration, and the loop of `Server::run` over a finite sequence of network events.
- `Website`: `WebsiteHandler::handle_request` and the path join of `read_file`. The file system is an oracle. The module includes a lemma for one whole connection: bytes to output text for `GET /`.

The files method.rs and status_code.rs are not part of this model. Of the `Method` and `StatusCode` variants, the modelled code uses only `GET`, `Ok`, `BadRequest` and `NotFound`, and no lemma depends on the others.

## Model

| member | source | states |
|---|---|---|
| Utf8.DecodeChar | src/http/request.rs:67 | The first character of a byte string and its length (1 to 4 bytes), or None when the bytes do not start with a well-formed sequence. The length is 1 exactly for an ASCII byte. Every byte of a longer sequence is at least 0x80. |
| Utf8.Decode | src/http/request.rs:67 | `str::from_utf8`: a decoded text is never longer than its bytes, and a valid non-empty byte string starts with a decodable character. The round trips `DecodeEncode` and `EncodeDecode` pin its meaning down. |
| Utf8.Encode | src/http/request.rs:67 | A text of n characters encodes to between n and 4n bytes. |
| Utf8.DecodeEncode | src/http/request.rs:67 | Every text decodes back from its UTF-8 encoding. |
| Utf8.EncodeDecode | src/http/request.rs:67 | Every byte string that decodes is the encoding of its decoding, so the decoding is unique. |
| Utf8.EncodeAppend | src/http/request.rs:67 | Encoding distributes over concatenation. |
| Utf8.DecodeAppend | src/http/request.rs:67 | Two valid byte strings put together decode to their two texts put together. |
| Utf8.DecodeZeros | src/server.rs:55 | Zero bytes after valid UTF-8 decode to the same number of NUL characters after its text. |
| Utf8.ValidBeforeZeros | src/server.rs:55 | If a byte string followed by zeros is valid UTF-8, so is the byte string alone. |
| HttpRequest.ErrorNamed | src/http/request.rs:148-155 | Reads a message back as the error it names. A message it recognises is that error's message. |
| HttpRequest.Message | src/http/request.rs:148-155 | No `ensures` of its own. `ErrorNamed` reads each message back, and `MessagesDistinct` states that the four messages are distinct. |
| HttpRequest.MessagesDistinct | src/http/request.rs:148-155 | Each of the four errors has its own fixed message: the message identifies the error. |
| HttpRequest.NextWord | src/http/request.rs:129-137 | None exactly when the text has neither a space nor a carriage return. Otherwise the text is the word, one delimiter and the rest, and the word holds no delimiter (the split is at the first one). |
| HttpRequest.NextWordOf | src/http/request.rs:129-134 | A delimiter-free word followed by a delimiter is split off exactly, whatever follows. |
| HttpRequest.GetNextWord | src/http/request.rs:117-138 | The `char_indices` scan with early return computes `NextWord`. |
| HttpRequest.NextWordCount | src/http/request.rs:129-137 | Each split consumes exactly one delimiter, and None means there was none. |
| HttpRequest.IndexOf | src/http/request.rs:104 | `str::find`: None exactly when the character is absent. Otherwise the index holds the character and nothing before it does. |
| HttpRequest.SplitTarget | src/http/request.rs:104-107 | The path never contains `?`. With no `?` the path is the whole target and there is no query. Otherwise the target is the path, `?` and the query. |
| HttpRequest.TryFrom | src/http/request.rs:49-114 | The step-by-step `try_from`, with its reassigned `request`, `path` and `query_string` locals, computes `Parse`. |
| HttpRequest.Parse | src/http/request.rs:49-114 | `InvalidEncoding` exactly when the buffer is not valid UTF-8. The lemmas state the rest: `EncodingCheckedFirst`, `MissingWordIffFewDelimiters`, `ParseRequestLineShape`, `RemainderIgnored`, `TrailingBytesIgnored` and `ParsedPathHasNoQuery`. |
| HttpRequest.ParseRequestLine | src/http/request.rs:72-113 | Never `InvalidEncoding`, and a successfully parsed path holds no `?`. `ParseRequestLineShape`, `RequestLineParts` and `RemainderIgnored` state its error order and result. |
| HttpRequest.EncodingCheckedFirst | src/http/request.rs:67 | A buffer that is not valid UTF-8 fails with `InvalidEncoding`, whatever it holds. |
| HttpRequest.MissingWordIffFewDelimiters | src/http/request.rs:72-76 | `InvalidRequest` exactly when the buffer decodes and its text has fewer than three delimiters. |
| HttpRequest.ParseRequestLineShape | src/http/request.rs:72-113 | For three delimited words and a remainder: `InvalidProtocol` when the third word is not `HTTP/1.1`, even with a bad method; otherwise `InvalidMethod` when the verb is not a method; otherwise success with the split target and the parsed verb. |
| HttpRequest.RequestLineParts | src/http/request.rs:72-76 | A text with three delimiters is three delimiter-free words, each followed by a delimiter, then a remainder. |
| HttpRequest.RemainderIgnored | src/http/request.rs:76-113 | Once the text holds three words, text appended after it does not change the result. |
| HttpRequest.TrailingBytesIgnored | src/http/request.rs:67-113 | The same on bytes: valid UTF-8 after a buffer that holds three words (headers, body) is discarded. |
| HttpRequest.ParsedPathHasNoQuery | src/http/request.rs:104-107 | A successfully parsed path never contains `?`. |
| HttpRequest.ByteScanMatchesCharScan | src/http/request.rs:129-133 | On valid UTF-8, splitting the bytes at the first 0x20 or 0x0D gives the encodings of the word and rest that the character scan gives. The delimiters never occur inside a multi-byte sequence, so the `i + 1` byte offset is sound. |
| HttpResponse.New | src/http/response.rs:13-15 | Stores the status and body unchanged; every combination is accepted. |
| HttpResponse.Send | src/http/response.rs:23-35 | No `ensures` of its own. `SendRoundTrip`, `SendWithBody`, `SendWithoutBody`, `SendStartsWithVersion` and `SendDeterminesBody` state its output. |
| HttpResponse.ReadBody | src/http/response.rs:28-34 | A body it reads back follows the status part exactly. |
| HttpResponse.SendStartsWithVersion | src/http/response.rs:30 | Every output starts with `HTTP/1.1 `. |
| HttpResponse.SendWithoutBody | src/http/response.rs:24-27 | With no body the output ends right after the empty line, the same as with an empty body. |
| HttpResponse.SendWithBody | src/http/response.rs:24-34 | With a body the output ends with it verbatim, and is the status part's length plus the body's. |
| HttpResponse.SendRoundTrip | src/http/response.rs:28-34 | Stripping the status part, which depends only on the status, recovers the body, or the empty string when there is none. |
| HttpResponse.SendDeterminesBody | src/http/response.rs:24-34 | Two responses with one status give the same output only if their body texts agree. |
| Server.DefaultHandleBadRequest | src/server.rs:19-22 | 400 with no body for every parse error, leaving the handler state unchanged. |
| Server.FilledBuffer | src/server.rs:55-60 | Always 1024 bytes: the bytes read at the front, zeros after them. |
| Server.ReadInto | src/server.rs:60 | The read overwrites as many leading buffer bytes as were delivered (at most the buffer's length) and leaves the rest unchanged. |
| Server.ReadRequest | src/server.rs:55-60 | A fresh zero-filled 1024-byte array after one read holds `FilledBuffer`. |
| Server.Respond | src/server.rs:68-87 | Exactly one handler operation runs: `handle_request` with the parsed request when parsing succeeds, `handle_bad_request` with the error when it fails. Its response and new state are kept as they are. |
| Server.Connection | src/server.rs:52-101 | A failed accept or read gives no response and leaves the state unchanged. A read is answered from the whole 1024-byte buffer, the output is `send` of the handler's response, and the write outcome is recorded. |
| Server.Serve | src/server.rs:50-103 | One exchange per event. |
| Server.ServeConnection | src/server.rs:52-87 | The loop body computes `Connection`: it allocates and fills the buffer, runs `TryFrom` on all of it and calls the chosen handler operation. |
| Server.Run | src/server.rs:50-103 | The loop, over the given events, computes `Serve`. |
| Server.ServePrefix | src/server.rs:50-103 | The exchanges of a prefix of the events are a prefix of the exchanges. |
| Server.ServeAt | src/server.rs:50-103 | No failure ends the loop: event i is handled by the loop body, from the state the earlier events left. |
| Server.ServeAnswersReadsOnly | src/server.rs:60-101 | An exchange has a response exactly when its read succeeded. Failed accepts and reads leave the handler state unchanged. |
| Server.PaddingIsHarmless | src/server.rs:55-68 | For a read of at most 1024 bytes, parsing the zero-padded buffer gives the same result as parsing the bytes read. |
| Website.JoinPath | src/website_handler.rs:16 | The public path, one `/`, then the file path. |
| Website.ReadFile | src/website_handler.rs:15-36 | No `ensures` of its own: it is the file-system oracle applied to `JoinPath`. `RootServesIndex`, `HelloServesHello` and `OtherPathServesFile` use it through the joined path. |
| Website.RequestPathDoublesSlash | src/website_handler.rs:16 | A request path that starts with `/` produces `//` in the joined path. |
| Website.HandleRequest | src/website_handler.rs:40-64 | The status is only ever 200 or 404. A 404 has no body. Any method other than GET gives 404. |
| Website.AsHandler | src/website_handler.rs:39-65 | No `ensures` of its own: `handle_request` with the handler left unchanged, and the default `handle_bad_request` of src/server.rs:19-22. `WebsiteServeStatuses` and `WebsiteAnswers` state what it does in the server loop. |
| Website.RootServesIndex | src/website_handler.rs:43-48 | GET `/` is 200 with the contents of `<public>/index.html`, even when that file cannot be read. |
| Website.HelloServesHello | src/website_handler.rs:49-54 | GET `/hello` is 200 with the contents of `<public>/hello.html`, even when that file cannot be read. |
| Website.OtherPathServesFile | src/website_handler.rs:55-58 | Any other GET path is 200 exactly when `<public>/<path>` can be read, and the body is its contents. |
| Website.WebsiteServeStatuses | src/website_handler.rs:40-64 | Over any run of events, the website handler is never changed. Each answered request is 400 exactly when it did not parse, and otherwise 200 or 404. |
| Website.RootLineParses | src/http/request.rs:72-113 | The text `GET / HTTP/1.1` plus an empty line parses to a GET of `/` with no query. |
| Website.RootRequestParses | src/server.rs:55-68 | The same line, sent as UTF-8 and read into the zeroed buffer, parses the same way. |
| Website.WebsiteAnswers | src/server.rs:68-89 | A read that parses is answered by the website's `handle_request` alone, and its response is what is written. |
| Website.RootRequestEndToEnd | src/website_handler.rs:43-48 | A client sending `GET / HTTP/1.1` with index.html holding `page` receives exactly `HTTP/1.1 200 OK`, an empty line and `page`. |

## Left out

- Network I/O (`TcpListener::bind`, `accept`, `stream.read`, `write!` to the socket) is not modelled. Each loop iteration is an event saying whether the accept failed, the read failed, or which bytes arrived and whether the write succeeded.
- The `io::Error` from `send` is not modelled; only whether the write succeeded is recorded, because the `Write` sink is foreign I/O.
- The infinite `loop` of `Server::run` runs over a finite sequence of events; an infinite run is every finite prefix of it (`Server.ServePrefix`).
- `Server::new` and the `addr` field appear only in the logging and in `bind`, so they are not modelled.
- `fs::canonicalize`, `fs::read_to_string` and the directory-traversal check are behind the file-system oracle, because they depend on the real file system.
- `println!`, `dbg!` and `String::from_utf8_lossy` are logging only.
- `Method::from_str`, `QueryString::from` and the `Display`/`reason_phrase` of `StatusCode` are function parameters or a raw suffix: method.rs, query_string.rs and status_code.rs are not part of this model.
- The query string is the raw text after the first `?`; its key/value parsing lives in query_string.rs.
- The `Debug` and `Display` impls of `ParseError` only print `message`, which is modelled as `HttpRequest.Message`.
- The `Utf8Error` and `MethodError` payloads are dropped by the two `From` conversions, so the model does not carry them.
- Character indices stand for Rust's byte offsets. This applies to `get_next_word`'s `i` and `i + 1` and to the index that `str::find` returns for `?`. The slices are the same because space, carriage return and `?` are one byte each. `HttpRequest.ByteScanMatchesCharScan` proves this for the delimiter scan; for `find` the model does not state it as a lemma.
- Rust lifetimes are not modelled: the path and query are `string` values rather than slices borrowed from the buffer.
- `WebsiteHandler::new` is the datatype constructor `Website.WebsiteHandler`; the `public_path` field is never updated.
- src/main.rs (startup, environment variables) and src/http/mod.rs (re-exports) hold no request or response logic.
