/**
 * `WebsiteHandler` (src/website_handler.rs): serves files below a public
 * directory.  The file system is an oracle from a full path to the file's
 * contents; canonicalisation, the directory-traversal check and the actual
 * read all happen behind it.
 */
module Website {
  import opened Wrappers
  import opened Utf8
  import opened HttpTypes
  import opened HttpRequest
  import opened HttpResponse
  import opened Server

  /** The handler's one field, never changed after `WebsiteHandler::new`. */
  datatype WebsiteHandler = WebsiteHandler(publicPath: string)

  /** What `read_file` finds at a full path: the contents, or None when it gives up. */
  type FileSystem = string -> Option<string>

  /** `format!("{}/{}", public_path, file_path)`. */
  function JoinPath(publicPath: string, filePath: string): (p: string)
    ensures |p| == |publicPath| + 1 + |filePath|
    ensures p[..|publicPath|] == publicPath
    ensures p[|publicPath|] == '/'
    ensures p[|publicPath| + 1..] == filePath
  {
    publicPath + "/" + filePath
  }

  /** A request path keeps its leading `/`, so the joined path has two slashes in a row. */
  lemma RequestPathDoublesSlash(publicPath: string, filePath: string)
    requires |filePath| > 0 && filePath[0] == '/'
    ensures JoinPath(publicPath, filePath)[|publicPath|..|publicPath| + 2] == "//"
  {
    var p := JoinPath(publicPath, filePath);
    assert p[|publicPath| + 1] == p[|publicPath| + 1..][0] == '/';
  }

  function ReadFile(h: WebsiteHandler, fs: FileSystem, filePath: string): (contents: Option<string>) {
    fs(JoinPath(h.publicPath, filePath))
  }

  /** `handle_request`: the routing from (method, path) to a response. */
  function HandleRequest(h: WebsiteHandler, fs: FileSystem, request: Request): (r: Response)
    ensures r.statusCode == Ok || r.statusCode == NotFound
    ensures r.statusCode == NotFound ==> r.body == None
    ensures request.httpMethod != GET ==> r.statusCode == NotFound
  {
    match request.httpMethod
    case GET =>
      if request.path == "/" then New(Ok, ReadFile(h, fs, "index.html"))
      else if request.path == "/hello" then New(Ok, ReadFile(h, fs, "hello.html"))
      else
        (match ReadFile(h, fs, request.path)
         case Some(contents) => New(Ok, Some(contents))
         case None => New(NotFound, None))
    case _ => New(NotFound, None)
  }

  /** GET `/` is answered 200 with index.html, even when that file cannot be read. */
  lemma RootServesIndex(h: WebsiteHandler, fs: FileSystem, request: Request)
    requires request.httpMethod == GET && request.path == "/"
    ensures HandleRequest(h, fs, request).statusCode == Ok
    ensures HandleRequest(h, fs, request).body == fs(h.publicPath + "/index.html")
  {
    assert JoinPath(h.publicPath, "index.html") == h.publicPath + "/index.html";
  }

  /** GET `/hello` is answered 200 with hello.html, even when that file cannot be read. */
  lemma HelloServesHello(h: WebsiteHandler, fs: FileSystem, request: Request)
    requires request.httpMethod == GET && request.path == "/hello"
    ensures HandleRequest(h, fs, request).statusCode == Ok
    ensures HandleRequest(h, fs, request).body == fs(h.publicPath + "/hello.html")
  {
    assert JoinPath(h.publicPath, "hello.html") == h.publicPath + "/hello.html";
  }

  /** Any other GET path is served from the file it names, or answered 404 when there is none. */
  lemma OtherPathServesFile(h: WebsiteHandler, fs: FileSystem, request: Request)
    requires request.httpMethod == GET && request.path != "/" && request.path != "/hello"
    ensures HandleRequest(h, fs, request).statusCode == Ok <==>
            fs(h.publicPath + "/" + request.path).Some?
    ensures HandleRequest(h, fs, request).body == fs(h.publicPath + "/" + request.path)
  {
  }

  /** The handler as the server sees it: its state never changes, the fallback is the default. */
  function AsHandler(fs: FileSystem): (handler: Handler<WebsiteHandler>) {
    Handler((h, request) => (h, HandleRequest(h, fs, request)), DefaultHandleBadRequest)
  }

  /**
   * Served by the website handler, every answered connection carries 400
   * exactly when its request did not parse, and otherwise 200 or 404; the
   * handler itself is never changed.
   */
  lemma {:induction false} WebsiteServeStatuses(h: WebsiteHandler, fs: FileSystem, events: seq<Event>,
                                                parseMethod: MethodParser, code: StatusText, reason: StatusText)
    ensures Serve(AsHandler(fs), h, events, parseMethod, code, reason).1 == h
    ensures forall x | x in Serve(AsHandler(fs), h, events, parseMethod, code, reason).0 ::
              x.Answered? ==>
                (x.response.statusCode == BadRequest <==> x.dispatch.BadRequestHandled?) &&
                (x.dispatch.RequestHandled? ==> x.response.statusCode in {Ok, NotFound})
    decreases |events|
  {
    if events != [] {
      WebsiteServeStatuses(h, fs, events[..|events| - 1], parseMethod, code, reason);
    }
  }

  /** The text `GET / HTTP/1.1` and an empty line is a GET of `/` with no query. */
  lemma RootLineParses(parseMethod: MethodParser)
    requires parseMethod("GET") == Some(GET)
    ensures ParseRequestLine("GET / HTTP/1.1\r\n\r\n", parseMethod) == Success(Request("/", None, GET))
  {
    assert "GET / HTTP/1.1\r\n\r\n" == "GET" + [' '] + ("/" + [' '] + ("HTTP/1.1" + ['\r'] + "\n\r\n"));
    ParseRequestLineShape("GET", ' ', "/", ' ', "HTTP/1.1", '\r', "\n\r\n", parseMethod);
    assert SplitTarget("/") == ("/", None);
  }

  /** Any bytes that decode to a text of `n` characters are at most `4 * n` bytes long. */
  lemma DecodedLength(bytes: seq<byte>)
    requires Decode(bytes).Some?
    ensures |bytes| <= 4 * |Decode(bytes).value|
  {
    EncodeDecode(bytes);
  }

  /** The same request line, sent as UTF-8 and read into the zeroed buffer, parses the same way. */
  lemma RootRequestParses(bytes: seq<byte>, parseMethod: MethodParser)
    requires parseMethod("GET") == Some(GET)
    requires Decode(bytes) == Some("GET / HTTP/1.1\r\n\r\n")
    ensures Parse(FilledBuffer(bytes), parseMethod) == Success(Request("/", None, GET))
  {
    DecodedLength(bytes);
    PaddingIsHarmless(bytes, parseMethod);
    RootLineParses(parseMethod);
  }

  /** The status line of a 200 followed by the page, as `send` writes it. */
  lemma OkWritten(page: string, code: StatusText, reason: StatusText)
    requires code(Ok) == "200" && reason(Ok) == "OK"
    ensures Send(New(Ok, Some(page)), code, reason) == "HTTP/1.1 200 OK\r\n\r\n" + page
  {
  }

  /** A read that parses is answered by `handle_request` alone, and the handler is left as it was. */
  lemma WebsiteAnswers(h: WebsiteHandler, fs: FileSystem, bytes: seq<byte>, writeOk: bool, request: Request,
                       parseMethod: MethodParser, code: StatusText, reason: StatusText)
    requires Parse(FilledBuffer(bytes), parseMethod) == Success(request)
    ensures var (x, after) := Connection(AsHandler(fs), h, Received(bytes, writeOk), parseMethod, code, reason);
            && after == h
            && x.Answered? && x.dispatch == RequestHandled(request)
            && x.response == HandleRequest(h, fs, request)
            && x.output == Send(HandleRequest(h, fs, request), code, reason)
  {
  }

  /**
   * End to end: a client sending `GET / HTTP/1.1` and an empty line, with
   * index.html holding `page`, receives exactly the status line of a 200,
   * the empty line and that page.
   */
  lemma RootRequestEndToEnd(h: WebsiteHandler, fs: FileSystem, bytes: seq<byte>, writeOk: bool, page: string,
                    parseMethod: MethodParser, code: StatusText, reason: StatusText)
    requires Decode(bytes) == Some("GET / HTTP/1.1\r\n\r\n")
    requires parseMethod("GET") == Some(GET)
    requires fs(h.publicPath + "/index.html") == Some(page)
    requires code(Ok) == "200" && reason(Ok) == "OK"
    ensures var (x, after) := Connection(AsHandler(fs), h, Received(bytes, writeOk), parseMethod, code, reason);
            && after == h
            && x.Answered? && x.dispatch == RequestHandled(Request("/", None, GET))
            && x.output == "HTTP/1.1 200 OK\r\n\r\n" + page
  {
    var request := Request("/", None, GET);
    RootRequestParses(bytes, parseMethod);
    WebsiteAnswers(h, fs, bytes, writeOk, request, parseMethod, code, reason);
    RootServesIndex(h, fs, request);
    OkWritten(page, code, reason);
  }
}
