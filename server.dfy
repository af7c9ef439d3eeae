/**
 * The `Handler` trait and the connection loop of `Server::run`
 * (src/server.rs).  The loop runs forever over accepted connections; here
 * it runs over a finite sequence of connection events, each standing for
 * what the network did in one iteration (the accept failed, the read
 * failed, or one read delivered some bytes and the response write did or
 * did not succeed).  Binding the listener and all logging are left out.
 */
module Server {
  import opened Wrappers
  import opened Utf8
  import opened HttpTypes
  import opened HttpRequest
  import opened HttpResponse

  /**
   * The `Handler` trait as a pair of functions over the handler's own
   * state `S`: each call may change that state, as `&mut self` allows.
   */
  datatype Handler<!S> = Handler(
    handleRequest: (S, Request) -> (S, Response),
    handleBadRequest: (S, ParseError) -> (S, Response))

  /** The trait's default `handle_bad_request`: 400 with no body, whatever the error. */
  function DefaultHandleBadRequest<S>(state: S, e: ParseError): (r: (S, Response))
    ensures r.0 == state
    ensures r.1.statusCode == BadRequest && r.1.body == None
  {
    (state, New(BadRequest, None))
  }

  /** The size of the per-connection read buffer. */
  const BufferSize: nat := 1024

  /**
   * The buffer after one read into `[0; 1024]`: the bytes read at the
   * front, the zeros it was created with behind them.  A read fills at most
   * the whole buffer.
   */
  function FilledBuffer(received: seq<byte>): (buf: seq<byte>)
    ensures |buf| == BufferSize
    ensures forall i :: 0 <= i < BufferSize ==> buf[i] == if i < |received| then received[i] else 0
  {
    var n := if |received| < BufferSize then |received| else BufferSize;
    received[..n] + Zeros(BufferSize - n)
  }

  /** `stream.read(&mut buffer)`: the delivered bytes overwrite the front of the buffer. */
  method ReadInto(buffer: array<byte>, received: seq<byte>) returns (n: nat)
    modifies buffer
    ensures n == if |received| < buffer.Length then |received| else buffer.Length
    ensures buffer[..n] == received[..n]
    ensures buffer[n..] == old(buffer[n..])
  {
    n := if |received| < buffer.Length then |received| else buffer.Length;
    for i := 0 to n
      invariant buffer[..i] == received[..i]
      invariant buffer[i..] == old(buffer[i..])
    {
      buffer[i] := received[i];
    }
  }

  /** `let mut buffer = [0; 1024]` followed by one read into it. */
  method ReadRequest(received: seq<byte>) returns (buffer: array<byte>)
    ensures fresh(buffer) && buffer[..] == FilledBuffer(received)
  {
    buffer := new byte[BufferSize](_ => 0);
    var n := ReadInto(buffer, received);
    assert buffer[..] == buffer[..n] + buffer[n..];
    assert received[..n] + Zeros(BufferSize - n) == FilledBuffer(received);
  }

  /** Which of the two handler operations answered a connection, and with what argument. */
  datatype Dispatch = RequestHandled(request: Request) | BadRequestHandled(error: ParseError)

  /** What one iteration of the loop does, as an event the network supplies. */
  datatype Event =
    | AcceptFailed
    | ReadFailed
    | Received(bytes: seq<byte>, writeOk: bool)

  /**
   * What one iteration leaves behind: nothing for a failed accept or read;
   * otherwise the handler call made, the response it returned, the text
   * `send` wrote for it and whether that write succeeded.
   */
  datatype Exchange =
    | NotAccepted
    | NotRead
    | Answered(dispatch: Dispatch, response: Response, output: string, delivered: bool)

  /**
   * The `match Request::try_from(&buffer[..])`: exactly one of the two
   * handler operations is called, `handle_request` when parsing succeeds
   * and `handle_bad_request` when it fails, and its answer is kept as is.
   */
  function Respond<S>(h: Handler<S>, state: S, buffer: seq<byte>, parseMethod: MethodParser)
    : (r: (S, Dispatch, Response))
    ensures Parse(buffer, parseMethod).Success? <==> r.1.RequestHandled?
    ensures r.1.RequestHandled? ==>
              Parse(buffer, parseMethod) == Success(r.1.request) &&
              (r.0, r.2) == h.handleRequest(state, r.1.request)
    ensures r.1.BadRequestHandled? ==>
              Parse(buffer, parseMethod) == Failure(r.1.error) &&
              (r.0, r.2) == h.handleBadRequest(state, r.1.error)
  {
    match Parse(buffer, parseMethod)
    case Success(request) =>
      var (s, response) := h.handleRequest(state, request);
      (s, RequestHandled(request), response)
    case Failure(e) =>
      var (s, response) := h.handleBadRequest(state, e);
      (s, BadRequestHandled(e), response)
  }

  /** One iteration of the loop body. */
  function Connection<S>(h: Handler<S>, state: S, ev: Event, parseMethod: MethodParser,
                         code: StatusText, reason: StatusText): (r: (Exchange, S))
    ensures ev.AcceptFailed? <==> r.0.NotAccepted?
    ensures ev.ReadFailed? <==> r.0.NotRead?
    ensures !ev.Received? ==> r.1 == state
    ensures ev.Received? ==>
              && r.0.Answered?
              && (r.1, r.0.dispatch, r.0.response) == Respond(h, state, FilledBuffer(ev.bytes), parseMethod)
              && r.0.output == Send(r.0.response, code, reason)
              && r.0.delivered == ev.writeOk
  {
    match ev
    case AcceptFailed => (NotAccepted, state)
    case ReadFailed => (NotRead, state)
    case Received(bytes, writeOk) =>
      var (s, dispatch, response) := Respond(h, state, FilledBuffer(bytes), parseMethod);
      (Answered(dispatch, response, Send(response, code, reason), writeOk), s)
  }

  /** The loop over a finite run of events: one exchange per event, the handler state threaded through. */
  function Serve<S>(h: Handler<S>, state: S, events: seq<Event>, parseMethod: MethodParser,
                    code: StatusText, reason: StatusText): (r: (seq<Exchange>, S))
    ensures |r.0| == |events|
    decreases |events|
  {
    if events == [] then ([], state)
    else
      var (log, s) := Serve(h, state, events[..|events| - 1], parseMethod, code, reason);
      var (x, s') := Connection(h, s, events[|events| - 1], parseMethod, code, reason);
      (log + [x], s')
  }

  /**
   * The body of the loop in `Server::run`: read into a fresh zeroed buffer,
   * parse the whole buffer, call one handler operation, write the response.
   */
  method ServeConnection<S>(h: Handler<S>, state: S, ev: Event, parseMethod: MethodParser,
                            code: StatusText, reason: StatusText) returns (x: Exchange, state': S)
    ensures (x, state') == Connection(h, state, ev, parseMethod, code, reason)
  {
    match ev
    case AcceptFailed =>
      x, state' := NotAccepted, state;
    case ReadFailed =>
      x, state' := NotRead, state;
    case Received(bytes, writeOk) =>
      var buffer := ReadRequest(bytes);
      var parsed := TryFrom(buffer[..], parseMethod);
      var dispatch, response;
      match parsed {
        case Success(request) =>
          dispatch := RequestHandled(request);
          var (s, answer) := h.handleRequest(state, request);
          state', response := s, answer;
        case Failure(e) =>
          dispatch := BadRequestHandled(e);
          var (s, answer) := h.handleBadRequest(state, e);
          state', response := s, answer;
      }
      x := Answered(dispatch, response, Send(response, code, reason), writeOk);
  }

  /** `Server::run`, over the given events: no event ends the loop. */
  method Run<S>(h: Handler<S>, state0: S, events: seq<Event>, parseMethod: MethodParser,
                code: StatusText, reason: StatusText) returns (log: seq<Exchange>, state: S)
    ensures (log, state) == Serve(h, state0, events, parseMethod, code, reason)
  {
    log, state := [], state0;
    for i := 0 to |events|
      invariant (log, state) == Serve(h, state0, events[..i], parseMethod, code, reason)
    {
      assert events[..i + 1][..i] == events[..i];
      var x;
      x, state := ServeConnection(h, state, events[i], parseMethod, code, reason);
      log := log + [x];
    }
    assert events[..|events|] == events;
  }

  /** The exchanges of a prefix of the events are the prefix of the exchanges. */
  lemma {:induction false} ServePrefix<S>(h: Handler<S>, state: S, events: seq<Event>, k: nat,
                                          parseMethod: MethodParser, code: StatusText, reason: StatusText)
    requires k <= |events|
    ensures Serve(h, state, events, parseMethod, code, reason).0[..k] ==
            Serve(h, state, events[..k], parseMethod, code, reason).0
    decreases |events|
  {
    if k < |events| {
      var init := events[..|events| - 1];
      ServePrefix(h, state, init, k, parseMethod, code, reason);
      assert init[..k] == events[..k];
    } else {
      assert events[..k] == events;
    }
  }

  /**
   * No failure ends the loop: event `i` is handled by the same loop body,
   * from the handler state that the events before it left behind.
   */
  lemma ServeAt<S>(h: Handler<S>, state: S, events: seq<Event>, i: nat,
                   parseMethod: MethodParser, code: StatusText, reason: StatusText)
    requires i < |events|
    ensures var before := Serve(h, state, events[..i], parseMethod, code, reason).1;
            var (x, after) := Connection(h, before, events[i], parseMethod, code, reason);
            && Serve(h, state, events, parseMethod, code, reason).0[i] == x
            && Serve(h, state, events[..i + 1], parseMethod, code, reason).1 == after
  {
    ServePrefix(h, state, events, i + 1, parseMethod, code, reason);
    assert events[..i + 1][..i] == events[..i];
    assert events[..i + 1][i] == events[i];
  }

  /**
   * Each event gives at most one response: a response exactly for a
   * successful read, none for a failed accept or read, and a failed accept
   * or read leaves the handler state as it was.
   */
  lemma ServeAnswersReadsOnly<S>(h: Handler<S>, state: S, events: seq<Event>, i: nat,
                                 parseMethod: MethodParser, code: StatusText, reason: StatusText)
    requires i < |events|
    ensures Serve(h, state, events, parseMethod, code, reason).0[i].Answered? <==> events[i].Received?
    ensures !events[i].Received? ==>
              Serve(h, state, events[..i + 1], parseMethod, code, reason).1 ==
              Serve(h, state, events[..i], parseMethod, code, reason).1
  {
    ServeAt(h, state, events, i, parseMethod, code, reason);
  }

  /**
   * A request line that fits in the buffer parses the same with or without
   * the zero padding behind it: NUL is not a delimiter, and zero bytes
   * neither repair nor break the UTF-8 before them.
   */
  lemma PaddingIsHarmless(received: seq<byte>, parseMethod: MethodParser)
    requires |received| <= BufferSize
    ensures Parse(FilledBuffer(received), parseMethod) == Parse(received, parseMethod)
  {
    var pad := BufferSize - |received|;
    assert FilledBuffer(received) == received + Zeros(pad);
    if Decode(received).None? {
      ValidBeforeZeros(received, pad);
    } else {
      var text := Decode(received).value;
      DecodeZeros(received, pad);
      if DelimiterCount(text) >= 3 {
        DecodeZeros([], pad);
        assert [] + Zeros(pad) == Zeros(pad);
        TrailingBytesIgnored(received, Zeros(pad), parseMethod);
      } else {
        DelimiterCountAppend(text, Nuls(pad));
        NoDelimiterCount(Nuls(pad));
        MissingWordIffFewDelimiters(received, parseMethod);
        MissingWordIffFewDelimiters(received + Zeros(pad), parseMethod);
      }
    }
  }
}
