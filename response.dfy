/**
 * `Response` (src/http/response.rs): a status and an optional body, written
 * to the connection as a status line, an empty line and the body, with no
 * headers.  `send` is modelled by the text it writes; the `Write` sink and
 * its I/O error are outside the model.
 */
module HttpResponse {
  import opened Wrappers
  import opened HttpTypes

  datatype Response = Response(statusCode: StatusCode, body: Option<string>)

  /** `Response::new`: stores both parts as given; every combination is accepted. */
  function New(statusCode: StatusCode, body: Option<string>): (r: Response)
    ensures r.statusCode == statusCode && r.body == body
  {
    Response(statusCode, body)
  }

  /** The part of the output that depends only on the status. */
  function StatusPart(s: StatusCode, code: StatusText, reason: StatusText): (p: string) {
    "HTTP/1.1 " + code(s) + " " + reason(s) + "\r\n\r\n"
  }

  /** `send`: the text `HTTP/1.1 {code} {reason}\r\n\r\n{body}` written to the stream. */
  function Send(r: Response, code: StatusText, reason: StatusText): (out: string) {
    var body := match r.body
      case Some(b) => b
      case None => "";
    StatusPart(r.statusCode, code, reason) + body
  }

  /** The inverse of `Send` for a known status: strip the status part, keep the body text. */
  function ReadBody(out: string, s: StatusCode, code: StatusText, reason: StatusText): (b: Option<string>)
    ensures b.Some? ==> StatusPart(s, code, reason) + b.value == out
  {
    var prefix := StatusPart(s, code, reason);
    if |prefix| <= |out| && out[..|prefix|] == prefix then
      assert out == out[..|prefix|] + out[|prefix|..];
      Some(out[|prefix|..])
    else None
  }

  /** Whatever the status and body, the output starts with the protocol version and a space. */
  lemma SendStartsWithVersion(r: Response, code: StatusText, reason: StatusText)
    ensures |Send(r, code, reason)| >= 9
    ensures Send(r, code, reason)[..9] == "HTTP/1.1 "
  {
    var out := Send(r, code, reason);
    assert out == "HTTP/1.1 " + (code(r.statusCode) + " " + reason(r.statusCode) + "\r\n\r\n" +
                                 (if r.body.Some? then r.body.value else ""));
  }

  /** With no body the output is the status part alone: it ends right after the empty line. */
  lemma SendWithoutBody(s: StatusCode, code: StatusText, reason: StatusText)
    ensures Send(New(s, None), code, reason) == StatusPart(s, code, reason)
    ensures Send(New(s, None), code, reason) == Send(New(s, Some("")), code, reason)
  {
    assert StatusPart(s, code, reason) + "" == StatusPart(s, code, reason);
  }

  /** With a body, the output ends with that body verbatim and is exactly that much longer. */
  lemma SendWithBody(s: StatusCode, b: string, code: StatusText, reason: StatusText)
    ensures |Send(New(s, Some(b)), code, reason)| == |StatusPart(s, code, reason)| + |b|
    ensures Send(New(s, Some(b)), code, reason)[|StatusPart(s, code, reason)|..] == b
  {
    assert Send(New(s, Some(b)), code, reason) == StatusPart(s, code, reason) + b;
  }

  /**
   * Round trip: removing the status part from the output recovers the body,
   * or the empty string when there was none.
   */
  lemma SendRoundTrip(r: Response, code: StatusText, reason: StatusText)
    ensures ReadBody(Send(r, code, reason), r.statusCode, code, reason) ==
            Some(if r.body.Some? then r.body.value else "")
  {
    var prefix := StatusPart(r.statusCode, code, reason);
    var body := if r.body.Some? then r.body.value else "";
    var out := Send(r, code, reason);
    assert out == prefix + body;
    assert out[..|prefix|] == prefix;
    assert out[|prefix|..] == body;
  }

  /** Two responses with the same status are written the same only if their body texts agree. */
  lemma SendDeterminesBody(s: StatusCode, b: Option<string>, b': Option<string>, code: StatusText, reason: StatusText)
    requires Send(New(s, b), code, reason) == Send(New(s, b'), code, reason)
    ensures (if b.Some? then b.value else "") == (if b'.Some? then b'.value else "")
  {
    SendRoundTrip(New(s, b), code, reason);
    SendRoundTrip(New(s, b'), code, reason);
  }
}
