/**
 * `Request::try_from` and `get_next_word` (src/http/request.rs): a request
 * line `<method> <target> HTTP/1.1` is cut out of a raw byte buffer.  The
 * Rust request borrows its path and query string from the buffer; here the
 * same slices are values of type `string`.
 */
module HttpRequest {
  import opened Wrappers
  import opened Utf8
  import opened HttpTypes

  datatype ParseError = InvalidRequest | InvalidEncoding | InvalidProtocol | InvalidMethod

  /** The text each error is displayed with. */
  function Message(e: ParseError): (m: string) {
    match e
    case InvalidRequest => "Invalid Request"
    case InvalidEncoding => "Invalid Encoding"
    case InvalidProtocol => "Invalid Protocol"
    case InvalidMethod => "Invalid Method"
  }

  /** Reads a message back as the error it names. */
  function ErrorNamed(m: string): (r: Option<ParseError>)
    ensures r.Some? ==> Message(r.value) == m
  {
    if m == "Invalid Request" then Some(InvalidRequest)
    else if m == "Invalid Encoding" then Some(InvalidEncoding)
    else if m == "Invalid Protocol" then Some(InvalidProtocol)
    else if m == "Invalid Method" then Some(InvalidMethod)
    else None
  }

  /** Every error has its own message: the message names the error uniquely. */
  lemma MessagesDistinct(e: ParseError, e': ParseError)
    ensures ErrorNamed(Message(e)) == Some(e)
    ensures Message(e) == Message(e') <==> e == e'
  {
  }

  /**
   * A parsed request.  `path` never holds the `?` separator; `queryString`
   * is the raw text after the first `?` of the target, if there was one.
   * The accessors `path()`, `method()` and `query_string()` are the fields
   * `path`, `httpMethod` and `queryString`.
   */
  datatype Request = Request(path: string, queryString: Option<string>, httpMethod: Method)

  /** The one protocol version the parser accepts. */
  const Protocol: string := "HTTP/1.1"

  predicate IsDelimiter(c: char) {
    c == ' ' || c == '\r'
  }

  predicate NoDelimiter(s: string) {
    forall k :: 0 <= k < |s| ==> !IsDelimiter(s[k])
  }

  /** `s` is `w`, one delimiter, then `rest`, and `w` holds no delimiter. */
  predicate SplitsAtFirstDelimiter(s: string, w: string, rest: string) {
    && |w| < |s|
    && IsDelimiter(s[|w|])
    && NoDelimiter(w)
    && s == w + [s[|w|]] + rest
  }

  /**
   * `get_next_word`: the text before the first space or carriage return and
   * the text after it, the delimiter itself dropped; None when there is none.
   */
  function NextWord(s: string): (r: Option<(string, string)>)
    ensures r.None? <==> NoDelimiter(s)
    ensures r.Some? ==> SplitsAtFirstDelimiter(s, r.value.0, r.value.1)
  {
    if s == [] then None
    else if IsDelimiter(s[0]) then Some(([], s[1..]))
    else
      match NextWord(s[1..])
      case None => None
      case Some((w, rest)) =>
        assert s == [s[0]] + s[1..];
        Some(([s[0]] + w, rest))
  }

  /** Whatever follows the first delimiter, the word before it is found. */
  lemma NextWordOf(w: string, d: char, rest: string)
    requires NoDelimiter(w) && IsDelimiter(d)
    ensures NextWord(w + [d] + rest) == Some((w, rest))
  {
    var s := w + [d] + rest;
    assert s[|w|] == d;
    var (w', rest') := NextWord(s).value;
    assert forall k :: 0 <= k < |w| ==> s[k] == w[k];
    assert forall k :: 0 <= k < |w'| ==> s[k] == w'[k];
    assert |w'| == |w|;
    assert w' == s[..|w|] == w;
    assert rest' == s[|w| + 1..] == rest;
  }

  /** The loop of `get_next_word` over the characters of `request`. */
  method GetNextWord(request: string) returns (r: Option<(string, string)>)
    ensures r == NextWord(request)
  {
    for i := 0 to |request|
      invariant NoDelimiter(request[..i])
    {
      if IsDelimiter(request[i]) {
        NextWordOf(request[..i], request[i], request[i + 1..]);
        assert request == request[..i] + [request[i]] + request[i + 1..];
        return Some((request[..i], request[i + 1..]));
      }
    }
    assert request[..|request|] == request;
    return None;
  }

  /** How many delimiters a text holds. */
  function DelimiterCount(s: string): (n: nat) {
    if s == [] then 0
    else (if IsDelimiter(s[0]) then 1 else 0) + DelimiterCount(s[1..])
  }

  lemma {:induction false} DelimiterCountAppend(a: string, b: string)
    ensures DelimiterCount(a + b) == DelimiterCount(a) + DelimiterCount(b)
  {
    if a == [] {
      assert a + b == b;
    } else {
      assert (a + b)[0] == a[0] && (a + b)[1..] == a[1..] + b;
      DelimiterCountAppend(a[1..], b);
    }
  }

  lemma {:induction false} NoDelimiterCount(s: string)
    requires NoDelimiter(s)
    ensures DelimiterCount(s) == 0
  {
    if s != [] {
      NoDelimiterCount(s[1..]);
    }
  }

  /** Taking a word consumes exactly one delimiter. */
  lemma NextWordCount(s: string)
    ensures NextWord(s).None? ==> DelimiterCount(s) == 0
    ensures NextWord(s).Some? ==> DelimiterCount(s) == DelimiterCount(NextWord(s).value.1) + 1
  {
    match NextWord(s)
    case None =>
      NoDelimiterCount(s);
    case Some((w, rest)) =>
      NoDelimiterCount(w);
      DelimiterCountAppend(w, [s[|w|]]);
      DelimiterCountAppend(w + [s[|w|]], rest);
  }

  /** `str::find`: the index of the first occurrence of `c`. */
  function IndexOf(s: string, c: char): (r: Option<nat>)
    ensures r.None? <==> c !in s
    ensures r.Some? ==> r.value < |s| && s[r.value] == c && c !in s[..r.value]
  {
    if s == [] then None
    else if s[0] == c then Some(0)
    else
      match IndexOf(s[1..], c)
      case None =>
        assert s == [s[0]] + s[1..];
        None
      case Some(i) =>
        assert s[..i + 1] == [s[0]] + s[1..][..i];
        Some(i + 1)
  }

  /**
   * The target split at its first `?`: the path before it and the query
   * source after it, or the whole target and no query.
   */
  function SplitTarget(target: string): (r: (string, Option<string>))
    ensures '?' !in r.0
    ensures r.1.None? <==> '?' !in target
    ensures r.1.None? ==> r.0 == target
    ensures r.1.Some? ==> target == r.0 + "?" + r.1.value
  {
    match IndexOf(target, '?')
    case None => (target, None)
    case Some(i) =>
      assert target == target[..i] + "?" + target[i + 1..];
      (target[..i], Some(target[i + 1..]))
  }

  /** The steps of `try_from` after decoding, on the decoded text. */
  function ParseRequestLine(text: string, parseMethod: MethodParser): (r: Result<Request, ParseError>)
    ensures r != Failure(InvalidEncoding)
    ensures r.Success? ==> '?' !in r.value.path
  {
    match NextWord(text)
    case None => Failure(InvalidRequest)
    case Some((verb, afterVerb)) =>
      match NextWord(afterVerb)
      case None => Failure(InvalidRequest)
      case Some((target, afterTarget)) =>
        match NextWord(afterTarget)
        case None => Failure(InvalidRequest)
        case Some((protocol, _)) =>
          if protocol != Protocol then Failure(InvalidProtocol)
          else
            match parseMethod(verb)
            case None => Failure(InvalidMethod)
            case Some(m) =>
              var (path, query) := SplitTarget(target);
              Success(Request(path, query, m))
  }

  /** `Request::try_from`: decoding failure becomes `InvalidEncoding`. */
  function Parse(buf: seq<byte>, parseMethod: MethodParser): (r: Result<Request, ParseError>)
    ensures r == Failure(InvalidEncoding) <==> Decode(buf).None?
  {
    match Decode(buf)
    case None => Failure(InvalidEncoding)
    case Some(text) => ParseRequestLine(text, parseMethod)
  }

  /**
   * `Request::try_from` step by step, with its reassigned locals: each word
   * is taken with `GetNextWord` from what the previous one left.
   */
  method TryFrom(buf: seq<byte>, parseMethod: MethodParser) returns (r: Result<Request, ParseError>)
    ensures r == Parse(buf, parseMethod)
  {
    var decoded := Decode(buf);
    if decoded.None? {
      return Failure(InvalidEncoding);
    }
    var request := decoded.value;
    var word := GetNextWord(request);
    if word.None? {
      return Failure(InvalidRequest);
    }
    var verb := word.value.0;
    request := word.value.1;
    word := GetNextWord(request);
    if word.None? {
      return Failure(InvalidRequest);
    }
    var path := word.value.0;
    request := word.value.1;
    word := GetNextWord(request);
    if word.None? {
      return Failure(InvalidRequest);
    }
    var protocol := word.value.0;
    if protocol != Protocol {
      return Failure(InvalidProtocol);
    }
    var m := parseMethod(verb);
    if m.None? {
      return Failure(InvalidMethod);
    }
    var queryString: Option<string> := None;
    var q := IndexOf(path, '?');
    if q.Some? {
      queryString := Some(path[q.value + 1..]);
      path := path[..q.value];
    }
    return Success(Request(path, queryString, m.value));
  }

  /** A buffer that is not valid UTF-8 fails with `InvalidEncoding` whatever it holds. */
  lemma EncodingCheckedFirst(buf: seq<byte>, parseMethod: MethodParser)
    requires Decode(buf).None?
    ensures Parse(buf, parseMethod) == Failure(InvalidEncoding)
  {
  }

  /**
   * `InvalidRequest` is reported exactly when the decoded text has fewer
   * than three delimiters, that is fewer than three words.
   */
  lemma MissingWordIffFewDelimiters(buf: seq<byte>, parseMethod: MethodParser)
    ensures Parse(buf, parseMethod) == Failure(InvalidRequest) <==>
            Decode(buf).Some? && DelimiterCount(Decode(buf).value) < 3
  {
    if Decode(buf).Some? {
      var text := Decode(buf).value;
      NextWordCount(text);
      if NextWord(text).Some? {
        var afterVerb := NextWord(text).value.1;
        NextWordCount(afterVerb);
        if NextWord(afterVerb).Some? {
          NextWordCount(NextWord(afterVerb).value.1);
        }
      }
    }
  }

  /**
   * Any text made of three delimiter-terminated words and a remainder: the
   * protocol is checked first, then the method, and the remainder plays no
   * part in the result.
   */
  lemma ParseRequestLineShape(verb: string, d1: char, target: string, d2: char,
                              protocol: string, d3: char, rest: string, parseMethod: MethodParser)
    requires NoDelimiter(verb) && NoDelimiter(target) && NoDelimiter(protocol)
    requires IsDelimiter(d1) && IsDelimiter(d2) && IsDelimiter(d3)
    ensures ParseRequestLine(verb + [d1] + (target + [d2] + (protocol + [d3] + rest)), parseMethod) ==
            if protocol != Protocol then Failure(InvalidProtocol)
            else if parseMethod(verb).None? then Failure(InvalidMethod)
            else Success(Request(SplitTarget(target).0, SplitTarget(target).1, parseMethod(verb).value))
  {
    var afterTarget := protocol + [d3] + rest;
    var afterVerb := target + [d2] + afterTarget;
    NextWordOf(verb, d1, afterVerb);
    NextWordOf(target, d2, afterTarget);
    NextWordOf(protocol, d3, rest);
  }

  /** A text with three delimiters falls into three words and a remainder. */
  lemma RequestLineParts(text: string)
    returns (verb: string, d1: char, target: string, d2: char, protocol: string, d3: char, rest: string)
    requires DelimiterCount(text) >= 3
    ensures NoDelimiter(verb) && NoDelimiter(target) && NoDelimiter(protocol)
    ensures IsDelimiter(d1) && IsDelimiter(d2) && IsDelimiter(d3)
    ensures text == verb + [d1] + (target + [d2] + (protocol + [d3] + rest))
  {
    NextWordCount(text);
    var afterVerb, afterTarget;
    verb, afterVerb := NextWord(text).value.0, NextWord(text).value.1;
    NextWordCount(afterVerb);
    target, afterTarget := NextWord(afterVerb).value.0, NextWord(afterVerb).value.1;
    NextWordCount(afterTarget);
    protocol, rest := NextWord(afterTarget).value.0, NextWord(afterTarget).value.1;
    d1, d2, d3 := text[|verb|], afterVerb[|target|], afterTarget[|protocol|];
  }

  /**
   * Once three words have been read, whatever text follows (headers, body,
   * the buffer's zero padding) does not change the result.
   */
  lemma RemainderIgnored(text: string, more: string, parseMethod: MethodParser)
    requires DelimiterCount(text) >= 3
    ensures ParseRequestLine(text + more, parseMethod) == ParseRequestLine(text, parseMethod)
  {
    var verb, d1, target, d2, protocol, d3, rest := RequestLineParts(text);
    var longer := verb + [d1] + (target + [d2] + (protocol + [d3] + (rest + more)));
    assert text + more == longer by {
      Regroup(protocol, d3, rest, more);
      Regroup(target, d2, protocol + [d3] + rest, more);
      Regroup(verb, d1, target + [d2] + (protocol + [d3] + rest), more);
    }
    ParseRequestLineShape(verb, d1, target, d2, protocol, d3, rest, parseMethod);
    ParseRequestLineShape(verb, d1, target, d2, protocol, d3, rest + more, parseMethod);
  }

  /**
   * Appending after a word, its delimiter and a rest appends to the rest.
   * Proved in a context of its own, where the sequence axioms are cheap.
   */
  lemma Regroup(w: string, d: char, rest: string, more: string)
    ensures w + [d] + rest + more == w + [d] + (rest + more)
  {
  }

  /**
   * The same on bytes: valid UTF-8 appended after a buffer that already
   * holds three words is read and discarded.
   */
  lemma TrailingBytesIgnored(line: seq<byte>, tail: seq<byte>, parseMethod: MethodParser)
    requires Decode(line).Some? && DelimiterCount(Decode(line).value) >= 3
    requires Decode(tail).Some?
    ensures Parse(line + tail, parseMethod) == Parse(line, parseMethod)
  {
    DecodeAppend(line, tail);
    RemainderIgnored(Decode(line).value, Decode(tail).value, parseMethod);
  }

  /** On success the path is free of `?`, and it and the query come from one target word. */
  lemma ParsedPathHasNoQuery(buf: seq<byte>, parseMethod: MethodParser)
    requires Parse(buf, parseMethod).Success?
    ensures '?' !in Parse(buf, parseMethod).value.path
  {
  }

  predicate IsDelimiterByte(b: byte) {
    b == 0x20 || b == 0x0D
  }

  /** The same first-delimiter split, done on raw bytes. */
  function ByteNextWord(b: seq<byte>): (r: Option<(seq<byte>, seq<byte>)>) {
    if b == [] then None
    else if IsDelimiterByte(b[0]) then Some(([], b[1..]))
    else
      match ByteNextWord(b[1..])
      case None => None
      case Some((w, rest)) => Some(([b[0]] + w, rest))
  }

  lemma {:induction false} ByteNextWordSkip(b: seq<byte>, n: nat)
    requires n <= |b|
    requires forall k :: 0 <= k < n ==> !IsDelimiterByte(b[k])
    ensures ByteNextWord(b) ==
            match ByteNextWord(b[n..])
            case None => None
            case Some((w, rest)) => Some((b[..n] + w, rest))
  {
    if n > 0 {
      ByteNextWordSkip(b[1..], n - 1);
      assert b[1..][n - 1..] == b[n..];
      match ByteNextWord(b[n..])
      case None =>
      case Some((w, rest)) =>
        assert [b[0]] + (b[1..][..n - 1] + w) == b[..n] + w;
    } else {
      assert b[n..] == b;
      match ByteNextWord(b)
      case None =>
      case Some((w, rest)) =>
        assert b[..n] + w == w;
    }
  }

  /**
   * Space and carriage return are single bytes that never occur inside a
   * multi-byte UTF-8 sequence, so splitting the bytes at the first 0x20 or
   * 0x0D gives the encodings of the word and the rest that the character
   * scan finds: the `i + 1` byte offset skips exactly the delimiter.
   */
  lemma {:induction false} ByteScanMatchesCharScan(b: seq<byte>)
    requires Decode(b).Some?
    ensures ByteNextWord(b).None? <==> NextWord(Decode(b).value).None?
    ensures ByteNextWord(b).Some? ==>
              Decode(ByteNextWord(b).value.0) == Some(NextWord(Decode(b).value).value.0) &&
              Decode(ByteNextWord(b).value.1) == Some(NextWord(Decode(b).value).value.1)
    decreases |b|
  {
    if b != [] {
      var s := Decode(b).value;
      var (c, n) := DecodeChar(b).value;
      var tail := b[n..];
      assert s == [c] + Decode(tail).value;
      if n == 1 && IsDelimiterByte(b[0]) {
        assert IsDelimiter(c);
        assert tail == b[1..];
        assert s[1..] == Decode(tail).value;
      } else {
        assert !IsDelimiter(c);
        assert s[0] == c && s[1..] == Decode(tail).value;
        ByteNextWordSkip(b, n);
        ByteScanMatchesCharScan(tail);
        match ByteNextWord(tail)
        case None =>
        case Some((w, rest)) =>
          DecodeCharPrefix(b, w);
          assert (b[..n] + w)[n..] == w;
      }
    }
  }
}
