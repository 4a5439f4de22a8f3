/** HTTP responses, 6/response.cc, as the proxy's cache prints and rehydrates them. */
module HttpResponses {
  import opened Text
  import opened Streams
  import opened Numbers
  import opened HttpHeaders
  import opened HttpPayloads

  // ----- the status line

  /** How many characters there are before the first space. */
  function WordLength(s: string): (n: nat)
    ensures n <= |s| && (forall i :: 0 <= i < n ==> !IsSpace(s[i])) && (n < |s| ==> IsSpace(s[n]))
  {
    if s != "" && !IsSpace(s[0]) then WordLength(s[1..]) + 1 else 0
  }

  /** operator>> for string. */
  function ProtocolOf(line: string): (w: string)
    ensures forall i :: 0 <= i < |w| ==> !IsSpace(w[i])
  {
    var t := LTrim(line);
    t[..WordLength(t)]
  }

  function CodeOf(line: string): IntResult
  {
    var t := LTrim(line);
    ReadInt(t[WordLength(t)..])
  }

  const UNKNOWN_CODE := "Unknown Code"

  function Informational(code: int): (m: string)
    ensures '\n' !in m
  {
    match code
    case 100 => "Continue"
    case 101 => "Switching Protocols"
    case _ => UNKNOWN_CODE
  }

  function Success(code: int): (m: string)
    ensures '\n' !in m
  {
    match code
    case 200 => "OK"
    case 201 => "Created"
    case 202 => "Accepted"
    case 203 => "Non-Authoritative Information"
    case 204 => "No Content"
    case 205 => "Reset Content"
    case 206 => "Partial Content"
    case _ => UNKNOWN_CODE
  }

  function Redirection(code: int): (m: string)
    ensures '\n' !in m
  {
    match code
    case 300 => "Multiple Choices"
    case 301 => "Permanently Moved"
    case 302 => "Found"
    case 303 => "See Other"
    case 304 => "Not Modified"
    case 305 => "Use Proxy"
    case 307 => "Temporary Redirect"
    case _ => UNKNOWN_CODE
  }

  function ClientError(code: int): (m: string)
    ensures '\n' !in m
  {
    match code
    case 400 => "Bad Request"
    case 401 => "Unauthorized"
    case 402 => "Payment Required"
    case 403 => "Forbidden"
    case 404 => "Not Found"
    case 405 => "Method Not Allowed"
    case 406 => "Not Acceptable"
    case 407 => "Proxy Authentication Required"
    case 408 => "Request Timeout"
    case 409 => "Conflict"
    case 410 => "Gone"
    case _ => UNKNOWN_CODE
  }

  function ServerError(code: int): (m: string)
    ensures '\n' !in m
  {
    match code
    case 500 => "Internal Server Error"
    case 505 => "HTTP Version Not Supported"
    case 510 => "General Proxy Failure"
    case _ => UNKNOWN_CODE
  }

  /** getStatusMessage, class by class. */
  function StatusMessage(code: int): (m: string)
    ensures '\n' !in m
  {
    if code < 200 then Informational(code)
    else if code < 300 then Success(code)
    else if code < 400 then Redirection(code)
    else if code < 500 then ClientError(code)
    else ServerError(code)
  }

  /** The reason phrases of section 6.1 of RFC 7231. */
  function ReasonPhrase(code: int): string
  {
    match code
    case 100 => "Continue"
    case 101 => "Switching Protocols"
    case 200 => "OK"
    case 201 => "Created"
    case 202 => "Accepted"
    case 203 => "Non-Authoritative Information"
    case 204 => "No Content"
    case 205 => "Reset Content"
    case 206 => "Partial Content"
    case 300 => "Multiple Choices"
    case 301 => "Moved Permanently"
    case 302 => "Found"
    case 303 => "See Other"
    case 304 => "Not Modified"
    case 305 => "Use Proxy"
    case 307 => "Temporary Redirect"
    case 400 => "Bad Request"
    case 401 => "Unauthorized"
    case 402 => "Payment Required"
    case 403 => "Forbidden"
    case 404 => "Not Found"
    case 405 => "Method Not Allowed"
    case 406 => "Not Acceptable"
    case 407 => "Proxy Authentication Required"
    case 408 => "Request Timeout"
    case 409 => "Conflict"
    case 410 => "Gone"
    case 500 => "Internal Server Error"
    case 505 => "HTTP Version Not Supported"
    case _ => ""
  }

  /** The codes for which the message is that phrase. */
  predicate HasPhrase(code: int)
  {
    100 <= code <= 101 || 200 <= code <= 206 || code == 300 || 302 <= code <= 305 || code == 307 || 400 <= code <= 410
    || code == 500 || code == 505
  }

  /** The messages are the standard's, with another wording for 301 and one of the proxy's own for 510; others are unknown. */
  lemma MessagesAreStandard(code: int)
    ensures HasPhrase(code) ==> StatusMessage(code) == ReasonPhrase(code)
    ensures code == 301 ==> StatusMessage(code) == "Permanently Moved"
    ensures code == 510 ==> StatusMessage(code) == "General Proxy Failure"
    ensures !HasPhrase(code) && code != 301 && code != 510 ==> StatusMessage(code) == "Unknown Code"
  {
  }

  function PrintStatus(protocol: string, code: int): string
  {
    protocol + " " + PrintInt(code) + " " + StatusMessage(code) + "\r"
  }

  /** A protocol that is read back as it was printed. */
  predicate GoodProtocol(p: string)
  {
    p != "" && forall i :: 0 <= i < |p| ==> !IsSpace(p[i])
  }

  lemma WordLengthIs(s: string, n: nat)
    requires n <= |s| && (forall i :: 0 <= i < n ==> !IsSpace(s[i])) && (n < |s| ==> IsSpace(s[n]))
    ensures WordLength(s) == n
  {
  }

  lemma IntIsNoSpace(i: int)
    ensures PrintInt(i) != "" && forall k :: 0 <= k < |PrintInt(i)| ==> !IsSpace(PrintInt(i)[k])
  {
    hide Decimal;
    DecimalDigits(if i < 0 then -i else i);
  }

  lemma StatusHasNoLineFeed(protocol: string, code: int)
    requires '\n' !in protocol
    ensures '\n' !in PrintStatus(protocol, code)
  {
    hide StatusMessage, PrintInt;
    IntIsNoSpace(code);
  }

  lemma StatusRead(protocol: string, code: int)
    requires GoodProtocol(protocol) && -INT_MAX - 1 <= code <= INT_MAX
    ensures ProtocolOf(PrintStatus(protocol, code)) == protocol && CodeOf(PrintStatus(protocol, code)) == IntRead(code)
  {
    hide StatusMessage, PrintInt, ReadInt;
    var more := " " + StatusMessage(code) + "\r";
    var rest := " " + PrintInt(code) + more;
    var line := PrintStatus(protocol, code);
    assert line == protocol + rest;
    assert line[0] == protocol[0] && LTrim(line) == line;
    WordLengthIs(line, |protocol|);
    assert line[..|protocol|] == protocol && line[|protocol|..] == rest;
    ReadPrinted(code, more);
  }

  /** A printed protocol comes back exactly when it is a word. */
  lemma ProtocolRoundTrip(protocol: string, code: int, body: string)
    requires -INT_MAX - 1 <= code <= INT_MAX
    ensures ProtocolOf(Line(Stream(PrintStatus(protocol, code) + "\n" + body, true))) == protocol
            <==> GoodProtocol(protocol)
  {
    hide StatusMessage, PrintInt, ProtocolOf, Line, PrintStatus;
    var st := Stream(PrintStatus(protocol, code) + "\n" + body, true);
    if GoodProtocol(protocol) {
      StatusHasNoLineFeed(protocol, code);
      LineOf(PrintStatus(protocol, code), body);
      StatusRead(protocol, code);
    } else if protocol == "" {
      StatusHasNoLineFeed("", code);
      LineOf(PrintStatus("", code), body);
      NoProtocol(code);
    }
  }

  /** Without a protocol, the code is taken for it. */
  lemma NoProtocol(code: int)
    ensures ProtocolOf(PrintStatus("", code)) != ""
  {
    hide StatusMessage, PrintInt;
    IntIsNoSpace(code);
    var t := PrintInt(code) + " " + StatusMessage(code) + "\r";
    assert PrintStatus("", code) == " " + t;
    LTrimSpaces(" ", t);
    assert t[0] == PrintInt(code)[0] && LTrim(t) == t;
  }

  // ----- whole responses

  function PrintResponse(protocol: string, code: int, fields: seq<Field>, payload: string): string
  {
    PrintStatus(protocol, code) + "\n" + (PrintFields(fields) + "\r\n" + payload)
  }

  /** A response as it is printed. */
  lemma SmallResponse()
    ensures PrintResponse("HTTP/1.1", 200, [("content-length", "2")], "hi")
         == "HTTP/1.1 200 OK\r\ncontent-length: 2\r\n\r\nhi"
  {
    hide PrintStatus, PrintFields;
    SmallStatus();
    SmallHeader();
  }

  lemma SmallStatus()
    ensures PrintStatus("HTTP/1.1", 200) == "HTTP/1.1 200 OK\r"
  {
    hide PrintInt, StatusMessage;
    TwoHundred();
  }

  lemma SmallHeader()
    ensures PrintFields([("content-length", "2")]) == "content-length: 2\r\n"
  {
    hide PrintFields;
    NothingPrinted();
    FieldsAreLines([], ("content-length", "2"), []);
    assert [] + [("content-length", "2")] + [] == [("content-length", "2")];
  }

  lemma TwoHundred()
    ensures PrintInt(200) == "200" && StatusMessage(200) == "OK"
  {
    DecimalIsDecimal(200);
    assert DecimalOf(200) == DecimalOf(20) + ["0123456789"[0]] && DecimalOf(20) == DecimalOf(2) + ["0123456789"[0]];
    assert DecimalOf(2) == ["0123456789"[2]];
  }

  /** Headers that come back from print and read. */
  predicate GoodHeaders(h: Headers)
  {
    forall n :: n in h ==> GoodName(n) && '\n' !in h[n] && Trimmed(h[n])
  }

  /** The payload agrees with Content-Length, or it was read as a chunked body. */
  ghost predicate Consistent(h: Headers, payload: string)
  {
    if IsChunked(h) then exists st: Stream :: Chunked(st) == Payload(payload)
    else ContentLength(h) == |payload|
  }

  /** A payload comes back exactly when it agrees with the headers, however it is framed. */
  lemma PayloadRoundTrip(h: Headers, payload: string)
    ensures ReadPayload(h, Stream(payload, true)) == Payload(payload) <==> Consistent(h, payload)
  {
    hide Chunked, Get, Number;
    if IsChunked(h) {
      if st: Stream :| Chunked(st) == Payload(payload) {
        ChunkedIsStable(st, "");
        assert payload + "" == payload;
      }
    } else if ContentLength(h) == |payload| {
      BlockOf(payload, "");
      assert payload + "" == payload;
    }
  }

  /** What is read of st: the code is apart, since it is left undetermined when it is not there. */
  ghost predicate ReadsBack(st: Stream, protocol: string, h: Headers, payload: string)
  {
    && ProtocolOf(Line(st)) == protocol
    && Ingested(map[], "", AfterLine(st)) == h
    && ReadPayload(h, AfterHeader(AfterLine(st))) == Payload(payload)
  }

  /**
   The rehydration round trip: a printed response reads back as itself exactly when its protocol is a word, its headers are
   as print and read keep them, and its payload agrees with them.
  */
  lemma Rehydration(protocol: string, code: int, h: Headers, fields: seq<Field>, payload: string)
    requires -INT_MAX - 1 <= code <= INT_MAX && Enumerates(fields, h)
    ensures ReadsBack(Stream(PrintResponse(protocol, code, fields, payload), true), protocol, h, payload)
            <==> GoodProtocol(protocol) && GoodHeaders(h) && Consistent(h, payload)
    ensures GoodProtocol(protocol) ==>
              CodeOf(Line(Stream(PrintResponse(protocol, code, fields, payload), true))) == IntRead(code)
  {
    hide PrintStatus, ProtocolOf, CodeOf, Line, AfterLine, PrintFields, Ingested, AfterHeader, Enumerates, Trimmed, GoodName,
         ReadPayload, GoodProtocol, Consistent;
    var rest := PrintFields(fields) + "\r\n" + payload;
    ProtocolRoundTrip(protocol, code, rest);
    if GoodProtocol(protocol) {
      ProtocolHasNoLineFeed(protocol);
      StatusHasNoLineFeed(protocol, code);
      LineOf(PrintStatus(protocol, code), rest);
      StatusRead(protocol, code);
      HeadersRoundTrip(h, fields, payload);
      PayloadRoundTrip(h, payload);
    }
  }

  lemma ProtocolHasNoLineFeed(p: string)
    requires GoodProtocol(p)
    ensures '\n' !in p
  {
  }

  // ----- the code

  class HTTPResponse {
    var code: int
    var protocol: string
    const responseHeader: HTTPHeader
    const payload: HTTPPayload

    constructor ()
      ensures responseHeader.headers == map[] && payload.payload == ""
      ensures fresh(responseHeader) && fresh(payload)
    {
      protocol := "";
      responseHeader := new HTTPHeader();
      payload := new HTTPPayload();
    }

    /** A code that is not read stays what its memory held. */
    method IngestResponseHeader(instream: InStream)
      modifies this, responseHeader, instream
      ensures protocol == ProtocolOf(Line(old(instream.Value())))
      ensures CodeOf(Line(old(instream.Value()))).IntRead? ==> code == CodeOf(Line(old(instream.Value()))).value
      ensures responseHeader.headers == Ingested(old(responseHeader.headers), "", AfterLine(old(instream.Value())))
      ensures instream.Value() == AfterHeader(AfterLine(old(instream.Value())))
    {
      hide *;
      var responseCodeLine := instream.GetLine();
      protocol := ProtocolOf(responseCodeLine);
      code := *;
      var read := CodeOf(responseCodeLine);
      if read.IntRead? {
        code := read.value;
      }
      responseHeader.IngestHeader(instream);
    }

    method IngestPayload(instream: InStream) returns (ok: bool)
      modifies payload, instream
      ensures ok <==> ReadPayload(responseHeader.headers, old(instream.Value())).Payload?
      ensures ok ==> payload.payload == old(payload.payload)
                                        + ReadPayload(responseHeader.headers, old(instream.Value())).bytes
      ensures ok ==> instream.Value() == AfterPayload(responseHeader.headers, old(instream.Value()))
    {
      ok := payload.IngestPayload(responseHeader, instream);
    }

    method SetPayload(data: string)
      modifies payload, responseHeader
      ensures payload.payload == data && responseHeader.headers == WithLength(old(responseHeader.headers), data)
    {
      payload.SetPayload(responseHeader, data);
    }

    /** operator<< */
    method Print() returns (os: string)
      ensures exists fields :: Enumerates(fields, responseHeader.headers)
                && os == PrintResponse(protocol, code, fields, payload.payload)
    {
      hide Enumerates, PrintFields, PrintInt, StatusMessage;
      os := protocol + " " + PrintInt(code) + " " + StatusMessage(code) + "\r\n";
      assert os == PrintStatus(protocol, code) + "\n";
      var header := responseHeader.Print();
      ghost var fields :| Enumerates(fields, responseHeader.headers) && header == PrintFields(fields);
      os := os + header;
      os := os + "\r\n";
      os := os + payload.payload;
      assert os == PrintResponse(protocol, code, fields, payload.payload);
    }

    ghost predicate Rehydratable()
      reads this, responseHeader, payload
    {
      && GoodProtocol(protocol)
      && GoodHeaders(responseHeader.headers) && Consistent(responseHeader.headers, payload.payload)
    }
  }

  /**
   What the proxy's cache does: cacheEntry writes a response to a file, containsCacheEntry reads it from there. The response
   comes back exactly when it can be rehydrated.
  */
  method StoreAndLoad(response: HTTPResponse) returns (loaded: HTTPResponse, ok: bool)
    requires -INT_MAX - 1 <= response.code <= INT_MAX
    ensures ok && loaded.protocol == response.protocol && loaded.responseHeader.headers == response.responseHeader.headers
               && loaded.payload.payload == response.payload.payload
            <==> response.Rehydratable()
    ensures response.Rehydratable() ==> loaded.code == response.code
  {
    hide *;
    var outfile := response.Print();
    ghost var fields :| Enumerates(fields, response.responseHeader.headers)
                     && outfile == PrintResponse(response.protocol, response.code, fields, response.payload.payload);
    RehydrationOf(response, fields);
    ghost var st := Stream(outfile, true);
    var instream := new InStream(outfile);
    loaded := new HTTPResponse();
    loaded.IngestResponseHeader(instream);
    ok := loaded.IngestPayload(instream);
    LoadedIs(st, response.protocol, response.responseHeader.headers, response.payload.payload);
    assert ok ==> loaded.payload.payload == ReadPayload(loaded.responseHeader.headers, AfterHeader(AfterLine(st))).bytes;
  }

  lemma LoadedIs(st: Stream, protocol: string, h: Headers, payload: string)
    ensures ReadsBack(st, protocol, h, payload) <==>
              && ProtocolOf(Line(st)) == protocol && Ingested(map[], "", AfterLine(st)) == h
              && ReadPayload(h, AfterHeader(AfterLine(st))) == Payload(payload)
  {
  }

  lemma RehydrationOf(r: HTTPResponse, fields: seq<Field>)
    requires -INT_MAX - 1 <= r.code <= INT_MAX && Enumerates(fields, r.responseHeader.headers)
    ensures var st := Stream(PrintResponse(r.protocol, r.code, fields, r.payload.payload), true);
            && (ReadsBack(st, r.protocol, r.responseHeader.headers, r.payload.payload) <==> r.Rehydratable())
            && (r.Rehydratable() ==> CodeOf(Line(st)) == IntRead(r.code))
  {
    hide ReadsBack, PrintResponse, GoodHeaders, Consistent, GoodProtocol;
    Rehydration(r.protocol, r.code, r.responseHeader.headers, fields, r.payload.payload);
  }
}
