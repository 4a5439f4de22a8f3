/** The payload of an HTTP message, 6/payload.cc. */
module HttpPayloads {
  import opened Text
  import opened Streams
  import opened Numbers
  import opened HttpHeaders

  /** None stands for the exception of a vector that cannot be allocated. */
  datatype Payload = Payload(bytes: string) | BadSize

  /** vector<char> content(chunkSize + 2) has a size. */
  predicate HasBlock(size: int)
  {
    -2 <= size <= INT_MAX - 2
  }

  /** The size of the block is an int, which wraps around; if it is negative the block cannot be allocated. */
  lemma BlockSizeWraps(size: int)
    requires -0x8000_0000 <= size < 0x8000_0000
    ensures HasBlock(size) <==> ToInt(size + 2) >= 0
  {
  }

  function Prefixed(s: string, p: Payload): Payload
  {
    if p.BadSize? then p else Payload(s + p.bytes)
  }

  lemma EmptyLine(st: Stream)
    requires ChunkSize(Trim(Line(st))) != 0
    ensures |AfterLine(st).rest| < |st.rest|
  {
    if Line(st) == "" {
      assert Trim("") == "";
      NoSize();
    }
  }

  /** What ingestChunkedPayload appends, from the line of a chunk size on. */
  function Chunked(st: Stream): Payload
    decreases |st.rest|
  {
    var line := Trim(Line(st));
    var size := ChunkSize(line);
    if size == 0 then Payload(line + "\r\n" + "\r\n")
    else if !HasBlock(size) then BadSize
    else
      EmptyLine(st);
      Prefixed(line + "\r\n" + Block(AfterLine(st), size + 2), Chunked(AfterBlock(AfterLine(st), size + 2)))
  }

  function AfterChunked(st: Stream): Stream
    decreases |st.rest|
  {
    var size := ChunkSize(Trim(Line(st)));
    if size == 0 then AfterLine(st)
    else if !HasBlock(size) then AfterLine(st)
    else
      EmptyLine(st);
      AfterChunked(AfterBlock(AfterLine(st), size + 2))
  }

  predicate IsChunked(h: Headers)
  {
    Get(h, "Transfer-Encoding") == "chunked"
  }

  function ContentLength(h: Headers): int
  {
    Number(Get(h, "Content-Length"))
  }

  /** What ingestPayload reads; a negative length is a size that no vector has. */
  function ReadPayload(h: Headers, st: Stream): Payload
  {
    if IsChunked(h) then Chunked(st)
    else if ContentLength(h) < 0 then BadSize
    else Payload(Block(st, ContentLength(h)))
  }

  /** The stream behind it. */
  function AfterPayload(h: Headers, st: Stream): Stream
  {
    if IsChunked(h) then AfterChunked(st)
    else if ContentLength(h) < 0 then st
    else AfterBlock(st, ContentLength(h))
  }

  /** The two headers that say how a payload is framed, by the names under which they are kept. */
  lemma FramingHeaders(h: Headers)
    ensures IsChunked(h) <==> "transfer-encoding" in h && h["transfer-encoding"] == "chunked"
    ensures ContentLength(h) == if "content-length" in h then Number(h["content-length"]) else 0
  {
    hide Number, Lower;
    FramingNames();
    assert Number("") == 0 by {
      NumberOfNothing();
    }
  }

  lemma FramingNames()
    ensures Lower("Transfer-Encoding") == "transfer-encoding" && Lower("Content-Length") == "content-length"
  {
  }

  lemma LengthAdded(h: Headers, name: string, v: string)
    requires SameName(name, "Content-Length")
    ensures IsChunked(Added(h, name, v)) == IsChunked(h) && ContentLength(Added(h, name, v)) == Number(v)
  {
    NotTheSameName(name);
    hide Get, Added, Number, SameName;
    SameNameIsSymmetric(name, "Content-Length");
    FoundInAnyCase(h, "Content-Length", name, v);
    FoundInAnyCase(h, "Transfer-Encoding", name, v);
  }

  /** So a payload is read by its length whatever the case of the header's name was. */
  lemma LengthInAnyCase(h: Headers, name: string, payload: string, more: string)
    requires SameName(name, "Content-Length") && |payload| <= LONG_MAX && !IsChunked(h)
    ensures ReadPayload(Added(h, name, Decimal(|payload|)), Stream(payload + more, true)) == Payload(payload)
    ensures AfterPayload(Added(h, name, Decimal(|payload|)), Stream(payload + more, true)) == Stream(more, true)
  {
    hide Added, Number, Decimal, SameName, Block, AfterBlock, Chunked, AfterChunked, IsChunked, ContentLength;
    LengthAdded(h, name, Decimal(|payload|));
    NumberOfDecimal(|payload|);
    BlockOf(payload, more);
  }

  lemma EncodingAdded(h: Headers, name: string)
    requires SameName(name, "Transfer-Encoding")
    ensures IsChunked(Added(h, name, "chunked"))
  {
    hide Get, Added, SameName;
    SameNameIsSymmetric(name, "Transfer-Encoding");
    FoundInAnyCase(h, "Transfer-Encoding", name, "chunked");
  }

  lemma SameNameIsSymmetric(m: string, n: string)
    ensures SameName(m, n) <==> SameName(n, m)
  {
    hide Lower, SameName;
    LowerSameName(m, n);
    LowerSameName(n, m);
  }

  lemma NotTheSameName(name: string)
    requires SameName(name, "Content-Length")
    ensures !SameName("Transfer-Encoding", name)
  {
  }

  // ----- chunks

  lemma ChunkLine(line: string, more: string)
    requires Trimmed(line) && '\n' !in line
    ensures var st := Stream(line + "\r\n" + more, true);
            Trim(Line(st)) == line && AfterLine(st) == Stream(more, true)
  {
    hide Trim, Line, AfterLine;
    assert line + "\r\n" + more == (line + "\r") + "\n" + more;
    LineOf(line + "\r", more);
    TrimSpaces(line, "", "\r");
    assert "" + line + "\r" == line + "\r";
    TrimmedStays(line);
  }

  /** One chunk: its size line, and the block that the size announces. */
  lemma ChunkStep(line: string, block: string, more: string)
    requires Trimmed(line) && '\n' !in line && HasBlock(ChunkSize(line)) && ChunkSize(line) != 0
    requires |block| == ChunkSize(line) + 2
    ensures var st := Stream(line + "\r\n" + block + more, true);
            && Chunked(st) == Prefixed(line + "\r\n" + block, Chunked(Stream(more, true)))
            && AfterChunked(st) == AfterChunked(Stream(more, true))
  {
    hide Trim, Line, AfterLine, Block, AfterBlock, ChunkSize;
    assert line + "\r\n" + block + more == line + "\r\n" + (block + more);
    ChunkLine(line, block + more);
    BlockOf(block, more);
  }

  lemma LastChunk(line: string, more: string)
    requires Trimmed(line) && '\n' !in line && ChunkSize(line) == 0
    ensures Chunked(Stream(line + "\r\n" + more, true)) == Payload(line + "\r\n" + "\r\n")
    ensures AfterChunked(Stream(line + "\r\n" + more, true)) == Stream(more, true)
  {
    hide Trim, Line, AfterLine, ChunkSize;
    ChunkLine(line, more);
  }

  lemma LineIsTrimmed(st: Stream)
    ensures Trimmed(Trim(Line(st))) && '\n' !in Trim(Line(st))
  {
    hide Trim, Line;
    TrimTrims(Line(st));
    TrimKeepsOut(Line(st), '\n');
  }

  /**
   Whatever was read, even from a body that broke off, reads back as itself; the line feed pair that the reader adds at
   the end stays unread.
  */
  lemma {:induction false} ChunkedIsStable(st: Stream, more: string)
    requires Chunked(st).Payload?
    ensures Chunked(Stream(Chunked(st).bytes + more, true)) == Chunked(st)
    ensures AfterChunked(Stream(Chunked(st).bytes + more, true)) == Stream("\r\n" + more, true)
    decreases |st.rest|
  {
    hide Trim, Line, AfterLine, Block, AfterBlock, ChunkSize;
    var line := Trim(Line(st));
    var size := ChunkSize(line);
    LineIsTrimmed(st);
    if size == 0 {
      assert Chunked(st).bytes + more == line + "\r\n" + ("\r\n" + more);
      LastChunk(line, "\r\n" + more);
    } else {
      EmptyLine(st);
      var block, rest := Block(AfterLine(st), size + 2), AfterBlock(AfterLine(st), size + 2);
      ChunkedIsStable(rest, more);
      var p := Chunked(rest).bytes;
      assert Chunked(st).bytes + more == line + "\r\n" + block + (p + more);
      ChunkStep(line, block, p + more);
    }
  }

  // ----- well-formed bodies

  /** A chunk of section 4.1 of RFC 7230: a size in hex digits, perhaps an extension, and as many bytes. */
  datatype Chunk = Chunk(size: string, ext: string, data: string)

  predicate IsExtension(ext: string)
  {
    (ext == "" || (ext[0] == ';' && !IsSpace(ext[|ext| - 1]))) && '\n' !in ext
  }

  predicate IsSizeLine(size: string, ext: string)
  {
    size != "" && (forall i :: 0 <= i < |size| ==> DigitOf(size[i]) < 16) && IsExtension(ext)
  }

  predicate IsChunk(c: Chunk)
  {
    IsSizeLine(c.size, c.ext) && DigitsValue(c.size, Hex) == |c.data| && 0 < |c.data| <= INT_MAX - 2
  }

  function PrintChunks(cs: seq<Chunk>): string
  {
    if cs == [] then "" else cs[0].size + cs[0].ext + "\r\n" + (cs[0].data + "\r\n") + PrintChunks(cs[1..])
  }

  /** A body without trailers. */
  function PrintBody(cs: seq<Chunk>, last: string, ext: string): string
  {
    PrintChunks(cs) + (last + ext) + "\r\n" + "\r\n"
  }

  lemma SizeLineIsTrimmed(size: string, ext: string)
    requires IsSizeLine(size, ext)
    ensures Trimmed(size + ext) && '\n' !in size + ext
  {
    var s := size + ext;
    HexIsNoSpace(s[0]);
    HexIsNoSpace(size[|size| - 1]);
    forall i | 0 <= i < |size| ensures size[i] != '\n' {
      HexIsNoSpace(size[i]);
    }
  }

  lemma HexIsNoSpace(c: char)
    ensures DigitOf(c) < 16 ==> !IsSpace(c)
  {
  }

  lemma PrintLast(last: string, ext: string, more: string)
    ensures PrintBody([], last, ext) == last + ext + "\r\n" + "\r\n"
    ensures PrintBody([], last, ext) + more == (last + ext) + "\r\n" + ("\r\n" + more)
  {
  }

  lemma PrintFirst(cs: seq<Chunk>, last: string, ext: string, more: string)
    requires cs != []
    ensures var c, body := cs[0], PrintBody(cs[1..], last, ext);
            && PrintBody(cs, last, ext) == (c.size + c.ext) + "\r\n" + (c.data + "\r\n") + body
            && PrintBody(cs, last, ext) + more == (c.size + c.ext) + "\r\n" + (c.data + "\r\n") + (body + more)
  {
  }

  /** A well-formed chunked body is kept verbatim. */
  lemma {:induction false} BodyIsKept(cs: seq<Chunk>, last: string, ext: string, more: string)
    requires (forall i :: 0 <= i < |cs| ==> IsChunk(cs[i])) && IsSizeLine(last, ext) && DigitsValue(last, Hex) == 0
    ensures var st := Stream(PrintBody(cs, last, ext) + more, true);
            Chunked(st) == Payload(PrintBody(cs, last, ext)) && AfterChunked(st) == Stream("\r\n" + more, true)
  {
    hide Trimmed, ChunkSize, DigitsValue, Chunked, AfterChunked, IsSizeLine, PrintBody;
    if cs == [] {
      SizeLineIsTrimmed(last, ext);
      SizeLineSize(last, ext);
      PrintLast(last, ext, more);
      LastChunk(last + ext, "\r\n" + more);
    } else {
      var c := cs[0];
      var body := PrintBody(cs[1..], last, ext);
      BodyIsKept(cs[1..], last, ext, more);
      SizeLineIsTrimmed(c.size, c.ext);
      SizeLineSize(c.size, c.ext);
      PrintFirst(cs, last, ext, more);
      ChunkStep(c.size + c.ext, c.data + "\r\n", body + more);
    }
  }

  /** So are bodies whose sizes are printed in hex, in either case. */
  lemma HexBodyIsKept(digits: string, cs: seq<Chunk>, ext: string, more: string)
    requires IsHexAlphabet(digits)
    requires forall i :: 0 <= i < |cs| ==>
               0 < |cs[i].data| <= INT_MAX - 2 && cs[i].size == HexOf(digits, |cs[i].data|) && IsExtension(cs[i].ext)
    requires IsExtension(ext)
    ensures var st := Stream(PrintBody(cs, "0", ext) + more, true);
            Chunked(st) == Payload(PrintBody(cs, "0", ext)) && AfterChunked(st) == Stream("\r\n" + more, true)
  {
    hide PrintBody, Chunked, AfterChunked, HexOf, DigitsValue, DigitOf, IsSpace;
    forall i | 0 <= i < |cs| ensures IsChunk(cs[i]) {
      HexDigits(digits, |cs[i].data|);
    }
    HexZero();
    BodyIsKept(cs, "0", ext, more);
  }

  /** A payload is chunked whatever the case of the header's name, and whatever length is announced besides. */
  lemma ChunkedInAnyCase(h: Headers, name: string, cs: seq<Chunk>, last: string, ext: string, more: string)
    requires SameName(name, "Transfer-Encoding")
    requires (forall i :: 0 <= i < |cs| ==> IsChunk(cs[i])) && IsSizeLine(last, ext) && DigitsValue(last, Hex) == 0
    ensures var g, st := Added(h, name, "chunked"), Stream(PrintBody(cs, last, ext) + more, true);
            ReadPayload(g, st) == Payload(PrintBody(cs, last, ext)) && AfterPayload(g, st) == Stream("\r\n" + more, true)
  {
    hide Added, SameName, IsChunked, Chunked, AfterChunked, PrintBody, IsChunk, IsSizeLine, DigitsValue;
    EncodingAdded(h, name);
    BodyIsKept(cs, last, ext, more);
  }

  lemma SizeLineSize(size: string, ext: string)
    requires IsSizeLine(size, ext) && DigitsValue(size, Hex) <= INT_MAX
    ensures ChunkSize(size + ext) == DigitsValue(size, Hex)
  {
    hide DigitsValue, ChunkSize;
    SizeOfLine(size, ext);
  }

  // ----- setPayload

  /** The headers after setPayload. */
  function WithLength(h: Headers, payload: string): Headers
  {
    Added(h, "Content-Length", PrintInt(ToInt(|payload|)))
  }

  /** setPayload leaves headers that announce the payload, and that can be printed and read. */
  lemma SetPayloadIsConsistent(h: Headers, payload: string)
    requires |payload| <= INT_MAX
    ensures ContentLength(WithLength(h, payload)) == |payload|
    ensures (forall n :: n in h ==> GoodName(n) && '\n' !in h[n] && Trimmed(h[n])) ==>
              var w := WithLength(h, payload);
              forall n :: n in w ==> GoodName(n) && '\n' !in w[n] && Trimmed(w[n])
  {
    hide Decimal, Number, Trimmed, GoodName, Lower;
    NumberOfDecimal(|payload|);
    DecimalIsTrimmed(|payload|);
    LowerIsGood("Content-Length") by {
      ContentLengthName();
    }
  }

  lemma ContentLengthName()
    ensures Trimmed("Content-Length") && ':' !in "Content-Length" && '\n' !in "Content-Length"
  {
  }

  lemma DecimalIsTrimmed(n: nat)
    ensures Trimmed(Decimal(n)) && '\n' !in Decimal(n)
  {
    hide Decimal;
    DecimalDigits(n);
  }

  // ----- the code

  class HTTPPayload {
    var payload: string

    constructor ()
      ensures payload == ""
    {
      payload := "";
    }

    /** ok is false when the allocation throws. */
    method IngestPayload(header: HTTPHeader, instream: InStream) returns (ok: bool)
      modifies this, instream
      ensures ok <==> ReadPayload(header.headers, old(instream.Value())).Payload?
      ensures ok ==> payload == old(payload) + ReadPayload(header.headers, old(instream.Value())).bytes
      ensures ok ==> instream.Value() == AfterPayload(header.headers, old(instream.Value()))
    {
      hide Chunked, AfterChunked, Number, Get, Block, AfterBlock;
      var encoding := header.GetValueAsString("Transfer-Encoding");
      if encoding == "chunked" {
        ok := IngestChunkedPayload(instream);
      } else {
        var value := header.GetValueAsString("Content-Length");
        ok := IngestCompletePayload(instream, Number(value));
      }
    }

    method IngestChunkedPayload(instream: InStream) returns (ok: bool)
      modifies this, instream
      ensures ok <==> Chunked(old(instream.Value())).Payload?
      ensures ok ==> payload == old(payload) + Chunked(old(instream.Value())).bytes
      ensures ok ==> instream.Value() == AfterChunked(old(instream.Value()))
    {
      hide Trim, Line, AfterLine, Block, AfterBlock, ChunkSize;
      ghost var st := instream.Value();
      while true
        invariant Prefixed(payload, Chunked(instream.Value())) == Prefixed(old(payload), Chunked(st))
        invariant AfterChunked(instream.Value()) == AfterChunked(st)
        decreases |instream.rest|
      {
        ghost var now, before := instream.Value(), payload;
        var chunkSizeStr := instream.GetLine();
        chunkSizeStr := Trim(chunkSizeStr);
        payload := payload + (chunkSizeStr + "\r\n");
        var chunkSize := ChunkSize(chunkSizeStr);
        if chunkSize == 0 {
          assert before + (chunkSizeStr + "\r\n" + "\r\n") == payload + "\r\n";
          break;
        }
        if !HasBlock(chunkSize) {
          return false;
        }
        EmptyLine(now);
        var content := instream.Read(chunkSize + 2);
        PrefixedMore(before, chunkSizeStr + "\r\n", content, Chunked(instream.Value()));
        payload := payload + content;
      }
      payload := payload + "\r\n";
      return true;
    }

    method IngestCompletePayload(instream: InStream, contentLength: int) returns (ok: bool)
      modifies this, instream
      ensures ok <==> contentLength >= 0
      ensures ok ==> payload == old(payload) + Block(old(instream.Value()), contentLength)
      ensures ok ==> instream.Value() == AfterBlock(old(instream.Value()), contentLength)
    {
      if contentLength < 0 {
        return false;
      }
      var content := instream.Read(contentLength);
      payload := payload + content;
      return true;
    }

    method SetPayload(header: HTTPHeader, data: string)
      modifies this, header
      ensures payload == data && header.headers == WithLength(old(header.headers), data)
    {
      payload := "";
      payload := payload + data;
      header.AddHeader("Content-Length", PrintInt(ToInt(|data|)));
    }
  }

  lemma PrefixedMore(a: string, b: string, c: string, p: Payload)
    ensures Prefixed(a, Prefixed(b + c, p)) == Prefixed(a + b + c, p)
  {
    if p.Payload? {
      assert a + ((b + c) + p.bytes) == a + b + c + p.bytes;
    }
  }
}
