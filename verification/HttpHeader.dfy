/** The header of an HTTP message, 6/header.cc: read from a stream and printed. */
module HttpHeaders {
  import opened Text
  import opened Streams

  type Headers = map<string, string>

  // ----- reading

  /** Where the first colon is, or where the line ends. */
  function ColonAt(line: string): (n: nat)
    ensures n <= |line| && ':' !in line[..n] && (n < |line| ==> line[n] == ':')
  {
    if line == "" || line[0] == ':' then 0 else ColonAt(line[1..]) + 1
  }

  function NameOf(line: string): string
  {
    Trim(line[..ColonAt(line)])
  }

  function ValueOf(line: string): string
  {
    if ColonAt(line) < |line| then Trim(line[ColonAt(line) + 1..]) else Trim("")
  }

  function Get(h: Headers, name: string): string
  {
    if Lower(name) in h then h[Lower(name)] else ""
  }

  function Added(h: Headers, name: string, value: string): Headers
  {
    h[Lower(name) := value]
  }

  function Extended(h: Headers, name: string, value: string): Headers
  {
    h[Lower(name) := Get(h, name) + " " + value]
  }

  /** The headers once everything up to the first blank line is read; name is the last name read. */
  function Ingested(h: Headers, name: string, st: Stream): Headers
    decreases |st.rest|
  {
    var line := RTrim(Line(st));
    if line == "" then h
    else if line[0] == ' ' then Ingested(Extended(h, name, Trim(line)), name, AfterLine(st))
    else Ingested(Added(h, NameOf(line), ValueOf(line)), NameOf(line), AfterLine(st))
  }

  /** The stream behind that blank line. */
  function AfterHeader(st: Stream): Stream
    decreases |st.rest|
  {
    if RTrim(Line(st)) == "" then AfterLine(st) else AfterHeader(AfterLine(st))
  }

  // ----- printing

  type Field = (string, string)

  function PrintField(f: Field): string
  {
    f.0 + ": " + f.1 + "\r\n"
  }

  function PrintFields(fs: seq<Field>): string
  {
    if fs == [] then "" else PrintField(fs[0]) + PrintFields(fs[1..])
  }

  /** The fields are the headers, each once, in some order. */
  ghost predicate Enumerates(fs: seq<Field>, h: Headers)
  {
    && (forall i :: 0 <= i < |fs| ==> fs[i].0 in h && h[fs[i].0] == fs[i].1)
    && (forall n :: n in h ==> (n, h[n]) in fs)
    && (forall i, j :: 0 <= i < j < |fs| ==> fs[i].0 != fs[j].0)
  }

  /** A name that is read back as it was printed. */
  predicate GoodName(n: string)
  {
    Lower(n) == n && Trimmed(n) && ':' !in n && '\n' !in n
  }

  // ----- names in any case

  /** What is set under a name is found under it in any case, and nothing else changes. */
  lemma FoundInAnyCase(h: Headers, m: string, n: string, v: string)
    ensures Get(Added(h, n, v), m) == if SameName(m, n) then v else Get(h, m)
    ensures Get(Extended(h, n, v), m) == if SameName(m, n) then Get(h, n) + " " + v else Get(h, m)
  {
    hide Lower, SameName;
    LowerSameName(m, n);
  }

  // ----- printing and reading

  lemma ColonAtIs(line: string, n: nat)
    requires n < |line| && ':' !in line[..n] && line[n] == ':'
    ensures ColonAt(line) == n
  {
    var m := ColonAt(line);
    assert forall k :: 0 <= k < n ==> line[k] in line[..n];
    assert forall k :: 0 <= k < m ==> line[k] in line[..m];
  }

  /** What a printed field reads as, as a line. */
  lemma FieldLine(n: string, v: string)
    requires GoodName(n)
    ensures var line := RTrim(n + ": " + v + "\r");
            line != "" && line[0] != ' ' && NameOf(line) == n && ValueOf(line) == Trim(v)
  {
    hide RTrim, LTrim, Trim, Lower;
    var a, x := n + ":", " " + v + "\r";
    assert n + ": " + v + "\r" == a + x;
    RTrimAfter(a, x);
    var line := a + RTrim(x);
    assert line[..|n|] == n && line[|n| + 1..] == RTrim(x);
    ColonAtIs(line, |n|);
    TrimmedStays(n);
    TrimSpaces(v, " ", "\r");
    assert Trim(RTrim(x)) == Trim(v);
  }

  lemma FieldStep(h: Headers, name: string, n: string, v: string, rest: string)
    requires GoodName(n) && '\n' !in v
    ensures var st := Stream(PrintField((n, v)) + rest, true);
            && Ingested(h, name, st) == Ingested(h[n := Trim(v)], n, Stream(rest, true))
            && AfterHeader(st) == AfterHeader(Stream(rest, true))
  {
    hide RTrim, Trim, NameOf, ValueOf, Line, AfterLine;
    var l := n + ": " + v + "\r";
    assert PrintField((n, v)) + rest == l + "\n" + rest;
    LineOf(l, rest);
    FieldLine(n, v);
  }

  /** The headers that reading the fields gives. */
  function Folded(h: Headers, fs: seq<Field>): Headers
    decreases fs
  {
    if fs == [] then h else Folded(h[fs[0].0 := Trim(fs[0].1)], fs[1..])
  }

  lemma {:induction false} FieldsRead(h: Headers, name: string, fs: seq<Field>, body: string)
    requires forall i :: 0 <= i < |fs| ==> GoodName(fs[i].0) && '\n' !in fs[i].1
    ensures var st := Stream(PrintFields(fs) + "\r\n" + body, true);
            Ingested(h, name, st) == Folded(h, fs) && AfterHeader(st) == Stream(body, true)
    decreases fs
  {
    hide PrintField, GoodName, RTrim, Trim, Line, AfterLine, Ingested, AfterHeader, PrintFields;
    FieldsPrinted(fs, body);
    if fs == [] {
      BlankLine(h, name, body);
    } else {
      var rest := PrintFields(fs[1..]) + "\r\n" + body;
      FieldStep(h, name, fs[0].0, fs[0].1, rest);
      FieldsRead(h[fs[0].0 := Trim(fs[0].1)], fs[0].0, fs[1..], body);
    }
  }

  lemma FieldsPrinted(fs: seq<Field>, body: string)
    ensures PrintFields(fs) + "\r\n" + body
         == if fs == [] then "\r\n" + body
            else PrintField((fs[0].0, fs[0].1)) + (PrintFields(fs[1..]) + "\r\n" + body)
  {
    hide PrintField;
    if fs == [] {
      assert PrintFields(fs) == "";
    }
  }

  lemma BlankLine(h: Headers, name: string, body: string)
    ensures Ingested(h, name, Stream("\r\n" + body, true)) == h
    ensures AfterHeader(Stream("\r\n" + body, true)) == Stream(body, true)
  {
    hide Line, AfterLine;
    assert "\r\n" + body == "\r" + "\n" + body;
    LineOf("\r", body);
    assert RTrim("\r") == "" by {
      RTrimAll("\r");
    }
  }

  lemma {:induction false} FoldedAt(h: Headers, fs: seq<Field>, n: string)
    requires forall i, j :: 0 <= i < j < |fs| ==> fs[i].0 != fs[j].0
    ensures n in Folded(h, fs) <==> n in h || exists i :: 0 <= i < |fs| && fs[i].0 == n
    ensures (forall i :: 0 <= i < |fs| ==> fs[i].0 != n) ==> (n in h ==> Folded(h, fs)[n] == h[n])
    ensures forall i :: 0 <= i < |fs| && fs[i].0 == n ==> Folded(h, fs)[n] == Trim(fs[i].1)
    decreases fs
  {
    hide Trim;
    if fs != [] {
      var t := fs[1..];
      assert forall i :: 1 <= i < |fs| ==> fs[i] == t[i - 1];
      FoldedAt(h[fs[0].0 := Trim(fs[0].1)], t, n);
    }
  }

  /** Reading the printed headers trims their values. */
  lemma PrintedHeadersRead(h: Headers, fs: seq<Field>, body: string)
    requires Enumerates(fs, h) && forall n :: n in h ==> GoodName(n) && '\n' !in h[n]
    ensures var st := Stream(PrintFields(fs) + "\r\n" + body, true);
            && Ingested(map[], "", st) == (map n | n in h :: Trim(h[n]))
            && AfterHeader(st) == Stream(body, true)
  {
    hide Trim, GoodName, PrintFields, Ingested, AfterHeader;
    FieldsRead(map[], "", fs, body);
    var r := Folded(map[], fs);
    forall n ensures n in r <==> n in h {
      FoldedAt(map[], fs, n);
      if n in h {
        assert (n, h[n]) in fs;
      }
    }
    forall n | n in h ensures r[n] == Trim(h[n]) {
      FoldedAt(map[], fs, n);
      var i :| 0 <= i < |fs| && fs[i] == (n, h[n]);
    }
  }

  /** Whatever is read, the names are good and the values hold no line feed. */
  lemma {:induction false} IngestedIsClean(h: Headers, name: string, st: Stream)
    requires forall n :: n in h ==> GoodName(n) && '\n' !in h[n]
    requires Trimmed(name) && ':' !in name && '\n' !in name
    ensures forall n :: n in Ingested(h, name, st) ==> GoodName(n) && '\n' !in Ingested(h, name, st)[n]
    decreases |st.rest|
  {
    hide RTrim, Trim, NameOf, ValueOf, Line, AfterLine, GoodName, Trimmed, Lower;
    var l := Line(st);
    var line := RTrim(l);
    TrimKeepsOut(l, '\n');
    if line == "" {
    } else if line[0] == ' ' {
      LowerIsGood(name);
      TrimKeepsOut(line, '\n');
      IngestedIsClean(Extended(h, name, Trim(line)), name, AfterLine(st));
    } else {
      LineIsClean(line);
      LowerIsGood(NameOf(line));
      IngestedIsClean(Added(h, NameOf(line), ValueOf(line)), NameOf(line), AfterLine(st));
    }
  }

  lemma LowerIsGood(name: string)
    requires Trimmed(name) && ':' !in name && '\n' !in name
    ensures GoodName(Lower(name))
  {
    LowerKeeps(name);
  }

  lemma LineIsClean(line: string)
    requires '\n' !in line
    ensures Trimmed(NameOf(line)) && ':' !in NameOf(line) && '\n' !in NameOf(line) && '\n' !in ValueOf(line)
  {
    hide RTrim, LTrim, Trim, Trimmed;
    var n := ColonAt(line);
    TrimTrims(line[..n]);
    TrimKeepsOut(line[..n], ':');
    TrimKeepsOut(line[..n], '\n');
    TrimKeepsOut("", '\n');
    if n < |line| {
      TrimKeepsOut(line[n + 1..], '\n');
    }
  }

  /** Headers come back from print and read exactly when their names are good, and their values trimmed and on one line. */
  lemma HeadersRoundTrip(h: Headers, fs: seq<Field>, body: string)
    requires Enumerates(fs, h)
    ensures var st := Stream(PrintFields(fs) + "\r\n" + body, true);
            Ingested(map[], "", st) == h <==> forall n :: n in h ==> GoodName(n) && '\n' !in h[n] && Trimmed(h[n])
    ensures (forall n :: n in h ==> GoodName(n) && '\n' !in h[n]) ==>
              AfterHeader(Stream(PrintFields(fs) + "\r\n" + body, true)) == Stream(body, true)
  {
    hide Trim, Trimmed, GoodName, PrintFields, Ingested, AfterHeader, Enumerates;
    var st := Stream(PrintFields(fs) + "\r\n" + body, true);
    EmptyName();
    IngestedIsClean(map[], "", st);
    if forall n :: n in h ==> GoodName(n) && '\n' !in h[n] {
      PrintedHeadersRead(h, fs, body);
      forall n | n in h ensures Trimmed(h[n]) <==> Trim(h[n]) == h[n] {
        TrimTrims(h[n]);
        if Trimmed(h[n]) {
          TrimmedStays(h[n]);
        }
      }
    }
  }

  lemma ContinuationStep(h: Headers, name: string, l: string, rest: string)
    requires '\n' !in l && RTrim(l) != "" && RTrim(l)[0] == ' '
    ensures Ingested(h, name, Stream(l + "\n" + rest, true))
         == Ingested(Extended(h, name, Trim(RTrim(l))), name, Stream(rest, true))
  {
    hide RTrim, Trim, Line, AfterLine, Extended;
    LineOf(l, rest);
  }

  /** A field with an empty value, and a second line for it. */
  lemma EmptyValueContinued(body: string)
    ensures Ingested(map[], "", Stream("a: \r\n" + (" x\r" + "\n" + ("\r\n" + body)), true)) == map["a" := " x"]
  {
    hide RTrim, LTrim, Trim, Line, AfterLine, Lower, PrintField, Ingested;
    SmallName();
    assert PrintField(("a", "")) == "a: \r\n" by {
      SmallField();
    }
    FieldStep(map[], "", "a", "", " x\r" + "\n" + ("\r\n" + body));
    Continuation();
    var h: Headers := map["a" := ""];
    ContinuationStep(h, "a", " x\r", "\r\n" + body);
    assert "" + " " + "x" == " x";
    BlankLine(Extended(h, "a", "x"), "a", body);
  }

  /**
   So not every header that was read comes back: the value that was continued starts with a space, which the next
   reading trims away.
  */
  lemma ContinuedValueIsLost(fs: seq<Field>, body: string)
    requires Enumerates(fs, map["a" := " x"])
    ensures Ingested(map[], "", Stream(PrintFields(fs) + "\r\n" + body, true)) != map["a" := " x"]
  {
    var h: Headers := map["a" := " x"];
    assert !Trimmed(h["a"]);
    hide PrintFields, Ingested, Enumerates, Trimmed;
    HeadersRoundTrip(h, fs, body);
  }

  lemma SmallField()
    ensures PrintField(("a", "")) == "a: \r\n"
  {
  }

  lemma SmallName()
    ensures GoodName("a") && Lower("a") == "a" && Trim("") == ""
  {
  }

  lemma Continuation()
    ensures RTrim(" x\r") == " x" && Trim(" x") == "x"
  {
    assert " x\r"[..2] == " x" && " x"[1..] == "x";
    TrimmedStays("x");
    TrimSpaces("x", " ", "");
    assert " " + "x" + "" == " x";
  }

  lemma EmptyName()
    ensures Trimmed("") && ':' !in "" && '\n' !in ""
  {
  }

  // ----- the code

  class HTTPHeader {
    var headers: Headers

    constructor ()
      ensures headers == map[]
    {
      headers := map[];
    }

    method IngestHeader(instream: InStream)
      modifies this, instream
      ensures headers == Ingested(old(headers), "", old(instream.Value()))
      ensures instream.Value() == AfterHeader(old(instream.Value()))
    {
      hide RTrim, Trim, NameOf, ValueOf, Line, AfterLine, Extended, Added;
      var name := "";
      while true
        invariant Ingested(headers, name, instream.Value()) == Ingested(old(headers), "", old(instream.Value()))
        invariant AfterHeader(instream.Value()) == AfterHeader(old(instream.Value()))
        decreases |instream.rest|
      {
        var line := instream.GetLine();
        line := RTrim(line);
        if line == "" {
          break;
        }
        if line[0] == ' ' {
          ExtendHeader(name, Trim(line));
        } else {
          name := NameOf(line);
          AddHeader(name, ValueOf(line));
        }
      }
    }

    method AddHeader(name: string, value: string)
      modifies this
      ensures headers == Added(old(headers), name, value)
    {
      var normalizedName := Lower(name);
      headers := headers[normalizedName := value];
    }

    method ExtendHeader(name: string, value: string)
      modifies this
      ensures headers == Extended(old(headers), name, value)
    {
      var normalizedName := Lower(name);
      if normalizedName !in headers {
        headers := headers[normalizedName := ""];
      }
      headers := headers[normalizedName := headers[normalizedName] + " " + value];
    }

    method GetValueAsString(name: string) returns (value: string)
      ensures value == Get(headers, name)
    {
      var normalizedName := Lower(name);
      value := if normalizedName in headers then headers[normalizedName] else "";
    }

    /** operator<<; the order of the fields is left open. */
    method Print() returns (os: string)
      ensures exists fields :: Enumerates(fields, headers) && os == PrintFields(fields)
    {
      hide PrintFields;
      var left := headers;
      ghost var fields: seq<Field> := [];
      os := "";
      assert os == PrintFields(fields) by {
        NothingPrinted();
      }
      while left != map[]
        invariant forall n :: n in left ==> n in headers && left[n] == headers[n]
        invariant forall i :: 0 <= i < |fields| ==> fields[i].0 in headers && headers[fields[i].0] == fields[i].1
        invariant forall i :: 0 <= i < |fields| ==> fields[i].0 !in left
        invariant forall n :: n in headers && n !in left ==> (n, headers[n]) in fields
        invariant forall i, j :: 0 <= i < j < |fields| ==> fields[i].0 != fields[j].0
        invariant os == PrintFields(fields)
        decreases |left|
      {
        var n :| n in left;
        PrintMore(fields, (n, left[n]));
        os := os + (n + ": " + left[n] + "\r\n");
        fields := fields + [(n, left[n])];
        left := left - {n};
      }
      assert Enumerates(fields, headers);
    }
  }

  lemma NothingPrinted()
    ensures PrintFields([]) == ""
  {
  }

  /** Each field is one line, and the lines come in the order of the fields. */
  lemma {:induction false} FieldsAreLines(a: seq<Field>, f: Field, b: seq<Field>)
    ensures PrintFields(a + [f] + b) == PrintFields(a) + (f.0 + ": " + f.1 + "\r\n") + PrintFields(b)
  {
    assert PrintField(f) == f.0 + ": " + f.1 + "\r\n";
    hide PrintField;
    if a == [] {
      assert [] + [f] + b == [f] + b && ([f] + b)[1..] == b;
    } else {
      FieldsAreLines(a[1..], f, b);
      assert (a + [f] + b)[1..] == a[1..] + [f] + b;
    }
  }

  lemma {:induction false} PrintMore(fs: seq<Field>, f: Field)
    ensures PrintFields(fs + [f]) == PrintFields(fs) + PrintField(f)
  {
    if fs == [] {
      assert [f][1..] == [];
    } else {
      PrintMore(fs[1..], f);
      assert (fs + [f])[1..] == fs[1..] + [f];
    }
  }
}
