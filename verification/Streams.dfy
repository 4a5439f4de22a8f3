/** Input streams of the C++ library: what is left to read, and whether a read may still succeed. */
module Streams {
  /** good is false once the end has been run into (eofbit or failbit). */
  datatype Stream = Stream(rest: string, good: bool)

  /** Where the first line feed is, or where s ends. */
  function LineLength(s: string): (n: nat)
    ensures n <= |s| && '\n' !in s[..n] && (n < |s| ==> s[n] == '\n')
  {
    if s == "" || s[0] == '\n' then 0 else LineLength(s[1..]) + 1
  }

  lemma LineLengthIs(s: string, n: nat)
    requires n <= |s| && '\n' !in s[..n] && (n < |s| ==> s[n] == '\n')
    ensures LineLength(s) == n
  {
    var m := LineLength(s);
    assert forall k :: 0 <= k < n ==> s[k] in s[..n];
    assert forall k :: 0 <= k < m ==> s[k] in s[..m];
  }

  /** What getline puts into an empty string. */
  function Line(st: Stream): (l: string)
    ensures '\n' !in l && |l| <= |st.rest| && (!st.good ==> l == "")
  {
    if st.good then st.rest[..LineLength(st.rest)] else ""
  }

  function AfterLine(st: Stream): (r: Stream)
    ensures |r.rest| + |Line(st)| <= |st.rest|
  {
    var n := LineLength(st.rest);
    if !st.good then st
    else if n == |st.rest| then Stream("", false)
    else Stream(st.rest[n + 1..], true)
  }

  lemma LineOf(l: string, rest: string)
    requires '\n' !in l
    ensures Line(Stream(l + "\n" + rest, true)) == l && AfterLine(Stream(l + "\n" + rest, true)) == Stream(rest, true)
  {
    var s := l + "\n" + rest;
    assert s[..|l|] == l && s[|l|] == '\n' && s[|l| + 1..] == rest;
    LineLengthIs(s, |l|);
  }

  function Zeros(n: nat): (z: string)
    ensures |z| == n
  {
    seq(n, _ => 0 as char)
  }

  /** The contents of a zeroed buffer of n bytes after istream::read. */
  function Block(st: Stream, n: nat): (b: string)
    ensures |b| == n
  {
    if !st.good then Zeros(n)
    else if n <= |st.rest| then st.rest[..n]
    else st.rest + Zeros(n - |st.rest|)
  }

  function AfterBlock(st: Stream, n: nat): (r: Stream)
    ensures |r.rest| <= |st.rest| && (r.good ==> st.good && |r.rest| + n == |st.rest|)
  {
    if !st.good then st
    else if n <= |st.rest| then Stream(st.rest[n..], true)
    else Stream("", false)
  }

  lemma BlockOf(b: string, rest: string)
    ensures Block(Stream(b + rest, true), |b|) == b && AfterBlock(Stream(b + rest, true), |b|) == Stream(rest, true)
  {
    assert (b + rest)[..|b|] == b && (b + rest)[|b|..] == rest;
  }

  /** Byte k of what is read: it is there, or it is a NUL. */
  lemma BlockByte(st: Stream, n: nat, k: nat)
    requires k < n
    ensures Block(st, n)[k] == if st.good && k < |st.rest| then st.rest[k] else 0 as char
  {
  }

  /** Once the end has been run into, nothing is read any more. */
  lemma NothingBehindTheEnd(rest: string, n: nat)
    ensures Line(Stream(rest, false)) == "" && AfterLine(Stream(rest, false)) == Stream(rest, false)
    ensures AfterBlock(Stream(rest, false), n) == Stream(rest, false)
    ensures AfterBlock(Stream(rest, true), n) == if n <= |rest| then Stream(rest[n..], true) else Stream("", false)
  {
  }

  class InStream {
    var rest: string
    var good: bool

    function Value(): Stream
      reads this
    {
      Stream(rest, good)
    }

    constructor (data: string)
      ensures Value() == Stream(data, true)
    {
      rest, good := data, true;
    }

    method GetLine() returns (line: string)
      modifies this
      ensures line == Line(old(Value())) && Value() == AfterLine(old(Value()))
    {
      if !good {
        return "";
      }
      var n := 0;
      while n < |rest| && rest[n] != '\n'
        invariant n <= |rest| && '\n' !in rest[..n]
      {
        n := n + 1;
      }
      LineLengthIs(rest, n);
      line := rest[..n];
      if n == |rest| {
        rest, good := "", false;
      } else {
        rest := rest[n + 1..];
      }
    }

    method Read(n: nat) returns (content: string)
      modifies this
      ensures content == Block(old(Value()), n) && Value() == AfterBlock(old(Value()), n)
    {
      content := Block(Value(), n);
      if good && n <= |rest| {
        rest := rest[n..];
      } else if good {
        rest, good := "", false;
      }
    }
  }
}
