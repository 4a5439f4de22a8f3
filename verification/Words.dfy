/** The words that 2/scan.c finds in a file: maximal runs of letters, cut every 64 letters. */
module Words {
  import opened Bytes
  import opened Indexes
  import Text

  /** isalpha in the C locale. */
  predicate IsAlpha(ch: int)
  {
    65 <= ch <= 90 || 97 <= ch <= 122
  }

  /** The letters are those of the two alphabets, and the end of a file is none. */
  lemma LettersAreLetters(ch: byte)
    ensures IsAlpha(ch) <==> Text.IsUpper(ch as char) || Text.IsLower(ch as char)
    ensures !IsAlpha(-1)
  {
    hide Text.IsUpper, Text.IsLower;
    Text.LetterCodes(ch as char);
  }

  /** How many letters stand immediately before position p. */
  function Back(f: seq<byte>, p: nat): (n: nat)
    requires p <= |f|
    ensures n <= p
  {
    if p > 0 && IsAlpha(f[p - 1]) then Back(f, p - 1) + 1 else 0
  }

  /** A piece starts at a letter that has a multiple of 64 letters of its run before it. */
  predicate IsStart(f: seq<byte>, p: nat)
  {
    p < |f| && IsAlpha(f[p]) && Back(f, p) % 64 == 0
  }

  /** How many letters, up to max, start at p. */
  function Run(f: seq<byte>, p: nat, max: nat): (n: nat)
    requires p <= |f|
    ensures n <= max && p + n <= |f|
    ensures forall k :: p <= k < p + n ==> IsAlpha(f[k])
    ensures n == max || p + n == |f| || !IsAlpha(f[p + n])
    decreases max
  {
    if max > 0 && p < |f| && IsAlpha(f[p]) then Run(f, p + 1, max - 1) + 1 else 0
  }

  lemma {:induction false} RunIs(f: seq<byte>, p: nat, max: nat, n: nat)
    requires n <= max && p + n <= |f| && forall k :: p <= k < p + n ==> IsAlpha(f[k])
    requires n == max || p + n == |f| || !IsAlpha(f[p + n])
    ensures Run(f, p, max) == n
    decreases max
  {
    if n > 0 {
      RunIs(f, p + 1, max - 1, n - 1);
    }
  }

  /** The piece that starts at p. */
  function PieceAt(f: seq<byte>, p: nat): seq<byte>
    requires p <= |f|
  {
    f[p..p + Run(f, p, 64)]
  }

  /** w is what stands at p, and all letters. */
  ghost predicate AreLetters(w: seq<byte>, f: seq<byte>, p: nat)
  {
    p + |w| <= |f| && forall k :: 0 <= k < |w| ==> w[k] == f[p + k] && IsAlpha(w[k])
  }

  lemma NoLetters(f: seq<byte>, p: nat)
    requires p <= |f|
    ensures AreLetters([], f, p)
  {
  }

  lemma MoreLetters(w: seq<byte>, f: seq<byte>, p: nat, c: byte)
    requires AreLetters(w, f, p) && p + |w| < |f| && c == f[p + |w|] && IsAlpha(c)
    ensures AreLetters(w + [c], f, p)
  {
  }

  lemma PieceIs(f: seq<byte>, p: nat, w: seq<byte>)
    requires |w| <= 64 && AreLetters(w, f, p)
    requires |w| == 64 || p + |w| == |f| || !IsAlpha(f[p + |w|])
    ensures w == PieceAt(f, p)
  {
    forall k | p <= k < p + |w| ensures IsAlpha(f[k]) {
      assert w[k - p] == f[k];
    }
    RunIs(f, p, 64, |w|);
  }

  /** The pieces of a file from p on, as entries for the index; the offset of a piece counts from 1. */
  function FileEntries(path: seq<byte>, f: seq<byte>, p: nat): seq<Entry>
    requires p <= |f|
    decreases |f| - p
  {
    if p == |f| then []
    else if !IsAlpha(f[p]) then FileEntries(path, f, p + 1)
    else [Entry(PieceAt(f, p), Location(path, p + 1))] + FileEntries(path, f, p + |PieceAt(f, p)|)
  }

  lemma SkipEntry(f: seq<byte>, p: nat)
    requires p < |f| && !IsAlpha(f[p])
    ensures forall path :: FileEntries(path, f, p) == FileEntries(path, f, p + 1)
  {
  }

  lemma NoMoreEntries(path: seq<byte>, f: seq<byte>)
    ensures FileEntries(path, f, |f|) == []
  {
  }

  /** The scan is at p only where a piece starts or no letter is. */
  predicate Boundary(f: seq<byte>, p: nat)
  {
    p <= |f| && (p < |f| && IsAlpha(f[p]) ==> Back(f, p) % 64 == 0)
  }

  lemma {:induction false} BackRun(f: seq<byte>, p: nat, n: nat)
    requires p + n <= |f| && forall k :: p <= k < p + n ==> IsAlpha(f[k])
    ensures Back(f, p + n) == Back(f, p) + n
  {
    if n > 0 {
      BackRun(f, p, n - 1);
    }
  }

  /** A piece holds at most 64 letters, and stops short only where the letters stop. */
  lemma PieceIsMaximal(f: seq<byte>, p: nat)
    requires p < |f| && IsAlpha(f[p])
    ensures 0 < |PieceAt(f, p)| <= 64 && p + |PieceAt(f, p)| <= |f|
    ensures forall k :: p <= k < p + |PieceAt(f, p)| ==> IsAlpha(f[k])
    ensures |PieceAt(f, p)| == 64 || p + |PieceAt(f, p)| == |f| || !IsAlpha(f[p + |PieceAt(f, p)|])
  {
  }

  lemma InPiece(back: nat, k: nat)
    requires back % 64 == 0 && k <= 64
    ensures (back + k) % 64 == 0 <==> k == 0 || k == 64
  {
  }

  /** Inside a piece no other piece starts. */
  lemma OnePiece(f: seq<byte>, p: nat, q: nat)
    requires IsStart(f, p) && p < q < p + |PieceAt(f, p)|
    ensures !IsStart(f, q)
  {
    hide PieceAt, Back;
    PieceIsMaximal(f, p);
    BackRun(f, p, q - p);
    InPiece(Back(f, p), q - p);
  }

  /** Where a piece ends the scan is at a boundary again. */
  lemma PieceEnds(f: seq<byte>, p: nat)
    requires IsStart(f, p)
    ensures Boundary(f, p + |PieceAt(f, p)|) && |PieceAt(f, p)| > 0
  {
    hide PieceAt, Back;
    PieceIsMaximal(f, p);
    var n := |PieceAt(f, p)|;
    if p + n < |f| && IsAlpha(f[p + n]) {
      BackRun(f, p, n);
      InPiece(Back(f, p), n);
    }
  }

  lemma BoundaryAfter(f: seq<byte>, p: nat)
    requires p < |f| && !IsAlpha(f[p])
    ensures Boundary(f, p + 1)
  {
  }

  /** The entries are exactly the pieces, each with the bytes that stand at its offset. */
  lemma {:induction false} EntriesExactly(path: seq<byte>, f: seq<byte>, p: nat, e: Entry)
    requires Boundary(f, p)
    ensures e in FileEntries(path, f, p) <==>
              && e.item.pathname == path && e.item.offset > p && IsStart(f, e.item.offset - 1)
              && e.keyword == PieceAt(f, e.item.offset - 1)
    decreases |f| - p
  {
    hide PieceAt, Back;
    if p == |f| {
    } else if !IsAlpha(f[p]) {
      BoundaryAfter(f, p);
      EntriesExactly(path, f, p + 1, e);
    } else {
      PieceIsMaximal(f, p);
      PieceEnds(f, p);
      EntriesExactly(path, f, p + |PieceAt(f, p)|, e);
      var q := e.item.offset - 1;
      if p < q < p + |PieceAt(f, p)| {
        OnePiece(f, p, q);
      }
    }
  }

  /** The entries come in the order of their places in the file. */
  lemma {:induction false} EntriesInOrder(path: seq<byte>, f: seq<byte>, p: nat)
    requires p <= |f|
    ensures forall i :: 0 <= i < |FileEntries(path, f, p)| ==> FileEntries(path, f, p)[i].item.offset > p
    ensures forall i, j :: 0 <= i < j < |FileEntries(path, f, p)| ==>
              FileEntries(path, f, p)[i].item.offset < FileEntries(path, f, p)[j].item.offset
    decreases |f| - p
  {
    if p == |f| {
    } else if !IsAlpha(f[p]) {
      EntriesInOrder(path, f, p + 1);
    } else {
      EntriesInOrder(path, f, p + |PieceAt(f, p)|);
    }
  }

  /** The letters of s, in order. */
  function Letters(s: seq<byte>): seq<byte>
  {
    if s == [] then [] else (if IsAlpha(s[0]) then [s[0]] else []) + Letters(s[1..])
  }

  function Concat(es: seq<Entry>): seq<byte>
  {
    if es == [] then [] else es[0].keyword + Concat(es[1..])
  }

  lemma {:induction false} LettersRun(s: seq<byte>, n: nat)
    requires n <= |s| && forall k :: 0 <= k < n ==> IsAlpha(s[k])
    ensures Letters(s) == s[..n] + Letters(s[n..])
  {
    if n > 0 {
      LettersRun(s[1..], n - 1);
      assert s[1..][n - 1..] == s[n..];
      assert [s[0]] + s[1..][..n - 1] == s[..n];
    }
  }

  lemma LettersSkip(f: seq<byte>, p: nat)
    requires p < |f| && !IsAlpha(f[p])
    ensures Letters(f[p..]) == Letters(f[p + 1..])
  {
    assert f[p..][1..] == f[p + 1..];
  }

  lemma LettersPiece(f: seq<byte>, p: nat)
    requires p < |f|
    ensures |PieceAt(f, p)| <= |f| - p && Letters(f[p..]) == PieceAt(f, p) + Letters(f[p + |PieceAt(f, p)|..])
  {
    hide Letters, Run;
    var n := Run(f, p, 64);
    var s := f[p..];
    assert forall k :: 0 <= k < n ==> s[k] == f[p + k];
    LettersRun(s, n);
    assert s[n..] == f[p + n..];
    assert s[..n] == f[p..p + n];
  }

  lemma ConcatFirst(e: Entry, es: seq<Entry>)
    ensures Concat([e] + es) == e.keyword + Concat(es)
  {
    assert ([e] + es)[1..] == es;
  }

  /** No letter of a file is lost or doubled: its words make up its letters. */
  lemma {:induction false} WordsMakeLetters(path: seq<byte>, f: seq<byte>, p: nat)
    requires p <= |f|
    ensures Concat(FileEntries(path, f, p)) == Letters(f[p..])
    decreases |f| - p
  {
    hide PieceAt;
    if p == |f| {
    } else if !IsAlpha(f[p]) {
      WordsMakeLetters(path, f, p + 1);
      LettersSkip(f, p);
    } else {
      hide Letters, Concat;
      LettersPiece(f, p);
      PieceIsMaximal(f, p);
      WordsMakeLetters(path, f, p + |PieceAt(f, p)|);
      ConcatFirst(Entry(PieceAt(f, p), Location(path, p + 1)), FileEntries(path, f, p + |PieceAt(f, p)|));
    }
  }
}
