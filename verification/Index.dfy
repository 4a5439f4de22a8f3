/** The in-memory word index of 2/index.c. */
module Indexes {
  import opened Bytes

  datatype Location = Location(pathname: seq<byte>, offset: nat)

  /** One call of Index_StoreEntry. */
  datatype Entry = Entry(keyword: seq<byte>, item: Location)

  /** The locations stored for a word, the newest first. */
  function Found(log: seq<Entry>, w: seq<byte>): seq<Location>
  {
    if log == [] then []
    else
      var n := |log| - 1;
      (if log[n].keyword == w then [log[n].item] else []) + Found(log[..n], w)
  }

  lemma {:induction false} FoundConcat(a: seq<Entry>, b: seq<Entry>, w: seq<byte>)
    ensures Found(a + b, w) == Found(b, w) + Found(a, w)
  {
    if b == [] {
      assert a + b == a;
    } else {
      var n := |b| - 1;
      FoundConcat(a, b[..n], w);
      assert (a + b)[..|a + b| - 1] == a + b[..n];
    }
  }

  /** Nothing but what was stored for the word, and all of it. */
  lemma {:induction false} FoundExactly(log: seq<Entry>, w: seq<byte>, l: Location)
    ensures l in Found(log, w) <==> Entry(w, l) in log
  {
    if log != [] {
      var n := |log| - 1;
      FoundExactly(log[..n], w, l);
      assert log == log[..n] + [log[n]];
    }
  }

  class Index {
    var hashTable: map<seq<byte>, seq<Location>>
    /** Every entry ever stored, in order. */
    ghost var log: seq<Entry>

    ghost predicate Valid()
      reads this
    {
      forall w :: (if w in hashTable then hashTable[w] else []) == Found(log, w)
    }

    constructor ()
      ensures Valid() && log == []
    {
      hashTable, log := map[], [];
    }

    /** Index_StoreEntry */
    method StoreEntry(keyword: seq<byte>, pathname: seq<byte>, offset: nat) returns (ok: bool)
      requires Valid()
      modifies this
      ensures Valid() && ok && log == old(log) + [Entry(keyword, Location(pathname, offset))]
    {
      var newItem := Location(pathname, offset);
      if keyword !in hashTable {
        hashTable := hashTable[keyword := []];
      }
      hashTable := hashTable[keyword := [newItem] + hashTable[keyword]];
      log := log + [Entry(keyword, newItem)];
      assert log[..|log| - 1] == old(log);
      return true;
    }

    /** Index_RetrieveEntry: NULL is the empty list. */
    method RetrieveEntry(keyword: seq<byte>) returns (locations: seq<Location>)
      requires Valid()
      ensures locations == Found(log, keyword)
    {
      locations := if keyword in hashTable then hashTable[keyword] else [];
    }
  }
}
