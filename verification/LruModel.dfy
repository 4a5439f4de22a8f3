/**
 Least-recently-used replacement on sequences of sectors, the most recent first: what the cache of
 2/CacheSetor.c is for, stated without its lists.
*/
module LruModel {

  /** s without x, in the same order. */
  function Without(s: seq<int>, x: int): (r: seq<int>)
    ensures |r| <= |s|
    ensures forall y :: y in r <==> y in s && y != x
  {
    if s == [] then []
    else if s[0] == x then Without(s[1..], x)
    else [s[0]] + Without(s[1..], x)
  }

  ghost predicate Distinct<T>(s: seq<T>)
  {
    forall i, j :: 0 <= i < j < |s| ==> s[i] != s[j]
  }

  function Prefix<T>(s: seq<T>, n: nat): seq<T>
  {
    if n < |s| then s[..n] else s
  }

  /** One read of x by a cache of the given capacity: a hit moves x to the front, a miss also evicts the last. */
  function Touch(capacity: nat, lru: seq<int>, x: int): seq<int>
  {
    if x in lru then [x] + Without(lru, x) else Prefix([x] + lru, capacity)
  }

  /** What a cache holds after a sequence of reads, starting empty. */
  function CacheAfter(capacity: nat, sectors: seq<int>): seq<int>
  {
    if sectors == [] then [] else Touch(capacity, CacheAfter(capacity, sectors[..|sectors| - 1]), sectors[|sectors| - 1])
  }

  /** How many of the reads had to go to the disk. */
  function Misses(capacity: nat, sectors: seq<int>): nat
  {
    if sectors == [] then 0
    else
      var before := sectors[..|sectors| - 1];
      Misses(capacity, before) + (if sectors[|sectors| - 1] in CacheAfter(capacity, before) then 0 else 1)
  }

  /** The distinct sectors read, the most recently read first: no capacity is involved. */
  function Recent(sectors: seq<int>): seq<int>
  {
    if sectors == [] then [] else [sectors[|sectors| - 1]] + Without(Recent(sectors[..|sectors| - 1]), sectors[|sectors| - 1])
  }

  /** The position of the last read of x. */
  function LastRead(sectors: seq<int>, x: int): (k: nat)
    requires x in sectors
    ensures k < |sectors| && sectors[k] == x
    ensures forall j :: k < j < |sectors| ==> sectors[j] != x
  {
    if sectors[|sectors| - 1] == x then |sectors| - 1 else LastRead(sectors[..|sectors| - 1], x)
  }

  // ----- facts about Without

  lemma {:induction false} WithoutAbsent(s: seq<int>, x: int)
    requires x !in s
    ensures Without(s, x) == s
  {
    if s != [] {
      WithoutAbsent(s[1..], x);
    }
  }

  lemma {:induction false} WithoutAt(s: seq<int>, k: nat)
    requires Distinct(s) && k < |s|
    ensures Without(s, s[k]) == s[..k] + s[k + 1..]
  {
    if k == 0 {
      WithoutAbsent(s[1..], s[0]);
    } else {
      WithoutAt(s[1..], k - 1);
      assert s[0] != s[k];
      assert s[..k] + s[k + 1..] == [s[0]] + (s[1..][..k - 1] + s[1..][k..]);
    }
  }

  lemma WithoutDistinct(s: seq<int>, x: int)
    requires Distinct(s)
    ensures Distinct(Without(s, x))
  {
    if x in s {
      var k :| 0 <= k < |s| && s[k] == x;
      WithoutAt(s, k);
    } else {
      WithoutAbsent(s, x);
    }
  }

  /** Removing an element commutes with cutting the sequence after it. */
  lemma PrefixWithout(s: seq<int>, x: int, n: nat)
    requires Distinct(s) && n > 0
    ensures x in Prefix(s, n) ==> Without(Prefix(s, n), x) == Prefix(Without(s, x), n - 1)
    ensures x !in Prefix(s, n) ==> Prefix(Without(s, x), n - 1) == Prefix(s, n - 1)
  {
    var p := Prefix(s, n);
    if x in s {
      var k :| 0 <= k < |s| && s[k] == x;
      WithoutAt(s, k);
      if k < |p| {
        assert p[k] == x;
        WithoutAt(p, k);
      }
    } else {
      WithoutAbsent(s, x);
    }
  }

  // ----- what Recent is

  /** Recent lists the sectors that were read, each once. */
  lemma {:induction false} RecentIsDistinct(sectors: seq<int>)
    ensures Distinct(Recent(sectors))
    ensures forall x :: x in Recent(sectors) <==> x in sectors
  {
    if sectors != [] {
      var before, x := sectors[..|sectors| - 1], sectors[|sectors| - 1];
      RecentIsDistinct(before);
      WithoutDistinct(Recent(before), x);
      var w := Without(Recent(before), x);
      assert Recent(sectors) == [x] + w && sectors == before + [x];
      assert x !in w;
    }
  }

  /** ... and in decreasing order of their last reads. */
  lemma {:induction false} RecentIsRecencyOrder(sectors: seq<int>, i: nat, j: nat)
    requires i < j < |Recent(sectors)|
    ensures Recent(sectors)[i] in sectors && Recent(sectors)[j] in sectors
    ensures LastRead(sectors, Recent(sectors)[i]) > LastRead(sectors, Recent(sectors)[j])
  {
    hide Without;
    RecentIsDistinct(sectors);
    var n := |sectors| - 1;
    var before, x := sectors[..n], sectors[n];
    hide Recent, LastRead;
    RecentStep(sectors);
    var w := Without(Recent(before), x);
    RecentIsDistinct(before);
    WithoutAbsents(Recent(before), x);
    var y, z := Recent(sectors)[i], Recent(sectors)[j];
    assert z == w[j - 1] && z in w;
    LastReadStep(sectors, y);
    LastReadStep(sectors, z);
    if i > 0 {
      assert y == w[i - 1] && y in w;
      var a, b := WithoutKeepsOrder(Recent(before), x, i - 1, j - 1);
      RecentIsRecencyOrder(before, a, b);
    }
  }

  lemma RecentStep(sectors: seq<int>)
    requires sectors != []
    ensures var n := |sectors| - 1;
            Recent(sectors) == [sectors[n]] + Without(Recent(sectors[..n]), sectors[n])
  {
  }

  lemma LastReadStep(sectors: seq<int>, x: int)
    requires x in sectors
    ensures var n := |sectors| - 1;
            if sectors[n] == x then LastRead(sectors, x) == n
            else x in sectors[..n] && LastRead(sectors, x) == LastRead(sectors[..n], x) < n
  {
    assert sectors == sectors[..|sectors| - 1] + [sectors[|sectors| - 1]];
  }

  lemma WithoutAbsents(s: seq<int>, x: int)
    requires Distinct(s)
    ensures x !in Without(s, x)
  {
    if x in s {
      var k :| 0 <= k < |s| && s[k] == x;
      WithoutAt(s, k);
    } else {
      WithoutAbsent(s, x);
    }
  }

  lemma WithoutKeepsOrder(s: seq<int>, x: int, i: nat, j: nat) returns (a: nat, b: nat)
    requires Distinct(s) && i < j < |Without(s, x)|
    ensures a < b < |s| && s[a] == Without(s, x)[i] && s[b] == Without(s, x)[j]
  {
    a, b := i, j;
    if x in s {
      var k :| 0 <= k < |s| && s[k] == x;
      WithoutAt(s, k);
      a, b := if i < k then i else i + 1, if j < k then j else j + 1;
    } else {
      WithoutAbsent(s, x);
    }
  }

  // ----- the main results

  lemma TouchRecentPrefix(r: seq<int>, capacity: nat, x: int)
    requires Distinct(r) && capacity > 0
    ensures Touch(capacity, Prefix(r, capacity), x) == Prefix([x] + Without(r, x), capacity)
  {
    PrefixWithout(r, x, capacity);
    assert Prefix([x] + Without(r, x), capacity) == [x] + Prefix(Without(r, x), capacity - 1);
    var c := Prefix(r, capacity);
    if x !in c {
      assert Prefix([x] + c, capacity) == [x] + Prefix(r, capacity - 1);
    }
  }

  /** A cache holds exactly the most recently read sectors, as many as fit, in order of recency. */
  lemma {:induction false} CacheIsRecentPrefix(capacity: nat, sectors: seq<int>)
    requires capacity > 0
    ensures CacheAfter(capacity, sectors) == Prefix(Recent(sectors), capacity)
  {
    if sectors != [] {
      var before, x := sectors[..|sectors| - 1], sectors[|sectors| - 1];
      CacheIsRecentPrefix(capacity, before);
      RecentIsDistinct(before);
      TouchRecentPrefix(Recent(before), capacity, x);
    }
  }

  /** Inclusion: after the same reads, a larger cache holds all that a smaller one does, in the same order. */
  lemma LruInclusion(small: nat, large: nat, sectors: seq<int>)
    requires 0 < small <= large
    ensures CacheAfter(small, sectors) <= CacheAfter(large, sectors)
  {
    CacheIsRecentPrefix(small, sectors);
    CacheIsRecentPrefix(large, sectors);
  }

  /** More cache never means more disk reads. */
  lemma {:induction false} MissesNeverGrow(small: nat, large: nat, sectors: seq<int>)
    requires 0 < small <= large
    ensures Misses(large, sectors) <= Misses(small, sectors)
  {
    if sectors != [] {
      var before := sectors[..|sectors| - 1];
      MissesNeverGrow(small, large, before);
      LruInclusion(small, large, before);
    }
  }
}
