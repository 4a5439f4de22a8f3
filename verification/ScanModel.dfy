/** What the scan of 2/scan.c is to bring about, on values: which files are indexed, and what a search then finds. */
module ScanModel {
  import opened Bytes
  import opened FileopsTable
  import opened Pathstores
  import opened TreeWalk
  import opened Indexes
  import opened Words

  /** The index of the files of paths, scanned in this order. */
  ghost function AllEntries(paths: seq<seq<byte>>, files: Files): seq<Entry>
  {
    if paths == [] then []
    else
      var n := |paths| - 1;
      AllEntries(paths[..n], files) + FileEntries(paths[n], At(files, paths[n]), 0)
  }

  ghost predicate HasContents(paths: seq<seq<byte>>, files: Files, f: seq<byte>)
  {
    exists p :: p in paths && At(files, p) == f
  }

  /** The files of s and, after them, those of visits whose contents were not there before, in order. */
  ghost function Firsts(s: seq<seq<byte>>, visits: seq<seq<byte>>, files: Files): seq<seq<byte>>
    decreases |visits|
  {
    if visits == [] then s
    else
      var n := |visits| - 1;
      var t := Firsts(s, visits[..n], files);
      if HasContents(t, files, At(files, visits[n])) then t else t + [visits[n]]
  }

  ghost predicate AllDifferent(paths: seq<seq<byte>>, files: Files)
  {
    forall i, j {:trigger At(files, paths[i]), At(files, paths[j])} :: 0 <= i < j < |paths| ==>
      At(files, paths[i]) != At(files, paths[j])
  }

  /** No two of them have the same contents, and no contents are missing. */
  lemma {:induction false} FirstsCover(visits: seq<seq<byte>>, files: Files)
    ensures AllDifferent(Firsts([], visits, files), files)
    ensures forall p :: p in visits ==> HasContents(Firsts([], visits, files), files, At(files, p))
    ensures forall p :: p in Firsts([], visits, files) ==> p in visits
    decreases |visits|
  {
    if visits != [] {
      var n := |visits| - 1;
      var t := Firsts([], visits[..n], files);
      FirstsCover(visits[..n], files);
      var r := Firsts([], visits, files);
      assert visits == visits[..n] + [visits[n]];
      forall p | p in visits ensures HasContents(r, files, At(files, p)) {
        if p in visits[..n] {
          var q :| q in t && At(files, q) == At(files, p);
          assert q in r;
        } else if r != t {
          assert visits[n] in r;
        }
      }
      if r != t {
        AllDifferentMore(t, visits[n], files);
      }
    }
  }

  lemma AllDifferentMore(s: seq<seq<byte>>, path: seq<byte>, files: Files)
    ensures AllDifferent(s + [path], files) <==> AllDifferent(s, files) && !HasContents(s, files, At(files, path))
  {
    var more := s + [path];
    if AllDifferent(s, files) && !HasContents(s, files, At(files, path)) {
      forall i, j | 0 <= i < j < |more| ensures At(files, more[i]) != At(files, more[j]) {
        assert j < |s| || more[i] in s;
      }
    }
    if AllDifferent(more, files) {
      forall i, j | 0 <= i < j < |s| ensures At(files, s[i]) != At(files, s[j]) {
        assert At(files, more[i]) != At(files, more[j]);
      }
      forall p | p in s ensures At(files, p) != At(files, path) {
        var i :| 0 <= i < |s| && s[i] == p;
        assert At(files, more[i]) != At(files, more[|s|]);
      }
    }
  }

  /** b starts with a. */
  ghost predicate Grown(a: seq<seq<byte>>, b: seq<seq<byte>>)
  {
    |a| <= |b| && forall i :: 0 <= i < |a| ==> a[i] == b[i]
  }

  // ----- what Scan_File brings about

  /** Where a scan stands: the calls of Scan_File, what is stored, what was indexed, and whether a checksum is missing. */
  datatype Progress = Progress(turns: seq<Turn>, stored: set<seq<byte>>, scanned: seq<seq<byte>>, unchecked: bool)

  function Nothing(): Progress
  {
    Progress([], {}, [], false)
  }

  /** A path that is not discarded is stored; it is indexed if it can be opened. */
  ghost function AfterFile(discardDups: bool, files: Files, p: Progress, t: Turn): Progress
  {
    if discardDups && Hidden(p.stored, files, t.path, t.free) then p.(turns := p.turns + [t])
    else
      Progress(p.turns + [t], p.stored + {t.path}, if t.free > 0 then p.scanned + [t.path] else p.scanned,
               p.unchecked || !discardDups)
  }

  ghost function After(discardDups: bool, files: Files, p: Progress, turns: seq<Turn>): Progress
    decreases |turns|
  {
    if turns == [] then p
    else
      var n := |turns| - 1;
      AfterFile(discardDups, files, After(discardDups, files, p, turns[..n]), turns[n])
  }

  lemma {:induction false} AfterMore(discardDups: bool, files: Files, p: Progress, a: seq<Turn>, b: seq<Turn>)
    ensures After(discardDups, files, p, a + b) == After(discardDups, files, After(discardDups, files, p, a), b)
    decreases |b|
  {
    hide Hidden;
    if b == [] {
      assert a + b == a;
    } else {
      var n := |b| - 1;
      assert (a + b)[..|a + b| - 1] == a + b[..n];
      AfterMore(discardDups, files, p, a, b[..n]);
    }
  }

  lemma {:induction false} AfterGrows(discardDups: bool, files: Files, p: Progress, turns: seq<Turn>)
    ensures var q := After(discardDups, files, p, turns);
            && q.turns == p.turns + turns && (discardDups ==> q.unchecked == p.unchecked)
            && Grown(p.scanned, q.scanned) && |q.scanned| <= |p.scanned| + |turns|
    decreases |turns|
  {
    hide Hidden;
    if turns == [] {
      assert p.turns + turns == p.turns;
    } else {
      var n := |turns| - 1;
      AfterGrows(discardDups, files, p, turns[..n]);
      assert p.turns + turns == (p.turns + turns[..n]) + [turns[n]];
    }
  }

  /**
   What these calls of Scan_File bring about. When duplicates are discarded after other files were stored without a
   checksum, it depends on memory that was not written; still nothing that was indexed is lost.
  */
  ghost predicate Outcome(discardDups: bool, files: Files, turns: seq<Turn>, p: Progress, q: Progress)
  {
    && q.turns == p.turns + turns && Grown(p.scanned, q.scanned) && |q.scanned| <= |p.scanned| + |turns|
    && (!(discardDups && p.unchecked) ==> q == After(discardDups, files, p, turns))
  }

  lemma OutcomeNone(discardDups: bool, files: Files, p: Progress)
    ensures Outcome(discardDups, files, [], p, p)
  {
    assert p.turns + [] == p.turns;
  }

  lemma OutcomeOne(discardDups: bool, files: Files, t: Turn, p: Progress, q: Progress)
    requires q.turns == p.turns + [t] && (q.scanned == p.scanned || q.scanned == p.scanned + [t.path])
    requires !(discardDups && p.unchecked) ==> q == AfterFile(discardDups, files, p, t)
    ensures Outcome(discardDups, files, [t], p, q)
  {
    hide AfterFile;
    assert [t][..0] == [];
    assert After(discardDups, files, p, []) == p;
  }

  lemma OutcomeMore(discardDups: bool, files: Files, a: seq<Turn>, b: seq<Turn>, p: Progress, q: Progress, r: Progress)
    requires Outcome(discardDups, files, a, p, q) && Outcome(discardDups, files, b, q, r)
    ensures Outcome(discardDups, files, a + b, p, r)
  {
    hide After;
    AfterMore(discardDups, files, p, a, b);
    AfterGrows(discardDups, files, p, a);
    assert p.turns + (a + b) == (p.turns + a) + b;
  }

  // ----- which files are indexed

  /** Without discarding: whatever can be opened. */
  lemma {:induction false} IndexedOfAll(files: Files, turns: seq<Turn>, path: seq<byte>)
    ensures path in After(false, files, Nothing(), turns).scanned <==>
              exists t :: t in turns && t.path == path && t.free > 0
    decreases |turns|
  {
    if turns != [] {
      var n := |turns| - 1;
      IndexedOfAll(files, turns[..n], path);
      assert turns == turns[..n] + [turns[n]];
    }
  }

  ghost predicate NoRepeats<T>(s: seq<T>)
  {
    forall i, j :: 0 <= i < j < |s| ==> s[i] != s[j]
  }

  /** The paths of the calls that find a free slot, in order. */
  function Opened(turns: seq<Turn>): (paths: seq<seq<byte>>)
    ensures forall p :: p in paths ==> exists t :: t in turns && t.path == p
  {
    if turns == [] then []
    else
      var n := |turns| - 1;
      assert forall t :: t in turns[..n] ==> t in turns;
      assert turns[n] in turns;
      Opened(turns[..n]) + (if turns[n].free > 0 then [turns[n].path] else [])
  }

  /** Without discarding, each call indexes its file if it can be opened, as often as there are calls. */
  lemma {:induction false} IndexedInOrder(files: Files, turns: seq<Turn>)
    ensures After(false, files, Nothing(), turns).scanned == Opened(turns)
  {
    if turns != [] {
      IndexedInOrder(files, turns[..|turns| - 1]);
    }
  }

  lemma {:induction false} OpenedOnce(turns: seq<Turn>)
    requires forall i, j :: 0 <= i < j < |turns| ==> turns[i].path != turns[j].path
    ensures NoRepeats(Opened(turns))
  {
    if turns != [] {
      var n := |turns| - 1;
      OpenedOnce(turns[..n]);
      forall t | t in turns[..n] ensures t.path != turns[n].path {
        var i :| 0 <= i < n && turns[i] == t;
      }
      var before := Opened(turns[..n]);
      assert turns[n].path !in before;
      assert Opened(turns) == before + (if turns[n].free > 0 then [turns[n].path] else []);
    }
  }

  /** With discarding, no path is indexed twice, whatever the calls. */
  lemma {:induction false} DiscardingIndexesOnce(files: Files, turns: seq<Turn>)
    ensures var p := After(true, files, Nothing(), turns);
            NoRepeats(p.scanned) && forall q :: q in p.scanned ==> q in p.stored
    decreases |turns|
  {
    if turns != [] {
      hide HasStored;
      DiscardingIndexesOnce(files, turns[..|turns| - 1]);
    }
  }

  /** With or without discarding, what is indexed was opened. */
  lemma {:induction false} IndexedWasOpened(discardDups: bool, files: Files, turns: seq<Turn>, path: seq<byte>)
    requires path in After(discardDups, files, Nothing(), turns).scanned
    ensures exists t :: t in turns && t.path == path && t.free > 0
    decreases |turns|
  {
    hide Hidden;
    if turns != [] {
      var n := |turns| - 1;
      if path in After(discardDups, files, Nothing(), turns[..n]).scanned {
        IndexedWasOpened(discardDups, files, turns[..n], path);
        var t :| t in turns[..n] && t.path == path && t.free > 0;
        assert t in turns;
      } else {
        assert turns[n] in turns;
      }
    }
  }

  lemma FirstIsIndexed(discardDups: bool, files: Files, turns: seq<Turn>)
    requires turns != [] && turns[0].free > 0
    ensures turns[0].path in After(discardDups, files, Nothing(), turns).scanned
  {
    hide After, Grown, AfterFile;
    var first, rest := turns[..1], turns[1..];
    assert turns == first + rest;
    AfterMore(discardDups, files, Nothing(), first, rest);
    FirstTurn(discardDups, files, turns[0]);
    assert first == [turns[0]];
    AfterGrows(discardDups, files, After(discardDups, files, Nothing(), first), rest);
    GrownKeeps(After(discardDups, files, Nothing(), first).scanned, After(discardDups, files, Nothing(), turns).scanned);
  }

  lemma FirstTurn(discardDups: bool, files: Files, t: Turn)
    requires t.free > 0
    ensures After(discardDups, files, Nothing(), [t]).scanned == [t.path]
  {
    assert [t][..0] == [];
    assert After(discardDups, files, Nothing(), []) == Nothing();
    assert !Hidden({}, files, t.path, t.free);
  }

  lemma GrownKeeps(a: seq<seq<byte>>, b: seq<seq<byte>>)
    requires Grown(a, b)
    ensures forall p :: p in a ==> p in b
  {
    forall p | p in a ensures p in b {
      var i :| 0 <= i < |a| && a[i] == p;
      assert b[i] == p;
    }
  }

  /** A file with the same contents came before. */
  ghost predicate Twin(files: Files, turns: seq<Turn>, i: nat)
    requires i < |turns|
  {
    exists j :: 0 <= j < i && At(files, turns[j].path) == At(files, turns[i].path)
  }

  /** The path came before, and was stored: as the first of its contents, or when the contents could not be compared. */
  ghost predicate StoredBefore(files: Files, turns: seq<Turn>, i: nat, path: seq<byte>)
    requires i <= |turns|
  {
    exists j :: 0 <= j < i && turns[j].path == path && (turns[j].free < 2 || !Twin(files, turns, j))
  }

  /**
   With discarding: a file is indexed if it can be opened and is the first of its contents, or if no second file can be
   opened to compare it with and its own path is not stored.
  */
  ghost predicate Adds(files: Files, turns: seq<Turn>, i: nat)
    requires i < |turns|
  {
    && turns[i].free >= 1 && !StoredBefore(files, turns, i, turns[i].path)
    && (turns[i].free == 1 || !Twin(files, turns, i))
  }

  ghost function AfterFirst(files: Files, turns: seq<Turn>, n: nat): Progress
    requires n <= |turns|
  {
    After(true, files, Nothing(), turns[..n])
  }

  lemma AfterNext(files: Files, turns: seq<Turn>, n: nat)
    requires n < |turns|
    ensures AfterFirst(files, turns, n + 1) == AfterFile(true, files, AfterFirst(files, turns, n), turns[n])
  {
    hide AfterFile;
    assert turns[..n + 1][..n] == turns[..n];
  }

  lemma StoredNext(files: Files, turns: seq<Turn>, n: nat, q: seq<byte>)
    requires n < |turns|
    ensures StoredBefore(files, turns, n + 1, q) <==>
              || StoredBefore(files, turns, n, q)
              || (q == turns[n].path && (turns[n].free < 2 || !Twin(files, turns, n)))
  {
    hide Twin;
    if j :| 0 <= j < n && turns[j].path == q && (turns[j].free < 2 || !Twin(files, turns, j)) {
      assert 0 <= j < n + 1;
    }
    if q == turns[n].path && (turns[n].free < 2 || !Twin(files, turns, n)) {
      assert StoredBefore(files, turns, n + 1, q);
    }
  }

  ghost predicate VisitedBefore(files: Files, turns: seq<Turn>, n: nat, f: seq<byte>)
    requires n <= |turns|
  {
    exists j :: 0 <= j < n && At(files, turns[j].path) == f
  }

  lemma VisitedNext(files: Files, turns: seq<Turn>, n: nat, f: seq<byte>)
    requires n < |turns|
    ensures VisitedBefore(files, turns, n + 1, f) <==> VisitedBefore(files, turns, n, f) || At(files, turns[n].path) == f
  {
    if j :| 0 <= j < n && At(files, turns[j].path) == f {
      assert 0 <= j < n + 1;
    }
    if At(files, turns[n].path) == f {
      assert VisitedBefore(files, turns, n + 1, f);
    }
  }

  lemma HasStoredMore(stored: set<seq<byte>>, path: seq<byte>, files: Files, f: seq<byte>)
    ensures HasStored(stored + {path}, files, f) <==> HasStored(stored, files, f) || At(files, path) == f
  {
    if q :| q in stored && At(files, q) == f {
      assert q in stored + {path};
    }
    if At(files, path) == f {
      assert path in stored + {path};
    }
  }

  /** What is stored after n turns: no contents are missing. */
  lemma {:induction false} StoredExactly(files: Files, turns: seq<Turn>, n: nat, q: seq<byte>)
    requires n <= |turns|
    ensures q in AfterFirst(files, turns, n).stored <==> StoredBefore(files, turns, n, q)
  {
    if n == 0 {
    } else {
      hide After, StoredBefore, Twin, HasStored, AfterFirst;
      var m := n - 1;
      var path := turns[m].path;
      StoredExactly(files, turns, m, q);
      StoredExactly(files, turns, m, path);
      NoContentsMissing(files, turns, m, At(files, path));
      TwinIsVisited(files, turns, m);
      AfterNext(files, turns, m);
      StoredNext(files, turns, m, q);
    }
  }

  lemma TwinIsVisited(files: Files, turns: seq<Turn>, i: nat)
    requires i < |turns|
    ensures Twin(files, turns, i) <==> VisitedBefore(files, turns, i, At(files, turns[i].path))
  {
  }

  lemma {:induction false} NoContentsMissing(files: Files, turns: seq<Turn>, n: nat, f: seq<byte>)
    requires n <= |turns|
    ensures HasStored(AfterFirst(files, turns, n).stored, files, f) <==> VisitedBefore(files, turns, n, f)
  {
    if n == 0 {
    } else {
      hide After, HasStored, VisitedBefore, AfterFirst;
      var m := n - 1;
      var t, p := turns[m], AfterFirst(files, turns, m);
      NoContentsMissing(files, turns, m, f);
      AfterNext(files, turns, m);
      VisitedNext(files, turns, m, f);
      HasStoredMore(p.stored, t.path, files, f);
      if t.path in p.stored && At(files, t.path) == f {
        HasStoredOf(p.stored, t.path, files);
      }
    }
  }

  lemma HasStoredOf(stored: set<seq<byte>>, path: seq<byte>, files: Files)
    requires path in stored
    ensures HasStored(stored, files, At(files, path))
  {
  }

  /** Turn n adds its file to the index exactly as Adds says. */
  lemma ScannedNext(files: Files, turns: seq<Turn>, n: nat)
    requires n < |turns|
    ensures AfterFirst(files, turns, n + 1).scanned
         == AfterFirst(files, turns, n).scanned + if Adds(files, turns, n) then [turns[n].path] else []
  {
    hide After, StoredBefore, Twin, HasStored, AfterFirst;
    var t := turns[n];
    AfterNext(files, turns, n);
    StoredExactly(files, turns, n, t.path);
    NoContentsMissing(files, turns, n, At(files, t.path));
    TwinIsVisited(files, turns, n);
    if t.free >= 2 && !Twin(files, turns, n) {
      FirstIsNotStored(files, turns, n);
    }
  }

  lemma FirstIsNotStored(files: Files, turns: seq<Turn>, i: nat)
    requires i < |turns| && !Twin(files, turns, i)
    ensures !StoredBefore(files, turns, i, turns[i].path)
  {
  }

  /** Contents are indexed by the turns that Adds names. */
  ghost predicate IndexedBefore(files: Files, turns: seq<Turn>, n: nat, f: seq<byte>)
    requires n <= |turns|
  {
    exists j :: 0 <= j < n && Adds(files, turns, j) && At(files, turns[j].path) == f
  }

  lemma IndexedNext(files: Files, turns: seq<Turn>, n: nat, f: seq<byte>)
    requires n < |turns|
    ensures IndexedBefore(files, turns, n + 1, f) <==>
              IndexedBefore(files, turns, n, f) || (Adds(files, turns, n) && At(files, turns[n].path) == f)
  {
    hide Adds;
    if j :| 0 <= j < n && Adds(files, turns, j) && At(files, turns[j].path) == f {
      assert 0 <= j < n + 1;
    }
    if Adds(files, turns, n) && At(files, turns[n].path) == f {
      assert IndexedBefore(files, turns, n + 1, f);
    }
  }

  lemma HasContentsMore(paths: seq<seq<byte>>, path: seq<byte>, files: Files, f: seq<byte>)
    ensures HasContents(paths + [path], files, f) <==> HasContents(paths, files, f) || At(files, path) == f
  {
    if q :| q in paths && At(files, q) == f {
      assert q in paths + [path];
    }
    if At(files, path) == f {
      assert path in paths + [path];
    }
  }

  /** With discarding, contents are found in the index if and only if some turn indexes them. */
  lemma {:induction false} IndexedExactly(files: Files, turns: seq<Turn>, n: nat, f: seq<byte>)
    requires n <= |turns|
    ensures HasContents(AfterFirst(files, turns, n).scanned, files, f) <==> IndexedBefore(files, turns, n, f)
  {
    if n == 0 {
    } else {
      hide After, HasContents, IndexedBefore, Adds, AfterFirst;
      var m := n - 1;
      IndexedExactly(files, turns, m, f);
      ScannedNext(files, turns, m);
      IndexedNext(files, turns, m, f);
      var s := AfterFirst(files, turns, m).scanned;
      HasContentsMore(s, turns[m].path, files, f);
      assert s + [] == s;
    }
  }

  /** No two turns before n index the same contents. */
  ghost predicate OnceEach(files: Files, turns: seq<Turn>, n: nat)
    requires n <= |turns|
  {
    forall i, j :: 0 <= i < j < n && Adds(files, turns, i) && Adds(files, turns, j) ==>
      At(files, turns[i].path) != At(files, turns[j].path)
  }

  lemma OnceEachNext(files: Files, turns: seq<Turn>, n: nat)
    requires n < |turns|
    ensures OnceEach(files, turns, n + 1) <==>
              OnceEach(files, turns, n)
              && !(Adds(files, turns, n) && IndexedBefore(files, turns, n, At(files, turns[n].path)))
  {
    hide Adds;
    if OnceEach(files, turns, n) && !(Adds(files, turns, n) && IndexedBefore(files, turns, n, At(files, turns[n].path))) {
      forall i, j | 0 <= i < j < n + 1 && Adds(files, turns, i) && Adds(files, turns, j)
        ensures At(files, turns[i].path) != At(files, turns[j].path) {
        if j == n {
          assert 0 <= i < n;
        }
      }
    }
  }

  /** The indexed files differ from each other if and only if no contents are indexed twice. */
  lemma {:induction false} DifferentExactly(files: Files, turns: seq<Turn>, n: nat)
    requires n <= |turns|
    ensures AllDifferent(AfterFirst(files, turns, n).scanned, files) <==> OnceEach(files, turns, n)
  {
    hide After, AfterFile, HasContents, IndexedBefore, Adds, AfterFirst, OnceEach, AllDifferent, At;
    if n == 0 {
      NothingDiffers(files, turns);
    } else {
      var m := n - 1;
      var s := AfterFirst(files, turns, m).scanned;
      DifferentExactly(files, turns, m);
      ScannedNext(files, turns, m);
      OnceEachNext(files, turns, m);
      IndexedExactly(files, turns, m, At(files, turns[m].path));
      AllDifferentMore(s, turns[m].path, files);
      assert s + [] == s;
    }
  }

  lemma NothingDiffers(files: Files, turns: seq<Turn>)
    ensures AllDifferent(AfterFirst(files, turns, 0).scanned, files) && OnceEach(files, turns, 0)
  {
  }

  /** Exactly one turn indexes these contents. */
  ghost predicate AddedOnce(files: Files, turns: seq<Turn>, f: seq<byte>)
  {
    exists k: nat {:trigger Adds(files, turns, k)} :: k < |turns| && Adds(files, turns, k) && At(files, turns[k].path) == f
      && forall l: nat {:trigger Adds(files, turns, l)} :: l < |turns| && Adds(files, turns, l) && At(files, turns[l].path) == f ==> l == k
  }

  /** What discarding is for: the indexed files differ from each other, and no contents of a visited file are missing. */
  ghost predicate Deduplicated(files: Files, turns: seq<Turn>, scanned: seq<seq<byte>>)
  {
    AllDifferent(scanned, files) && forall t :: t in turns ==> HasContents(scanned, files, At(files, t.path))
  }

  /** It is achieved if and only if, by slots and paths, exactly one turn indexes the contents of each visited file. */
  lemma DiscardingWorksIff(files: Files, turns: seq<Turn>)
    ensures Deduplicated(files, turns, After(true, files, Nothing(), turns).scanned)
            <==> forall t :: t in turns ==> AddedOnce(files, turns, At(files, t.path))
  {
    hide After, HasContents, AllDifferent, Adds, AddedOnce, OnceEach, IndexedBefore, AfterFirst, At;
    var n, scanned := |turns|, After(true, files, Nothing(), turns).scanned;
    AfterAll(files, turns);
    DifferentExactly(files, turns, n);
    forall t | t in turns ensures HasContents(scanned, files, At(files, t.path)) <==> IndexedBefore(files, turns, n, At(files, t.path)) {
      IndexedExactly(files, turns, n, At(files, t.path));
    }
    AddedOnceIff(files, turns);
  }

  lemma AfterAll(files: Files, turns: seq<Turn>)
    ensures AfterFirst(files, turns, |turns|) == After(true, files, Nothing(), turns)
  {
    assert turns[..|turns|] == turns;
  }

  lemma AddedOnceIff(files: Files, turns: seq<Turn>)
    ensures OnceEach(files, turns, |turns|) && (forall t :: t in turns ==> IndexedBefore(files, turns, |turns|, At(files, t.path)))
            <==> forall t :: t in turns ==> AddedOnce(files, turns, At(files, t.path))
  {
    hide Adds;
    var n := |turns|;
    if OnceEach(files, turns, n) && forall t :: t in turns ==> IndexedBefore(files, turns, n, At(files, t.path)) {
      forall t | t in turns ensures AddedOnce(files, turns, At(files, t.path)) {
        var k :| 0 <= k < n && Adds(files, turns, k) && At(files, turns[k].path) == At(files, t.path);
        assert Adds(files, turns, k);
      }
    }
    if forall t :: t in turns ==> AddedOnce(files, turns, At(files, t.path)) {
      forall i, j | 0 <= i < j < n && Adds(files, turns, i) && Adds(files, turns, j)
        ensures At(files, turns[i].path) != At(files, turns[j].path) {
        assert turns[i] in turns;
      }
    }
  }

  function PathsOf(turns: seq<Turn>): (paths: seq<seq<byte>>)
    ensures |paths| == |turns| && forall i :: 0 <= i < |turns| ==> paths[i] == turns[i].path
  {
    seq(|turns|, i requires 0 <= i < |turns| => turns[i].path)
  }

  /** With two slots for every file, discarding keeps the first file with each contents. */
  lemma {:induction false} RoomKeepsFirsts(files: Files, turns: seq<Turn>)
    requires forall t :: t in turns ==> t.free >= 2
    ensures var p := After(true, files, Nothing(), turns);
            p.scanned == Firsts([], PathsOf(turns), files) && SamePaths(p.stored, p.scanned)
    decreases |turns|
  {
    if turns == [] {
    } else {
      hide AfterFile, HasContents, Hidden, At;
      var n := |turns| - 1;
      assert forall t :: t in turns[..n] ==> t in turns;
      assert turns[n] in turns;
      RoomKeepsFirsts(files, turns[..n]);
      assert PathsOf(turns)[..n] == PathsOf(turns[..n]);
      FirstsNext(files, After(true, files, Nothing(), turns[..n]), turns[n]);
    }
  }

  ghost predicate SamePaths(stored: set<seq<byte>>, scanned: seq<seq<byte>>)
  {
    forall q :: q in stored <==> q in scanned
  }

  lemma FirstsNext(files: Files, p: Progress, t: Turn)
    requires SamePaths(p.stored, p.scanned) && t.free >= 2
    ensures var q := AfterFile(true, files, p, t);
            && q.scanned == (if HasContents(p.scanned, files, At(files, t.path)) then p.scanned else p.scanned + [t.path])
            && SamePaths(q.stored, q.scanned)
  {
    assert HasStored(p.stored, files, At(files, t.path)) <==> HasContents(p.scanned, files, At(files, t.path));
    if t.path in p.stored {
      HasStoredOf(p.stored, t.path, files);
    }
  }

  // ----- where discarding goes wrong

  /** The second of two equal files is indexed again when only one file can be opened there. */
  lemma TwinIsIndexedAgain(files: Files, a: seq<byte>, b: seq<byte>)
    requires a != b && At(files, a) == At(files, b)
    ensures After(true, files, Nothing(), [Turn(a, 2), Turn(b, 1)]).scanned == [a, b]
  {
    TwoTurns(files, Turn(a, 2), Turn(b, 1));
  }

  /** A file that cannot be opened is stored all the same, and hides an equal one: the contents are not indexed at all. */
  lemma TwinIsHidden(files: Files, a: seq<byte>, b: seq<byte>)
    requires a != b && At(files, a) == At(files, b)
    ensures After(true, files, Nothing(), [Turn(a, 0), Turn(b, 2)]).scanned == []
  {
    TwoTurns(files, Turn(a, 0), Turn(b, 2));
    HasStoredMore({}, a, files, At(files, b));
  }

  lemma TwoTurns(files: Files, t: Turn, u: Turn)
    ensures After(true, files, Nothing(), [t, u]) == AfterFile(true, files, AfterFile(true, files, Nothing(), t), u)
  {
    hide AfterFile;
    assert [t, u][..1] == [t] && [t][..0] == [];
    assert After(true, files, Nothing(), [t]) == AfterFile(true, files, Nothing(), t);
  }

  lemma AllEntriesMore(paths: seq<seq<byte>>, path: seq<byte>, files: Files)
    ensures AllEntries(paths + [path], files) == AllEntries(paths, files) + FileEntries(path, At(files, path), 0)
  {
    assert (paths + [path])[..|paths|] == paths;
  }

  /** Storing the entry at p leaves the entries behind it to store. */
  lemma Shift(path: seq<byte>, f: seq<byte>, p: nat, log: seq<Entry>, log': seq<Entry>)
    requires p < |f| && IsAlpha(f[p]) && log' == log + [Entry(PieceAt(f, p), Location(path, p + 1))]
    ensures log' + FileEntries(path, f, p + |PieceAt(f, p)|) == log + FileEntries(path, f, p)
  {
  }

  // ----- what a search finds

  lemma {:induction false} AllEntriesExactly(paths: seq<seq<byte>>, files: Files, e: Entry)
    ensures e in AllEntries(paths, files) <==>
              && e.item.pathname in paths && e.item.offset > 0
              && IsStart(At(files, e.item.pathname), e.item.offset - 1)
              && e.keyword == PieceAt(At(files, e.item.pathname), e.item.offset - 1)
  {
    if paths != [] {
      var n := |paths| - 1;
      AllEntriesExactly(paths[..n], files, e);
      EntriesExactly(paths[n], At(files, paths[n]), 0, e);
      assert paths == paths[..n] + [paths[n]];
    }
  }

  /**
   What Index_RetrieveEntry finds for a word once paths were scanned: the places, in files of paths, where the word is a
   whole piece of a run of letters. The word stands in the file just before its offset.
  */
  lemma SearchExactly(paths: seq<seq<byte>>, files: Files, w: seq<byte>, l: Location)
    ensures l in Found(AllEntries(paths, files), w) <==>
              l.pathname in paths && l.offset > 0 && IsStart(At(files, l.pathname), l.offset - 1)
              && w == PieceAt(At(files, l.pathname), l.offset - 1)
    ensures l in Found(AllEntries(paths, files), w) ==>
              0 < |w| <= 64 && l.offset - 1 + |w| <= |At(files, l.pathname)|
              && At(files, l.pathname)[l.offset - 1..l.offset - 1 + |w|] == w
  {
    AllEntriesExactly(paths, files, Entry(w, l));
    FoundExactly(AllEntries(paths, files), w, l);
    if l in Found(AllEntries(paths, files), w) {
      PieceEnds(At(files, l.pathname), l.offset - 1);
    }
  }

  /** The files come newest first. */
  lemma SearchNewestFirst(paths: seq<seq<byte>>, path: seq<byte>, files: Files, w: seq<byte>)
    ensures Found(AllEntries(paths + [path], files), w)
         == Found(FileEntries(path, At(files, path), 0), w) + Found(AllEntries(paths, files), w)
  {
    assert (paths + [path])[..|paths|] == paths;
    FoundConcat(AllEntries(paths, files), FileEntries(path, At(files, path), 0), w);
  }

  /** And within a file the last place comes first. */
  lemma FileLastFirst(path: seq<byte>, f: seq<byte>, w: seq<byte>)
    ensures var here := Found(FileEntries(path, f, 0), w);
            forall i, j :: 0 <= i < j < |here| ==> here[i].offset > here[j].offset
  {
    EntriesInOrder(path, f, 0);
    FoundDescends(FileEntries(path, f, 0), w);
  }

  /** If no file was scanned twice, no place is found twice. */
  lemma {:induction false} FoundOnce(paths: seq<seq<byte>>, files: Files, w: seq<byte>)
    requires NoRepeats(paths)
    ensures NoRepeats(Found(AllEntries(paths, files), w))
  {
    if paths == [] {
    } else {
      hide Found, AllEntries, IsStart, PieceAt;
      var n := |paths| - 1;
      var before, path := paths[..n], paths[n];
      assert paths == before + [path];
      FoundOnce(before, files, w);
      SearchNewestFirst(before, path, files, w);
      FileLastFirst(path, At(files, path), w);
      var here, rest := Found(FileEntries(path, At(files, path), 0), w), Found(AllEntries(before, files), w);
      forall i, j | 0 <= i < |here| && 0 <= j < |rest| ensures here[i] != rest[j] {
        FoundHere(path, At(files, path), w, here[i]);
        SearchExactly(before, files, w, rest[j]);
      }
    }
  }

  lemma FoundHere(path: seq<byte>, f: seq<byte>, w: seq<byte>, l: Location)
    requires l in Found(FileEntries(path, f, 0), w)
    ensures l.pathname == path
  {
    FoundExactly(FileEntries(path, f, 0), w, l);
    EntriesExactly(path, f, 0, Entry(w, l));
  }

  lemma {:induction false} FoundDescends(es: seq<Entry>, w: seq<byte>)
    requires forall i, j :: 0 <= i < j < |es| ==> es[i].item.offset < es[j].item.offset
    ensures forall i, j :: 0 <= i < j < |Found(es, w)| ==> Found(es, w)[i].offset > Found(es, w)[j].offset
  {
    if es != [] {
      var n := |es| - 1;
      FoundDescends(es[..n], w);
      var rest := Found(es[..n], w);
      forall j | 0 <= j < |rest| ensures rest[j].offset < es[n].item.offset {
        FoundExactly(es[..n], w, rest[j]);
      }
    }
  }

  /**
   No word is missed when files with contents that are indexed are discarded: it is found at the same offset in an indexed
   file with the same contents.
  */
  lemma EveryWordIsFound(paths: seq<seq<byte>>, files: Files, f: seq<byte>, p: nat)
    requires HasContents(paths, files, f) && IsStart(f, p)
    ensures exists q :: q in paths && At(files, q) == f
              && Location(q, p + 1) in Found(AllEntries(paths, files), PieceAt(f, p))
  {
    var q :| q in paths && At(files, q) == f;
    SearchExactly(paths, files, PieceAt(f, p), Location(q, p + 1));
  }
}
