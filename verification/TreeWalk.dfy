/** The recursive scan of 2/scan.c: which files it visits, and why it ends even when directories form a cycle. */
module TreeWalk {
  import opened Bytes
  import opened Options
  import opened DirEntries
  import opened FileopsTable

  const MAXPATH := 1024
  const DOT: byte := 46

  predicate IsDots(name: seq<byte>)
  {
    (|name| == 1 && name[0] == DOT) || (|name| == 2 && name[0] == DOT && name[1] == DOT)
  }

  /** So it is in every directory. */
  ghost predicate NamesEnd(regular: iset<seq<byte>>, files: Files)
  {
    forall path {:trigger Terminated(At(files, path))} :: path in regular || Terminated(At(files, path))
  }

  /** What the code tests is the whole name. */
  lemma DotsTest(n: seq<byte>)
    requires |n| == 14 && 0 in n
    ensures (n[0] == DOT && (n[1] == 0 || (n[1] == DOT && n[2] == 0))) <==> IsDots(CString(n))
    ensures IsDots(CString(n)) <==> CString(n) == [46] || CString(n) == [46, 46]
  {
    hide CString;
    assert n[0..] == n;
    CStringStep(n, 0);
    CStringStep(n, 1);
    CStringStep(n, 2);
  }

  /** The path in front of "/name": the root's own slash is dropped. */
  function Prefix(path: seq<byte>): seq<byte>
    requires |path| >= 1
  {
    if |path| == 1 then [] else path
  }

  /** A call of Scan_File, with free slots in the table of open files. */
  datatype Turn = Turn(path: seq<byte>, free: nat)

  /** The calls of Scan_File that the scan of path makes, in order, when free files can be opened. */
  ghost function Visit(regular: iset<seq<byte>>, files: Files, path: seq<byte>, free: nat): seq<Turn>
    requires |path| >= 1
    decreases free, 0, 0
  {
    if path in regular then [Turn(path, free)]
    else if |path| > MAXPATH - 16 || free == 0 then []
    else VisitEntries(regular, files, Prefix(path), At(files, path), |At(files, path)| / 16, free - 1)
  }

  /** The same for the first n entries of a directory. */
  ghost function VisitEntries(regular: iset<seq<byte>>, files: Files, prefix: seq<byte>, dir: seq<byte>,
                              n: nat, free: nat): seq<Turn>
    requires 16 * n <= |dir|
    decreases free, n
  {
    if n == 0 then []
    else
      VisitEntries(regular, files, prefix, dir, n - 1, free) + VisitEntry(regular, files, prefix, CString(NameBytes(dir, n - 1)), free)
  }

  ghost function VisitEntry(regular: iset<seq<byte>>, files: Files, prefix: seq<byte>, name: seq<byte>,
                            free: nat): seq<Turn>
    decreases free, 0, 1
  {
    if IsDots(name) then [] else Visit(regular, files, prefix + [SLASH] + name, free)
  }

  // ----- the tree itself, whatever can be opened

  function Child(path: seq<byte>, name: seq<byte>): (child: seq<byte>)
    requires |path| >= 1
    ensures |child| >= 1
  {
    Prefix(path) + [SLASH] + name
  }

  /** One of the first n entries of the directory has this name. */
  ghost predicate HasEntry(dir: seq<byte>, n: nat, name: seq<byte>)
    requires 16 * n <= |dir|
  {
    exists k: nat {:trigger NameBytes(dir, k)} :: k < n && CString(NameBytes(dir, k)) == name
  }

  /** The name of an entry of the directory, other than a dot name. */
  ghost predicate IsEntry(dir: seq<byte>, name: seq<byte>)
  {
    HasEntry(dir, |dir| / 16, name) && !IsDots(name)
  }

  /** From path, these names lead through directories to the regular file p; there is no bound on depth or length. */
  ghost predicate Below(regular: iset<seq<byte>>, files: Files, path: seq<byte>, names: seq<seq<byte>>, p: seq<byte>)
    requires |path| >= 1
    decreases |names|
  {
    if names == [] then path == p && path in regular
    else
      && path !in regular && IsEntry(At(files, path), names[0])
      && Below(regular, files, Child(path, names[0]), names[1..], p)
  }

  /** The paths of the directories on the way are not too long for the code's buffer. */
  predicate Short(path: seq<byte>, names: seq<seq<byte>>)
    requires |path| >= 1
    decreases |names|
  {
    names != [] ==> |path| <= 1008 && Short(Child(path, names[0]), names[1..])
  }

  /** The scan reaches p by these names, with f slots left. */
  ghost predicate Reached(regular: iset<seq<byte>>, files: Files, path: seq<byte>, names: seq<seq<byte>>, p: seq<byte>,
                          free: nat, f: nat)
    requires |path| >= 1
  {
    Below(regular, files, path, names, p) && Short(path, names) && |names| + f == free
  }

  /** The same below one of the first n entries of the directory at path. */
  ghost predicate ReachedBelow(regular: iset<seq<byte>>, files: Files, path: seq<byte>, n: nat, names: seq<seq<byte>>,
                               p: seq<byte>, free: nat, f: nat)
    requires |path| >= 1 && 16 * n <= |At(files, path)|
  {
    && names != [] && HasEntry(At(files, path), n, names[0]) && !IsDots(names[0])
    && Reached(regular, files, Child(path, names[0]), names[1..], p, free, f)
  }

  /**
   What the walk visits: the files of the tree below path, one slot gone for each directory on the way, except those for
   which the slots do not suffice, or a path on the way is too long.
  */
  lemma {:induction false} VisitedIff(regular: iset<seq<byte>>, files: Files, path: seq<byte>, free: nat, t: Turn)
    requires |path| >= 1
    ensures t in Visit(regular, files, path, free) <==>
              exists names :: Reached(regular, files, path, names, t.path, free, t.free)
    decreases free, 0, 0
  {
    hide IsDots, HasEntry, ReachedBelow, VisitEntries;
    if path in regular {
      if t == Turn(path, free) {
        assert Reached(regular, files, path, [], t.path, free, t.free);
      }
    } else if |path| > MAXPATH - 16 || free == 0 {
    } else {
      var n, left := |At(files, path)| / 16, free - 1;
      EntriesVisitedIff(regular, files, path, n, left, t);
      if names :| Reached(regular, files, path, names, t.path, free, t.free) {
        ReachedStep(regular, files, path, names, t, free);
      }
      if names :| ReachedBelow(regular, files, path, n, names, t.path, left, t.free) {
        ReachedStep(regular, files, path, names, t, free);
      }
    }
  }

  lemma ReachedStep(regular: iset<seq<byte>>, files: Files, path: seq<byte>, names: seq<seq<byte>>, t: Turn, free: nat)
    requires path !in regular && 1 <= |path| <= MAXPATH - 16 && free > 0
    ensures Reached(regular, files, path, names, t.path, free, t.free)
            <==> ReachedBelow(regular, files, path, |At(files, path)| / 16, names, t.path, free - 1, t.free)
  {
    hide HasEntry, IsDots;
  }

  lemma {:induction false} EntriesVisitedIff(regular: iset<seq<byte>>, files: Files, path: seq<byte>, n: nat, free: nat, t: Turn)
    requires |path| >= 1 && 16 * n <= |At(files, path)|
    ensures t in VisitEntries(regular, files, Prefix(path), At(files, path), n, free) <==>
              exists names :: ReachedBelow(regular, files, path, n, names, t.path, free, t.free)
    decreases free, n
  {
    hide IsDots, Visit, Below, Short, CString, Reached, ReachedBelow, HasEntry, Prefix;
    if n > 0 {
      var name := CString(NameBytes(At(files, path), n - 1));
      var child := Child(path, name);
      var m := n - 1;
      EntriesVisitedIff(regular, files, path, m, free, t);
      VisitedIff(regular, files, child, free, t);
      assert t in VisitEntries(regular, files, Prefix(path), At(files, path), n, free) <==>
             t in VisitEntries(regular, files, Prefix(path), At(files, path), n - 1, free)
             || (!IsDots(name) && t in Visit(regular, files, child, free));
      if names :| ReachedBelow(regular, files, path, n, names, t.path, free, t.free) {
        ReachedMore(regular, files, path, n, names, t, free);
      }
      if names :| ReachedBelow(regular, files, path, m, names, t.path, free, t.free) {
        ReachedMore(regular, files, path, n, names, t, free);
      }
      if rest :| Reached(regular, files, child, rest, t.path, free, t.free) {
        assert ([name] + rest)[1..] == rest;
        ReachedMore(regular, files, path, n, [name] + rest, t, free);
      }
    } else {
      NothingReached(regular, files, path, t, free);
    }
  }

  lemma NothingReached(regular: iset<seq<byte>>, files: Files, path: seq<byte>, t: Turn, free: nat)
    requires |path| >= 1
    ensures forall names :: !ReachedBelow(regular, files, path, 0, names, t.path, free, t.free)
  {
  }

  lemma ReachedMore(regular: iset<seq<byte>>, files: Files, path: seq<byte>, n: nat, names: seq<seq<byte>>, t: Turn, free: nat)
    requires |path| >= 1 && n > 0 && 16 * n <= |At(files, path)|
    ensures var name := CString(NameBytes(At(files, path), n - 1));
            ReachedBelow(regular, files, path, n, names, t.path, free, t.free) <==>
              || ReachedBelow(regular, files, path, n - 1, names, t.path, free, t.free)
              || (names != [] && names[0] == name && !IsDots(name)
                  && Reached(regular, files, Child(path, name), names[1..], t.path, free, t.free))
  {
    hide Reached, IsDots, CString;
    if names != [] {
      HasEntryMore(At(files, path), n, names[0]);
    }
  }

  lemma HasEntryMore(dir: seq<byte>, n: nat, name: seq<byte>)
    requires n > 0 && 16 * n <= |dir|
    ensures HasEntry(dir, n, name) <==> HasEntry(dir, n - 1, name) || name == CString(NameBytes(dir, n - 1))
  {
    hide CString;
    if HasEntry(dir, n - 1, name) {
      var k: nat :| k < n - 1 && CString(NameBytes(dir, k)) == name;
      assert CString(NameBytes(dir, k)) == name;
    }
    if HasEntry(dir, n, name) && name != CString(NameBytes(dir, n - 1)) {
      var k: nat :| k < n && CString(NameBytes(dir, k)) == name;
      assert k < n - 1 && CString(NameBytes(dir, k)) == name;
    }
  }

  // ----- how often, and in which order

  /** The name of entry k of a directory; past its end there is none. */
  function NameAt(dir: seq<byte>, k: nat): seq<byte>
  {
    if 16 * (k + 1) <= |dir| then CString(NameBytes(dir, k)) else []
  }

  /** From path, these entries, by their numbers, lead through directories to the regular file p. */
  ghost predicate Route(regular: iset<seq<byte>>, files: Files, path: seq<byte>, ks: seq<nat>, p: seq<byte>)
    requires |path| >= 1
    decreases |ks|
  {
    if ks == [] then path == p && path in regular
    else
      var dir := At(files, path);
      && path !in regular && 16 * (ks[0] + 1) <= |dir| && !IsDots(NameAt(dir, ks[0]))
      && Route(regular, files, Child(path, NameAt(dir, ks[0])), ks[1..], p)
  }

  /** The names of these entries. */
  ghost function NamesOn(files: Files, path: seq<byte>, ks: seq<nat>): (names: seq<seq<byte>>)
    requires |path| >= 1
    ensures |names| == |ks|
    decreases |ks|
  {
    if ks == [] then []
    else
      var name := NameAt(At(files, path), ks[0]);
      [name] + NamesOn(files, Child(path, name), ks[1..])
  }

  lemma {:induction false} RouteIsBelow(regular: iset<seq<byte>>, files: Files, path: seq<byte>, ks: seq<nat>, p: seq<byte>)
    requires |path| >= 1 && Route(regular, files, path, ks, p)
    ensures Below(regular, files, path, NamesOn(files, path, ks), p)
    decreases |ks|
  {
    hide IsDots, CString;
    if ks != [] {
      var dir := At(files, path);
      RouteIsBelow(regular, files, Child(path, NameAt(dir, ks[0])), ks[1..], p);
      assert CString(NameBytes(dir, ks[0])) == NameAt(dir, ks[0]);
      var names := NamesOn(files, path, ks);
      assert names[1..] == NamesOn(files, Child(path, NameAt(dir, ks[0])), ks[1..]);
    }
  }

  /** The call t of Scan_File is made by this route, with free slots at first. */
  ghost predicate RouteTo(regular: iset<seq<byte>>, files: Files, path: seq<byte>, ks: seq<nat>, t: Turn, free: nat)
    requires |path| >= 1
  {
    Route(regular, files, path, ks, t.path) && Short(path, NamesOn(files, path, ks)) && |ks| + t.free == free
  }

  /** The same below one of the first n entries of the directory at path. */
  ghost predicate RouteBelow(regular: iset<seq<byte>>, files: Files, path: seq<byte>, n: nat, ks: seq<nat>, t: Turn, free: nat)
    requires |path| >= 1 && 16 * n <= |At(files, path)|
  {
    && ks != [] && ks[0] < n && !IsDots(NameAt(At(files, path), ks[0]))
    && RouteTo(regular, files, Child(path, NameAt(At(files, path), ks[0])), ks[1..], t, free)
  }

  lemma RouteStep(regular: iset<seq<byte>>, files: Files, path: seq<byte>, ks: seq<nat>, t: Turn, free: nat)
    requires path !in regular && 1 <= |path| <= MAXPATH - 16 && free > 0
    ensures RouteTo(regular, files, path, ks, t, free)
            <==> RouteBelow(regular, files, path, |At(files, path)| / 16, ks, t, free - 1)
  {
    hide IsDots, NameAt;
    if ks != [] {
      var name := NameAt(At(files, path), ks[0]);
      var names := NamesOn(files, path, ks);
      assert names[0] == name && names[1..] == NamesOn(files, Child(path, name), ks[1..]);
    }
  }

  /** a comes before b in the walk: at the first directory where they part, it has the earlier entry. */
  ghost predicate Before(a: seq<nat>, b: seq<nat>)
    decreases |a|
  {
    b != [] && (a == [] || a[0] < b[0] || (a[0] == b[0] && Before(a[1..], b[1..])))
  }

  ghost predicate InOrder(routes: seq<seq<nat>>)
  {
    forall i, j :: 0 <= i < j < |routes| ==> Before(routes[i], routes[j])
  }

  lemma {:induction false} NotBeforeItself(a: seq<nat>)
    ensures !Before(a, a)
    decreases |a|
  {
    if a != [] {
      NotBeforeItself(a[1..]);
    }
  }

  function Prepended(k: nat, routes: seq<seq<nat>>): (r: seq<seq<nat>>)
    ensures |r| == |routes| && forall i :: 0 <= i < |r| ==> r[i] == [k] + routes[i]
  {
    seq(|routes|, i requires 0 <= i < |routes| => [k] + routes[i])
  }

  lemma PrependedInOrder(before: seq<seq<nat>>, k: nat, routes: seq<seq<nat>>)
    requires InOrder(before) && InOrder(routes)
    requires forall i :: 0 <= i < |before| ==> before[i] != [] && before[i][0] < k
    ensures InOrder(before + Prepended(k, routes))
  {
    var m, r := |before|, Prepended(k, routes);
    var all := before + r;
    forall i, j | 0 <= i < j < |all| ensures Before(all[i], all[j]) {
      if i >= m {
        assert Before(routes[i - m], routes[j - m]);
        assert all[i][1..] == routes[i - m] && all[j][1..] == routes[j - m];
      } else if j < m {
        assert Before(before[i], before[j]);
      }
    }
  }

  /** The calls are made one by one by the routes, which are in order and all there are. */
  ghost predicate Lists(regular: iset<seq<byte>>, files: Files, path: seq<byte>, free: nat, routes: seq<seq<nat>>, turns: seq<Turn>)
    requires |path| >= 1
  {
    && InOrder(routes) && |routes| == |turns|
    && (forall i :: 0 <= i < |routes| ==> RouteTo(regular, files, path, routes[i], turns[i], free))
    && forall ks, t :: RouteTo(regular, files, path, ks, t, free) ==> ks in routes
  }

  /** The same for the first n entries of a directory. */
  ghost predicate ListsEntries(regular: iset<seq<byte>>, files: Files, path: seq<byte>, n: nat, free: nat,
                               routes: seq<seq<nat>>, turns: seq<Turn>)
    requires |path| >= 1 && 16 * n <= |At(files, path)|
  {
    && InOrder(routes) && |routes| == |turns|
    && (forall i :: 0 <= i < |routes| ==> RouteBelow(regular, files, path, n, routes[i], turns[i], free))
    && forall ks, t :: RouteBelow(regular, files, path, n, ks, t, free) ==> ks in routes
  }

  lemma ListsDirectory(regular: iset<seq<byte>>, files: Files, path: seq<byte>, free: nat, routes: seq<seq<nat>>, turns: seq<Turn>)
    requires path !in regular && 1 <= |path| <= MAXPATH - 16 && free > 0
    requires ListsEntries(regular, files, path, |At(files, path)| / 16, free - 1, routes, turns)
    ensures Lists(regular, files, path, free, routes, turns)
  {
    hide RouteTo, RouteBelow, InOrder;
    forall i | 0 <= i < |routes| ensures RouteTo(regular, files, path, routes[i], turns[i], free) {
      RouteStep(regular, files, path, routes[i], turns[i], free);
    }
    forall ks, t | RouteTo(regular, files, path, ks, t, free) ensures ks in routes {
      RouteStep(regular, files, path, ks, t, free);
    }
  }

  /** The routes through entry n - 1 come behind the earlier ones. */
  lemma ListsMore(regular: iset<seq<byte>>, files: Files, path: seq<byte>, n: nat, free: nat,
                  first: seq<seq<nat>>, earlier: seq<Turn>, below: seq<seq<nat>>, more: seq<Turn>)
    requires |path| >= 1 && n > 0 && 16 * n <= |At(files, path)|
    requires ListsEntries(regular, files, path, n - 1, free, first, earlier)
    requires var name := NameAt(At(files, path), n - 1);
             if IsDots(name) then below == [] && more == [] else Lists(regular, files, Child(path, name), free, below, more)
    ensures ListsEntries(regular, files, path, n, free, first + Prepended(n - 1, below), earlier + more)
  {
    hide RouteTo, IsDots, NameAt, InOrder;
    var m, name, routes, turns := n - 1, NameAt(At(files, path), n - 1), first + Prepended(n - 1, below), earlier + more;
    NothingInOrder();
    PrependedInOrder(first, m, below);
    forall i | 0 <= i < |routes| ensures RouteBelow(regular, files, path, n, routes[i], turns[i], free) {
      if i >= |first| {
        assert routes[i][1..] == below[i - |first|] && turns[i] == more[i - |first|];
      } else {
        assert RouteBelow(regular, files, path, m, routes[i], turns[i], free);
      }
    }
    forall ks, t | RouteBelow(regular, files, path, n, ks, t, free) ensures ks in routes {
      if ks[0] < m {
        assert RouteBelow(regular, files, path, m, ks, t, free);
      } else {
        var i :| 0 <= i < |below| && below[i] == ks[1..];
        assert ks == [m] + ks[1..] && routes[|first| + i] == ks;
      }
    }
  }

  lemma NothingInOrder()
    ensures InOrder([])
  {
  }

  /**
   The walk makes one call for each route to a file, and no other calls, in the order of the entries: routes lists them,
   call i is made by route i.
  */
  lemma {:induction false} VisitInOrder(regular: iset<seq<byte>>, files: Files, path: seq<byte>, free: nat)
    returns (routes: seq<seq<nat>>)
    requires |path| >= 1
    ensures Lists(regular, files, path, free, routes, Visit(regular, files, path, free))
    decreases free, 0, 0
  {
    hide IsDots, NameAt, ListsEntries, VisitEntries;
    if path in regular {
      routes := [[]];
    } else if |path| > MAXPATH - 16 || free == 0 {
      routes := [];
    } else {
      routes := DirectoryInOrder(regular, files, path, |At(files, path)| / 16, free - 1);
      ListsDirectory(regular, files, path, free, routes, Visit(regular, files, path, free));
    }
  }

  lemma {:induction false} DirectoryInOrder(regular: iset<seq<byte>>, files: Files, path: seq<byte>, n: nat, free: nat)
    returns (routes: seq<seq<nat>>)
    requires |path| >= 1 && 16 * n <= |At(files, path)|
    ensures ListsEntries(regular, files, path, n, free, routes,
                         VisitEntries(regular, files, Prefix(path), At(files, path), n, free))
    decreases free, n
  {
    if n == 0 {
      routes := [];
    } else {
      hide IsDots, Visit, Lists, ListsEntries, CString, Prefix;
      var dir, m := At(files, path), n - 1;
      var name := NameAt(dir, m);
      var first := DirectoryInOrder(regular, files, path, m, free);
      var below, more := [], [];
      if !IsDots(name) {
        below := VisitInOrder(regular, files, Child(path, name), free);
        more := Visit(regular, files, Child(path, name), free);
      }
      var earlier := VisitEntries(regular, files, Prefix(path), dir, m, free);
      assert VisitEntries(regular, files, Prefix(path), dir, n, free) == earlier + more;
      ListsMore(regular, files, path, n, free, first, earlier, below, more);
      routes := first + Prepended(m, below);
    }
  }

  /** With names that end with a NUL in 14 bytes, no path within 64 names is too long: slots run out before. */
  lemma {:induction false} NeverTooLong(regular: iset<seq<byte>>, files: Files, path: seq<byte>, names: seq<seq<byte>>, p: seq<byte>)
    requires |path| >= 1 && NamesEnd(regular, files) && Below(regular, files, path, names, p)
    requires |path| + 14 * |names| <= MAXPATH - 16 + 14
    ensures Short(path, names)
    decreases |names|
  {
    hide CString, IsDots;
    if names != [] {
      var dir := At(files, path);
      assert Terminated(dir);
      var k: nat :| k < |dir| / 16 && CString(NameBytes(dir, k)) == names[0];
      assert |names[0]| <= 13;
      NeverTooLong(regular, files, Child(path, names[0]), names[1..], p);
    }
  }

  /** u is t but for one slot that was free and has path open at cursor c. */
  ghost predicate OpenedAt(t: seq<OpenFile>, u: seq<OpenFile>, fd: nat, path: seq<byte>, c: nat)
  {
    && |t| == |u| && fd < |t| && t[fd].pathname.None? && u[fd].pathname == Some(path) && u[fd].cursor == c
    && forall k :: 0 <= k < |t| && k != fd ==>
         t[k].pathname == u[k].pathname && (t[k].pathname.Some? ==> t[k] == u[k])
  }

  lemma OpenedFree(t: seq<OpenFile>, u: seq<OpenFile>, fd: nat, path: seq<byte>, c: nat)
    requires OpenedAt(t, u, fd, path, c)
    ensures Free(u) == Free(t) - 1
  {
    FreeUpdate(t, fd, u[fd]);
    SameOpenFree(t[fd := u[fd]], u);
  }

  lemma OpenedKept(t: seq<OpenFile>, u: seq<OpenFile>, v: seq<OpenFile>, fd: nat, path: seq<byte>, c: nat)
    requires OpenedAt(t, u, fd, path, c) && SameOpen(u, v)
    ensures OpenedAt(t, v, fd, path, c)
  {
  }
}
