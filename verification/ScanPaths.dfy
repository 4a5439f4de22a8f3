/**
 The scan and the path lookup together: the scan is proved for any lookup; here it is the fold of first-match search, and
 the path that the scan makes for an entry of a directory leads to the first entry of that name.
*/
module ScanPaths {
  import opened Bytes
  import opened Options
  import opened UnixFs
  import opened DirEntries
  import opened FileopsTable
  import opened Indexes
  import opened ScanModel
  import opened TreeWalk
  import opened Pathnames
  import opened DiskSearch

  /** The disk as pathname_lookup shows it; stale is what the memory of its directory entry holds. */
  ghost function FoldDisk(image: seq<byte>, names: Names, stale: nat): Disk
  {
    Disk(image, path => Lookup(names, ROOT_INUMBER, stale, Components(path)))
  }

  /** The root is one of the inodes, and what has a name in one of them is one of them. */
  ghost predicate Closed(names: Names, inodes: iset<nat>)
  {
    && ROOT_INUMBER in inodes
    && forall key {:trigger names[key]} :: key in names && key.0 in inodes ==> names[key] in inodes
  }

  ghost predicate AllWellFormed(image: seq<byte>, inodes: iset<nat>)
  {
    forall n {:trigger WellFormed(image, n)} :: n in inodes ==> WellFormed(image, n)
  }

  lemma {:induction false} LookupStays(names: Names, inodes: iset<nat>, inumber: nat, last: nat, comps: seq<seq<byte>>)
    requires Closed(names, inodes) && inumber in inodes && last in inodes
    ensures Lookup(names, inumber, last, comps) in inodes
    decreases comps
  {
    if comps != [] {
      var next := Step(names, inumber, last, comps[0]);
      LookupStays(names, inodes, next, next, comps[1..]);
    }
  }

  /** The scan may be run on it if the inodes in use are well formed and what is left in memory is one of them. */
  lemma FoldDiskIsValid(image: seq<byte>, names: Names, inodes: iset<nat>, stale: nat)
    requires Closed(names, inodes) && AllWellFormed(image, inodes) && stale in inodes
    ensures FoldDisk(image, names, stale).Valid()
  {
    hide WellFormed;
    var disk := FoldDisk(image, names, stale);
    forall path ensures WellFormed(image, disk.lookup(path)) {
      LookupStays(names, inodes, ROOT_INUMBER, stale, Components(path));
    }
  }

  /** A path starts with its first component, if it has one. */
  lemma SplitPath(path: seq<byte>) returns (n: nat, first: seq<byte>, more: seq<byte>)
    requires Slashes(path) < |path|
    ensures path == Bar(n) + first + more && first != [] && SLASH !in first && |more| < |path|
    ensures more == [] || more[0] == SLASH
  {
    hide Slashes, NameLength;
    n := Slashes(path);
    var rest := path[n..];
    assert rest[0] == path[n];
    var m := NameLength(rest);
    first, more := rest[..m], rest[m..];
    assert path[..n] == Bar(n);
    assert path == path[..n] + rest;
  }

  lemma Associate<T>(a: seq<T>, b: seq<T>, c: seq<T>, d: seq<T>, e: seq<T>)
    ensures (a + b + c) + d + e == a + b + (c + d + e)
  {
  }

  /** A name behind a path is one more component. */
  lemma {:induction false} ComponentsOfChild(path: seq<byte>, name: seq<byte>)
    requires name != [] && SLASH !in name
    ensures Components(path + [SLASH] + name) == Components(path) + [name]
    decreases |path|
  {
    hide Components, Slashes, Bar;
    if Slashes(path) == |path| {
      NoMore(path);
      AllSlashes(path);
      assert Bar(|path| + 1) + name + [] == path + [SLASH] + name;
      FirstComponent(|path| + 1, name, []);
      NoMore([]);
    } else {
      var n, first, more := SplitPath(path);
      Associate(Bar(n), first, more, [SLASH], name);
      FirstComponent(n, first, more);
      ComponentsOfChild(more, name);
      FirstComponent(n, first, more + [SLASH] + name);
    }
  }

  lemma AllSlashes(path: seq<byte>)
    requires Slashes(path) == |path|
    ensures Bar(|path| + 1) == path + [SLASH]
  {
  }

  lemma NoMore(path: seq<byte>)
    requires Slashes(path) == |path| || path == []
    ensures Components(path) == []
  {
  }

  lemma {:induction false} ResolveMore(names: Names, inumber: nat, comps: seq<seq<byte>>, name: seq<byte>)
    requires Resolve(names, inumber, comps).Some?
    ensures var dir := Resolve(names, inumber, comps).value;
            Resolve(names, inumber, comps + [name]) == if (dir, name) in names then Some(names[(dir, name)]) else None
    decreases comps
  {
    if comps == [] {
      assert ([] + [name])[1..] == [];
    } else {
      assert (comps + [name])[1..] == comps[1..] + [name];
      ResolveMore(names, names[(inumber, comps[0])], comps[1..], name);
    }
  }

  /** An absolute path with an inode. */
  ghost predicate LeadsTo(names: Names, path: seq<byte>, inumber: nat)
  {
    path != [] && path[0] == SLASH && Resolve(names, ROOT_INUMBER, Components(path)) == Some(inumber)
  }

  /** So it is for the path that the scan makes. */
  lemma ComponentsOfNext(path: seq<byte>, name: seq<byte>)
    requires path != [] && path[0] == SLASH && name != [] && SLASH !in name
    ensures Components(Child(path, name)) == Components(path) + [name]
  {
    hide Components;
    ComponentsOfChild(Prefix(path), name);
    if |path| == 1 {
      NoMore([SLASH]);
      NoMore([]);
      assert path == [SLASH];
    }
  }

  /** The path that the scan makes for a name in a directory opens the inode of the first entry with this name. */
  lemma ChildOpensFirstEntry(image: seq<byte>, names: Names, stale: nat, path: seq<byte>, dir: nat, name: seq<byte>)
    requires NamesOf(image, names) && LeadsTo(names, path, dir) && dir >= 1
    requires name != [] && SLASH !in name && Find(image, dir, name).Some?
    ensures FoldDisk(image, names, stale).lookup(path) == dir
    ensures var child, e := Child(path, name), Find(image, dir, name).value;
            LeadsTo(names, child, e.inumber) && FoldDisk(image, names, stale).lookup(child) == e.inumber
  {
    hide Find, Components;
    var comps := Components(path);
    LookupIsResolve(names, ROOT_INUMBER, stale, comps);
    ComponentsOfNext(path, name);
    ResolveMore(names, ROOT_INUMBER, comps, name);
    LookupIsResolve(names, ROOT_INUMBER, stale, comps + [name]);
  }

  // ----- the tree of an image

  /** All of the inodes are regular files or allocated directories with usable names. */
  ghost predicate Tidy(image: seq<byte>, inodes: iset<nat>)
  {
    forall n {:trigger IsTidy(image, n)} :: n in inodes ==> IsTidy(image, n)
  }

  ghost predicate IsTidy(image: seq<byte>, n: nat)
  {
    n >= 1 && (IsRegularFile(image, n) || IsTidyDirectory(image, n))
  }

  ghost predicate IsRegularFile(image: seq<byte>, n: nat)
    requires n >= 1
  {
    Allocated(InodeAt(image, n)) && Regular(InodeAt(image, n))
  }

  ghost predicate IsTidyDirectory(image: seq<byte>, n: nat)
    requires n >= 1
  {
    && Allocated(InodeAt(image, n)) && IsDirectory(InodeAt(image, n))
    && GoodNames(Contents(image, n))
  }

  /** No name is empty or holds a slash. */
  ghost predicate GoodNames(f: seq<byte>)
  {
    forall k: nat {:trigger NameBytes(f, k)} :: 16 * (k + 1) <= |f| ==>
      CString(NameBytes(f, k)) != [] && SLASH !in CString(NameBytes(f, k))
  }

  /** The files and regular files of the disk, as the scan knows them. */
  ghost predicate Shows(disk: Disk, regular: iset<seq<byte>>, files: Files)
    requires disk.Valid()
  {
    forall path {:trigger disk.lookup(path)} :: (path in regular <==> disk.IsFile(path)) && At(files, path) == disk.FileOf(path)
  }

  lemma {:induction false} FirstMatchFinds(f: seq<byte>, name: seq<byte>, from: nat, k: nat)
    requires from <= k && 16 * (k + 1) <= |f| && EntryAt(f, k).name == name
    ensures FirstMatch(f, name, from).Some?
    decreases k - from
  {
    if from < k {
      FirstMatchFinds(f, name, from + 1, k);
    }
  }

  /** What the scan reads at a path that leads to inode n. */
  lemma ShownAt(image: seq<byte>, names: Names, stale: nat, regular: iset<seq<byte>>, files: Files, path: seq<byte>, n: nat)
    requires LeadsTo(names, path, n) && WellFormed(image, n) && IsTidy(image, n)
    requires FoldDisk(image, names, stale).Valid() && Shows(FoldDisk(image, names, stale), regular, files)
    ensures path !in regular ==> IsTidyDirectory(image, n) && At(files, path) == Contents(image, n)
  {
    var disk := FoldDisk(image, names, stale);
    LookupIsResolve(names, ROOT_INUMBER, stale, Components(path));
    assert disk.lookup(path) == n;
    hide WellFormed, Contents, InodeAt, Components, Lookup, Resolve;
    assert disk.FileOf(path) == FileBytes(image, n);
  }

  lemma {:induction false} FoundHasEntry(f: seq<byte>, name: seq<byte>, from: nat)
    requires FirstMatch(f, name, from).Some?
    ensures HasEntry(f, |f| / 16, name)
    decreases |f| - 16 * from
  {
    hide CString;
    if EntryAt(f, from).name == name {
      assert from < |f| / 16 && CString(NameBytes(f, from)) == name;
    } else {
      FoundHasEntry(f, name, from + 1);
    }
  }

  /** The first search finds a name exactly in a directory that has an entry with it. */
  lemma NamedIffEntry(image: seq<byte>, names: Names, n: nat, name: seq<byte>)
    requires NamesOf(image, names) && n >= 1 && IsTidyDirectory(image, n)
    ensures (n, name) in names <==> HasEntry(Contents(image, n), |Contents(image, n)| / 16, name)
  {
    hide Contents, InodeAt, FirstMatch, CString;
    var f := Contents(image, n);
    assert Find(image, n, name).Some? <==> FirstMatch(f, name, 0).Some?;
    if FirstMatch(f, name, 0).Some? {
      FoundHasEntry(f, name, 0);
    }
    if HasEntry(f, |f| / 16, name) {
      var k: nat :| k < |f| / 16 && CString(NameBytes(f, k)) == name;
      FirstMatchFinds(f, name, 0, k);
    }
  }

  /** An entry of a directory, and the path that the scan makes for it. */
  lemma EntryLeads(image: seq<byte>, names: Names, inodes: iset<nat>, path: seq<byte>, n: nat, name: seq<byte>)
    requires NamesOf(image, names) && Closed(names, inodes)
    requires LeadsTo(names, path, n) && n >= 1 && n in inodes && IsTidyDirectory(image, n)
    requires (n, name) in names
    ensures LeadsTo(names, Child(path, name), names[(n, name)]) && names[(n, name)] in inodes
    ensures Components(Child(path, name)) == Components(path) + [name]
  {
    NamedIffEntry(image, names, n, name);
    NameIsGood(Contents(image, n), name);
    hide Contents, InodeAt, LeadsTo, Components, Find, GoodNames;
    PathIsNotEmpty(names, path, n);
    ChildOpensFirstEntry(image, names, n, path, n, name);
    ComponentsOfNext(path, name);
  }

  lemma NameIsGood(f: seq<byte>, name: seq<byte>)
    requires GoodNames(f) && HasEntry(f, |f| / 16, name)
    ensures name != [] && SLASH !in name
  {
    hide CString;
  }

  /** The chain of names from a path to what lies below it. */
  function PathTo(path: seq<byte>, names: seq<seq<byte>>): seq<byte>
    requires |path| >= 1
    decreases |names|
  {
    if names == [] then path else PathTo(Child(path, names[0]), names[1..])
  }

  predicate NoDots(comps: seq<seq<byte>>)
  {
    forall i :: 0 <= i < |comps| ==> !IsDots(comps[i])
  }

  /** The directory entries of what the scan reads at a path are the names of its inode. */
  lemma ShownEntry(image: seq<byte>, names: Names, stale: nat, regular: iset<seq<byte>>, files: Files, path: seq<byte>,
                   n: nat, name: seq<byte>)
    requires NamesOf(image, names) && LeadsTo(names, path, n) && WellFormed(image, n) && IsTidy(image, n)
    requires FoldDisk(image, names, stale).Valid() && Shows(FoldDisk(image, names, stale), regular, files)
    ensures path !in regular && IsEntry(At(files, path), name) <==> (n, name) in names && !IsDots(name)
    ensures path in regular <==> IsRegularFile(image, n)
    ensures path !in regular ==> IsTidyDirectory(image, n)
  {
    ShownAt(image, names, stale, regular, files, path, n);
    RegularAt(image, names, stale, regular, files, path, n);
    hide WellFormed, Contents, LeadsTo, Shows, FoldDisk, FirstMatch, HasEntry;
    if path in regular {
      assert Find(image, n, name).None?;
    } else {
      NamedIffEntry(image, names, n, name);
    }
  }

  lemma RegularAt(image: seq<byte>, names: Names, stale: nat, regular: iset<seq<byte>>, files: Files, path: seq<byte>, n: nat)
    requires LeadsTo(names, path, n) && WellFormed(image, n) && n >= 1
    requires FoldDisk(image, names, stale).Valid() && Shows(FoldDisk(image, names, stale), regular, files)
    ensures path in regular <==> IsRegularFile(image, n)
  {
    var disk := FoldDisk(image, names, stale);
    LookupIsResolve(names, ROOT_INUMBER, stale, Components(path));
    assert disk.lookup(path) == n;
    hide WellFormed, InodeAt, Components, Lookup, Resolve;
    assert path in regular <==> disk.IsFile(path);
  }

  /**
   The tree that the scan walks is the tree of the image: names lead from a path to a regular file exactly when they
   resolve to the inode of one, and none is a dot name.
  */
  lemma {:induction false} BelowIff(image: seq<byte>, names: Names, inodes: iset<nat>, stale: nat, regular: iset<seq<byte>>,
                                    files: Files, path: seq<byte>, n: nat, comps: seq<seq<byte>>, p: seq<byte>)
    requires NamesOf(image, names) && Closed(names, inodes) && AllWellFormed(image, inodes) && Tidy(image, inodes)
    requires FoldDisk(image, names, stale).Valid() && Shows(FoldDisk(image, names, stale), regular, files)
    requires LeadsTo(names, path, n) && n in inodes && |path| >= 1
    ensures Below(regular, files, path, comps, p) <==>
              && p == PathTo(path, comps) && NoDots(comps)
              && Resolve(names, n, comps).Some? && IsRegular(image, Resolve(names, n, comps).value)
    ensures Below(regular, files, path, comps, p) ==>
              Components(p) == Components(path) + comps && exists m: nat :: LeadsTo(names, p, m)
    decreases |comps|
  {
    hide WellFormed, Contents, InodeAt, LeadsTo, NamesOf, Shows, IsTidyDirectory, FoldDisk, Closed, IsDots, Components,
         IsEntry, IsRegularFile;
    assert WellFormed(image, n) && IsTidy(image, n);
    if comps == [] {
      RegularAt(image, names, stale, regular, files, path, n);
      assert Components(path) + comps == Components(path);
    } else {
      var name, rest := comps[0], comps[1..];
      assert comps == [name] + rest;
      assert NoDots(comps) <==> !IsDots(name) && NoDots(rest);
      ShownEntry(image, names, stale, regular, files, path, n, name);
      if (n, name) in names && path !in regular {
        EntryLeads(image, names, inodes, path, n, name);
        BelowIff(image, names, inodes, stale, regular, files, Child(path, name), names[(n, name)], rest, p);
        assert Components(path) + [name] + rest == Components(path) + comps;
      }
    }
  }

  ghost predicate IsRegular(image: seq<byte>, n: nat)
  {
    n >= 1 && IsRegularFile(image, n)
  }

  lemma PathIsNotEmpty(names: Names, path: seq<byte>, n: nat)
    requires LeadsTo(names, path, n)
    ensures |path| >= 1
  {
  }

  lemma RootLeads(names: Names)
    ensures LeadsTo(names, [SLASH], ROOT_INUMBER) && Components([SLASH]) == []
  {
    NoMore([SLASH]);
  }

  /**
   The index of a whole disk, in terms of its image. The files of the tree are what paths without dot names resolve to, by
   their components and no other names; and without discarding, a path is indexed if and only if it is one of them and has
   fewer than 64 components.
  */
  lemma WholeDiskOfImage(fileops: Fileops, image: seq<byte>, names: Names, inodes: iset<nat>, stale: nat,
                         comps: seq<seq<byte>>, p: seq<byte>)
    requires fileops.Valid() && fileops.disk == FoldDisk(image, names, stale) && NamesEnd(fileops.regular, fileops.files)
    requires NamesOf(image, names) && Closed(names, inodes) && AllWellFormed(image, inodes) && Tidy(image, inodes)
    ensures BelowRoot(fileops.regular, fileops.files, comps, p) <==>
              && p == PathTo([SLASH], comps) && NoDots(comps)
              && Resolve(names, ROOT_INUMBER, comps).Some? && IsRegular(image, Resolve(names, ROOT_INUMBER, comps).value)
    ensures BelowRoot(fileops.regular, fileops.files, comps, p) ==>
              Components(p) == comps && exists m: nat :: LeadsTo(names, p, m)
    ensures p in After(false, fileops.files, Nothing(), WholeDisk(fileops.regular, fileops.files)).scanned <==>
              BelowRoot(fileops.regular, fileops.files, Components(p), p) && |Components(p)| < MAX_FILES
  {
    hide WellFormed, LeadsTo, NamesOf, FoldDisk, Below, Components, After, WholeDisk, NamesEnd, Resolve;
    FileopsShows(fileops);
    RootLeads(names);
    forall cs ensures BelowRoot(fileops.regular, fileops.files, cs, p) ==> Components(p) == cs {
      BelowIff(image, names, inodes, stale, fileops.regular, fileops.files, [SLASH], ROOT_INUMBER, cs, p);
      assert [] + cs == cs;
    }
    BelowIff(image, names, inodes, stale, fileops.regular, fileops.files, [SLASH], ROOT_INUMBER, comps, p);
    IndexedIff(fileops.regular, fileops.files, p);
  }

  /** Every path handed to Scan_File has an inode: the lookup is never asked for a path that is not there. */
  lemma VisitedHaveInodes(fileops: Fileops, image: seq<byte>, names: Names, inodes: iset<nat>, stale: nat, t: Turn)
    requires fileops.Valid() && fileops.disk == FoldDisk(image, names, stale) && NamesEnd(fileops.regular, fileops.files)
    requires NamesOf(image, names) && Closed(names, inodes) && AllWellFormed(image, inodes) && Tidy(image, inodes)
    requires t in WholeDisk(fileops.regular, fileops.files)
    ensures exists m: nat :: LeadsTo(names, t.path, m)
  {
    hide WellFormed, LeadsTo, NamesOf, FoldDisk, Below, WholeDisk, NamesEnd, BelowRoot;
    WholeDiskIff(fileops.regular, fileops.files, t);
    var comps :| BelowRoot(fileops.regular, fileops.files, comps, t.path);
    WholeDiskOfImage(fileops, image, names, inodes, stale, comps, t.path);
  }

  lemma FileopsShows(fileops: Fileops)
    requires fileops.Valid()
    ensures fileops.disk.Valid() && Shows(fileops.disk, fileops.regular, fileops.files)
  {
    hide WellFormed;
    var disk := fileops.disk;
    forall path ensures (path in fileops.regular <==> disk.IsFile(path)) && At(fileops.files, path) == disk.FileOf(path) {
      assert fileops.FileOf(path) == disk.FileOf(path);
    }
  }

  // ----- nothing is visited twice

  /** No name but the dot names is in a directory twice. */
  ghost predicate DifferentNames(f: seq<byte>)
  {
    forall j: nat, k: nat {:trigger NameAt(f, j), NameAt(f, k)} :: j < k && 16 * (k + 1) <= |f| && NameAt(f, j) == NameAt(f, k) ==>
      IsDots(NameAt(f, k))
  }

  ghost predicate AllDifferentNames(image: seq<byte>, inodes: iset<nat>)
  {
    forall n: nat {:trigger IsTidyDirectory(image, n)} :: n in inodes && n >= 1 && IsTidyDirectory(image, n) ==>
      DifferentNames(Contents(image, n))
  }

  /** The first step of a route leads to an inode in use, by a name of the directory. */
  lemma RouteLeads(image: seq<byte>, names: Names, inodes: iset<nat>, stale: nat, regular: iset<seq<byte>>, files: Files,
                   path: seq<byte>, n: nat, ks: seq<nat>, p: seq<byte>) returns (m: nat)
    requires NamesOf(image, names) && Closed(names, inodes) && AllWellFormed(image, inodes) && Tidy(image, inodes)
    requires FoldDisk(image, names, stale).Valid() && Shows(FoldDisk(image, names, stale), regular, files)
    requires LeadsTo(names, path, n) && n in inodes && |path| >= 1
    requires ks != [] && Route(regular, files, path, ks, p)
    ensures n >= 1 && IsTidyDirectory(image, n) && At(files, path) == Contents(image, n)
    ensures LeadsTo(names, Child(path, NameAt(At(files, path), ks[0])), m) && m in inodes
  {
    hide WellFormed, Contents, InodeAt, LeadsTo, NamesOf, Shows, IsTidyDirectory, FoldDisk, Closed, IsDots, CString;
    assert WellFormed(image, n) && IsTidy(image, n);
    ShownAt(image, names, stale, regular, files, path, n);
    var name := NameAt(At(files, path), ks[0]);
    assert HasEntry(At(files, path), |At(files, path)| / 16, name) by {
      assert CString(NameBytes(At(files, path), ks[0])) == name;
    }
    NamedIffEntry(image, names, n, name);
    EntryLeads(image, names, inodes, path, n, name);
    m := names[(n, name)];
  }

  /** Routes with the same names are the same, if no directory has a name twice. */
  lemma {:induction false} SameNamesSameRoute(image: seq<byte>, names: Names, inodes: iset<nat>, stale: nat,
                                              regular: iset<seq<byte>>, files: Files, path: seq<byte>, n: nat,
                                              ks: seq<nat>, ls: seq<nat>, p: seq<byte>)
    requires NamesOf(image, names) && Closed(names, inodes) && AllWellFormed(image, inodes) && Tidy(image, inodes)
    requires FoldDisk(image, names, stale).Valid() && Shows(FoldDisk(image, names, stale), regular, files)
    requires AllDifferentNames(image, inodes)
    requires LeadsTo(names, path, n) && n in inodes && |path| >= 1
    requires Route(regular, files, path, ks, p) && Route(regular, files, path, ls, p)
    requires NamesOn(files, path, ks) == NamesOn(files, path, ls)
    ensures ks == ls
    decreases |ks|
  {
    hide WellFormed, Contents, InodeAt, LeadsTo, NamesOf, Shows, IsTidyDirectory, FoldDisk, Closed, AllWellFormed, Tidy, IsDots, NameAt;
    assert |ks| == |ls|;
    if ks != [] {
      var m := RouteLeads(image, names, inodes, stale, regular, files, path, n, ks, p);
      var dir := At(files, path);
      var a, b := NamesOn(files, path, ks), NamesOn(files, path, ls);
      assert a[0] == NameAt(dir, ks[0]) && b[0] == NameAt(dir, ls[0]);
      assert DifferentNames(dir);
      assert ks[0] == ls[0];
      var child := Child(path, NameAt(dir, ks[0]));
      assert a[1..] == NamesOn(files, child, ks[1..]) && b[1..] == NamesOn(files, child, ls[1..]);
      SameNamesSameRoute(image, names, inodes, stale, regular, files, child, m, ks[1..], ls[1..], p);
    }
  }

  /** On a tidy disk without equal names in a directory, no path is handed to Scan_File twice. */
  lemma VisitedOnce(fileops: Fileops, image: seq<byte>, names: Names, inodes: iset<nat>, stale: nat, i: nat, j: nat)
    requires fileops.Valid() && fileops.disk == FoldDisk(image, names, stale) && NamesEnd(fileops.regular, fileops.files)
    requires NamesOf(image, names) && Closed(names, inodes) && AllWellFormed(image, inodes) && Tidy(image, inodes)
    requires AllDifferentNames(image, inodes)
    requires i < j < |WholeDisk(fileops.regular, fileops.files)|
    ensures WholeDisk(fileops.regular, fileops.files)[i].path != WholeDisk(fileops.regular, fileops.files)[j].path
  {
    hide WellFormed, LeadsTo, NamesOf, FoldDisk, Below, Components, NamesEnd, Resolve, Visit, Tidy, AllWellFormed, Closed, Shows;
    var regular, files, root: seq<byte> := fileops.regular, fileops.files, [SLASH];
    var turns := WholeDisk(regular, files);
    var routes := VisitInOrder(regular, files, root, MAX_FILES);
    FileopsShows(fileops);
    RootLeads(names);
    assert Before(routes[i], routes[j]);
    if turns[i].path == turns[j].path {
      var p := turns[i].path;
      assert RouteTo(regular, files, root, routes[i], turns[i], MAX_FILES);
      assert RouteTo(regular, files, root, routes[j], turns[j], MAX_FILES);
      RouteIsBelow(regular, files, root, routes[i], p);
      RouteIsBelow(regular, files, root, routes[j], p);
      WholeDiskOfImage(fileops, image, names, inodes, stale, NamesOn(files, root, routes[i]), p);
      WholeDiskOfImage(fileops, image, names, inodes, stale, NamesOn(files, root, routes[j]), p);
      RootIsClosed(names, inodes);
      SameNamesSameRoute(image, names, inodes, stale, regular, files, root, ROOT_INUMBER, routes[i], routes[j], p);
      NotBeforeItself(routes[i]);
      assert false;
    }
  }

  lemma RootIsClosed(names: Names, inodes: iset<nat>)
    requires Closed(names, inodes)
    ensures ROOT_INUMBER in inodes
  {
  }

  /** So every place of a word is found once, with or without discarding. */
  lemma WordsFoundOnce(fileops: Fileops, image: seq<byte>, names: Names, inodes: iset<nat>, stale: nat, discardDups: bool,
                       w: seq<byte>)
    requires fileops.Valid() && fileops.disk == FoldDisk(image, names, stale) && NamesEnd(fileops.regular, fileops.files)
    requires NamesOf(image, names) && Closed(names, inodes) && AllWellFormed(image, inodes) && Tidy(image, inodes)
    requires AllDifferentNames(image, inodes)
    ensures var scanned := After(discardDups, fileops.files, Nothing(), WholeDisk(fileops.regular, fileops.files)).scanned;
            NoRepeats(scanned) && NoRepeats(Found(AllEntries(scanned, fileops.files), w))
  {
    hide WellFormed, NamesOf, FoldDisk, NamesEnd, Tidy, AllWellFormed, AllDifferentNames, Closed, WholeDisk, After, Found, AllEntries;
    var turns := WholeDisk(fileops.regular, fileops.files);
    if discardDups {
      DiscardingIndexesOnce(fileops.files, turns);
    } else {
      forall i, j | 0 <= i < j < |turns| ensures turns[i].path != turns[j].path {
        VisitedOnce(fileops, image, names, inodes, stale, i, j);
      }
      OpenedOnce(turns);
      IndexedInOrder(fileops.files, turns);
    }
    FoundOnce(After(discardDups, fileops.files, Nothing(), turns).scanned, fileops.files, w);
  }

  /** Such images exist: one is the disk with nothing but an empty file in its root. */
  lemma SmallImageIsTidy()
    ensures var image, names, inodes := ImageOfA(), NamesIn(ImageOfA()), iset{1, 2};
            && NamesOf(image, names) && Closed(names, inodes) && AllWellFormed(image, inodes) && Tidy(image, inodes)
            && AllDifferentNames(image, inodes)
  {
    hide ImageOfA, NamesIn, Closed, AllWellFormed, Tidy, Contents, InodeAt;
    NamesInAre(ImageOfA());
    SmallNames();
    SmallInodes();
    RootOfA();
    FileOfA();
    OnlyA();
    assert DifferentNames(ONLY_A);
  }

  lemma SmallNames()
    ensures Closed(NamesIn(ImageOfA()), iset{1, 2})
  {
    hide ImageOfA, InodeAt, Contents;
    FindA();
    RootOfA();
    OnlyA();
    forall name ensures Find(ImageOfA(), 1, name).Some? ==> name == NAME_A {
      assert FirstMatch(ONLY_A, name, 1).None?;
      assert EntryAt(ONLY_A, 0).name == NAME_A;
    }
  }

  lemma SmallInodes()
    ensures AllWellFormed(ImageOfA(), iset{1, 2}) && Tidy(ImageOfA(), iset{1, 2})
  {
    hide ImageOfA, InodeAt, Contents, WellFormed, Terminated;
    InodesOfA();
    RootOfA();
    FileOfA();
    OnlyA();
    forall k: nat | 16 * (k + 1) <= |ONLY_A| ensures CString(NameBytes(ONLY_A, k)) == NAME_A {
      assert k == 0;
    }
    assert GoodNames(ONLY_A);
  }
}
