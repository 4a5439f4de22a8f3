/** The index of a whole disk, as 2/disksearch.c builds it, and what a search in it finds. */
module DiskSearch {
  import opened Bytes
  import opened DiskImgs
  import opened CacheSetores
  import opened UnixFs
  import opened DirEntries
  import opened FileopsTable
  import opened Pathstores
  import opened Indexes
  import opened Words
  import opened ScanModel
  import opened TreeWalk
  import opened Scans

  /** Every name ends with a NUL in whatever is no regular file. */
  ghost predicate NamesEndOn(disk: Disk)
    requires disk.Valid()
  {
    forall path {:trigger disk.FileOf(path)} :: disk.IsFile(path) || Terminated(disk.FileOf(path))
  }

  lemma {:induction false} AllFree(t: seq<OpenFile>)
    requires forall fd :: 0 <= fd < |t| ==> t[fd].pathname.None?
    ensures Free(t) == |t|
  {
    if t != [] {
      AllFree(t[..|t| - 1]);
    }
  }

  lemma NamesEndFor(fileops: Fileops)
    requires fileops.Valid() && NamesEndOn(fileops.disk)
    ensures NamesEnd(fileops.regular, fileops.files)
  {
    hide Terminated;
    forall path ensures path in fileops.regular || Terminated(At(fileops.files, path)) {
      assert fileops.FileOf(path) == fileops.disk.FileOf(path);
      assert path in fileops.regular <==> fileops.disk.IsFile(path);
    }
  }

  /** These names lead from the root to the regular file p. */
  ghost predicate BelowRoot(regular: iset<seq<byte>>, files: Files, names: seq<seq<byte>>, p: seq<byte>)
  {
    Below(regular, files, [SLASH], names, p)
  }

  /** The calls of Scan_File when the whole disk is scanned with no file open. */
  ghost function WholeDisk(regular: iset<seq<byte>>, files: Files): seq<Turn>
  {
    Visit(regular, files, [SLASH], MAX_FILES)
  }

  /** They are for the files of the tree that fewer than 65 names lead to: one slot is gone for each directory on the way. */
  lemma WholeDiskIff(regular: iset<seq<byte>>, files: Files, t: Turn)
    requires NamesEnd(regular, files)
    ensures t in WholeDisk(regular, files) <==>
              exists names :: BelowRoot(regular, files, names, t.path) && |names| + t.free == MAX_FILES
  {
    hide Below, Short, Visit, NamesEnd;
    var root: seq<byte> := [SLASH];
    VisitedIff(regular, files, root, MAX_FILES, t);
    if names :| BelowRoot(regular, files, names, t.path) && |names| + t.free == MAX_FILES {
      NeverTooLong(regular, files, root, names, t.path);
      assert Reached(regular, files, root, names, t.path, MAX_FILES, t.free);
    }
    if names :| Reached(regular, files, root, names, t.path, MAX_FILES, t.free) {
      assert BelowRoot(regular, files, names, t.path);
    }
  }

  /** Without discarding, a file of the tree is indexed if and only if fewer than 64 names lead to it. */
  lemma IndexedIff(regular: iset<seq<byte>>, files: Files, p: seq<byte>)
    requires NamesEnd(regular, files)
    ensures p in After(false, files, Nothing(), WholeDisk(regular, files)).scanned <==>
              exists names :: BelowRoot(regular, files, names, p) && |names| < MAX_FILES
  {
    hide BelowRoot, WholeDisk, After, NamesEnd;
    var turns := WholeDisk(regular, files);
    IndexedOfAll(files, turns, p);
    if names :| BelowRoot(regular, files, names, p) && |names| < MAX_FILES {
      var t := Turn(p, MAX_FILES - |names|);
      WholeDiskIff(regular, files, t);
      assert t in turns && t.path == p && t.free > 0;
    }
    if t :| t in turns && t.path == p && t.free > 0 {
      WholeDiskIff(regular, files, t);
    }
  }

  /** With discarding: if at most 62 names lead to each file of the tree, all contents are indexed, each of them once. */
  lemma ContentsIndexed(regular: iset<seq<byte>>, files: Files)
    requires NamesEnd(regular, files)
    requires forall names, p :: BelowRoot(regular, files, names, p) ==> |names| + 2 <= MAX_FILES
    ensures var scanned := After(true, files, Nothing(), WholeDisk(regular, files)).scanned;
            && AllDifferent(scanned, files)
            && (forall names, p :: BelowRoot(regular, files, names, p) ==> HasContents(scanned, files, At(files, p)))
            && (forall p :: p in scanned ==> exists names :: BelowRoot(regular, files, names, p))
  {
    hide BelowRoot, WholeDisk, After, NamesEnd, HasContents, AllDifferent, Firsts;
    var turns := WholeDisk(regular, files);
    forall t | t in turns ensures t.free >= 2 && exists names :: BelowRoot(regular, files, names, t.path) {
      WholeDiskIff(regular, files, t);
    }
    RoomKeepsFirsts(files, turns);
    FirstsCover(PathsOf(turns), files);
    forall names, p | BelowRoot(regular, files, names, p) ensures p in PathsOf(turns) {
      var t := Turn(p, MAX_FILES - |names|);
      WholeDiskIff(regular, files, t);
      var i :| 0 <= i < |turns| && turns[i] == t;
      assert PathsOf(turns)[i] == p;
    }
  }

  /** An empty table of open files, over a disk behind an empty cache. */
  method OpenDisk(disk: Disk, cacheSizeInKB: nat) returns (fileops: Fileops)
    requires disk.Valid() && cacheSizeInKB >= 2
    ensures fileops.Valid() && fileops.disk == disk && Free(fileops.openFileTable[..]) == MAX_FILES
    ensures fresh(fileops.Repr())
  {
    hide Disk.Valid, Fileops.Valid, CacheSetor.Valid;
    var cacheMem := new byte[cacheSizeInKB * 1024];
    var diskimg := new DiskImg(disk.image, cacheMem, 512 * 2, cacheSizeInKB * 1024 - 512 * 2);
    fileops := new Fileops(disk, diskimg);
    fileops.Table();
    AllFree(fileops.openFileTable[..]);
  }

  /** What BuildDiskIndex sets up: the cached disk, the open files, the pathstore, the index and the scanner, all empty. */
  method NewScan(disk: Disk, sha1: seq<byte> -> Digest, cacheSizeInKB: nat) returns (scan: Scan)
    requires disk.Valid() && cacheSizeInKB >= 2
    ensures scan.Valid() && scan.fileops.Valid() && scan.fileops.disk == disk && scan.Now() == Nothing()
    ensures Free(scan.fileops.openFileTable[..]) == MAX_FILES
    ensures fresh(scan) && fresh(scan.store) && fresh(scan.ind) && fresh(scan.fileops.Repr())
  {
    hide AllEntries, Fileops.Valid, Disk.Valid, Free;
    var fileops := OpenDisk(disk, cacheSizeInKB);
    ghost var repr, table := fileops.Repr(), fileops.openFileTable[..];
    var store := new Pathstore(fileops, sha1);
    var ind := new Index();
    assert ind !in repr && fileops.openFileTable[..] == table;
    scan := new Scan(store, ind);
  }

  /**
   BuildDiskIndex. What is indexed is exactly what the calls of Scan_File for the whole disk leave. Without discarding,
   that is the files of the tree that fewer than 64 names lead to, and no others. With discarding, if at most 62 names lead
   to each file, it is one file for all contents of files of the tree.
  */
  method BuildDiskIndex(disk: Disk, sha1: seq<byte> -> Digest, cacheSizeInKB: nat, discardDups: bool) returns (scan: Scan, err: int)
    requires disk.Valid() && NamesEndOn(disk) && cacheSizeInKB >= 2
    ensures scan.Valid() && scan.fileops.disk == disk && fresh(scan)
    ensures var files := scan.fileops.files;
            scan.Now() == After(discardDups, files, Nothing(), WholeDisk(scan.fileops.regular, files))
    ensures scan.ind.log == AllEntries(scan.scanned, scan.fileops.files)
    ensures !discardDups ==> forall p :: p in scan.scanned <==>
              exists names :: BelowRoot(scan.fileops.regular, scan.fileops.files, names, p) && |names| < MAX_FILES
    ensures discardDups
            && (forall names, p :: BelowRoot(scan.fileops.regular, scan.fileops.files, names, p) ==> |names| + 2 <= MAX_FILES) ==>
              && AllDifferent(scan.scanned, scan.fileops.files)
              && (forall names, p :: BelowRoot(scan.fileops.regular, scan.fileops.files, names, p) ==>
                    HasContents(scan.scanned, scan.fileops.files, At(scan.fileops.files, p)))
              && (forall p :: p in scan.scanned ==> exists names :: BelowRoot(scan.fileops.regular, scan.fileops.files, names, p))
    ensures err == if [SLASH] in scan.fileops.regular || |scan.fileops.FileOf([SLASH])| % 16 == 0 then 0 else -1
  {
    hide Visit, AllEntries, After, NamesEnd, NamesEndOn, Fileops.Valid, Fileops.TableOk, Disk.Valid, Pathstore.Valid,
         Index.Valid, BelowRoot, AllDifferent, HasContents;
    scan := NewScan(disk, sha1, cacheSizeInKB);
    NamesEndFor(scan.fileops);
    ghost var regular, files := scan.fileops.regular, scan.fileops.files;
    err := scan.TreeAndIndex([SLASH], discardDups);
    if discardDups {
      if forall names, p :: BelowRoot(regular, files, names, p) ==> |names| + 2 <= MAX_FILES {
        ContentsIndexed(regular, files);
      }
    } else {
      forall p ensures p in scan.scanned <==> exists names :: BelowRoot(regular, files, names, p) && |names| < MAX_FILES {
        IndexedIff(regular, files, p);
      }
    }
  }

  /** Without discarding, a search finds the places of the word in all the files that fewer than 64 names lead to. */
  lemma SearchOfAll(regular: iset<seq<byte>>, files: Files, w: seq<byte>, l: Location)
    requires NamesEnd(regular, files)
    ensures l in Found(AllEntries(After(false, files, Nothing(), WholeDisk(regular, files)).scanned, files), w) <==>
              && (exists names :: BelowRoot(regular, files, names, l.pathname) && |names| < MAX_FILES)
              && l.offset > 0 && IsStart(At(files, l.pathname), l.offset - 1)
              && w == PieceAt(At(files, l.pathname), l.offset - 1)
  {
    hide AllEntries, Found, IsStart, PieceAt, After, BelowRoot, NamesEnd;
    IndexedIff(regular, files, l.pathname);
    SearchExactly(After(false, files, Nothing(), WholeDisk(regular, files)).scanned, files, w, l);
  }

  /** With discarding, every word of every file of the tree is found at its offset in an indexed file with the same contents. */
  lemma SearchOfFirsts(regular: iset<seq<byte>>, files: Files, names: seq<seq<byte>>, path: seq<byte>, p: nat)
    requires NamesEnd(regular, files)
    requires forall names, p :: BelowRoot(regular, files, names, p) ==> |names| + 2 <= MAX_FILES
    requires BelowRoot(regular, files, names, path) && IsStart(At(files, path), p)
    ensures var indexed := After(true, files, Nothing(), WholeDisk(regular, files)).scanned;
            exists q :: q in indexed && At(files, q) == At(files, path)
              && Location(q, p + 1) in Found(AllEntries(indexed, files), PieceAt(At(files, path), p))
  {
    hide AllEntries, Found, IsStart, PieceAt, AllDifferent, After, BelowRoot, NamesEnd, HasContents;
    ContentsIndexed(regular, files);
    EveryWordIsFound(After(true, files, Nothing(), WholeDisk(regular, files)).scanned, files, At(files, path), p);
  }

  // ----- a file that is too deep

  /** "/a/a ... /a", n times. */
  function DeepPath(n: nat): (path: seq<byte>)
    ensures |path| == if n == 0 then 1 else 2 * n
  {
    if n == 0 then [SLASH] else Child(DeepPath(n - 1), NAME_A)
  }

  function BytesAt(path: seq<byte>): seq<byte>
  {
    ONLY_A
  }

  /** Every directory holds only "a", and d names down "a" is a regular file. */
  ghost function DeepFiles(): Files
  {
    imap path: seq<byte> | true :: BytesAt(path)
  }

  ghost function DeepRegular(d: nat): iset<seq<byte>>
  {
    iset{DeepPath(d)}
  }

  lemma OnlyEntryIsA()
    ensures forall name :: IsEntry(ONLY_A, name) <==> name == NAME_A
    ensures Terminated(ONLY_A)
  {
    hide CString, Terminated;
    OnlyA();
    forall name ensures HasEntry(ONLY_A, 1, name) <==> name == NAME_A {
      assert CString(NameBytes(ONLY_A, 0)) == NAME_A;
    }
  }

  lemma {:induction false} OnlyDeep(d: nat, k: nat, names: seq<seq<byte>>, p: seq<byte>)
    requires Below(DeepRegular(d), DeepFiles(), DeepPath(k), names, p)
    ensures p == DeepPath(k + |names|) == DeepPath(d)
    decreases |names|
  {
    hide DeepPath, IsEntry;
    if names != [] {
      OnlyEntryIsA();
      DeepStep(k);
      OnlyDeep(d, k + 1, names[1..], p);
    }
  }

  lemma DeepStep(k: nat)
    ensures DeepPath(k + 1) == Child(DeepPath(k), NAME_A)
  {
  }

  lemma {:induction false} DeepIsBelow(d: nat, k: nat, names: seq<seq<byte>>)
    requires k + |names| == d && forall i :: 0 <= i < |names| ==> names[i] == NAME_A
    ensures Below(DeepRegular(d), DeepFiles(), DeepPath(k), names, DeepPath(d))
    decreases |names|
  {
    hide DeepPath, IsEntry;
    if names != [] {
      OnlyEntryIsA();
      DeepStep(k);
      DeepDiffers(k, d);
      DeepIsBelow(d, k + 1, names[1..]);
    }
  }

  lemma DeepDiffers(k: nat, d: nat)
    ensures DeepPath(k) == DeepPath(d) <==> k == d
  {
  }

  /** The file is in the tree at every depth d, but it is indexed only for d below 64, with or without discarding. */
  lemma TooDeep(d: nat, discardDups: bool)
    ensures NamesEnd(DeepRegular(d), DeepFiles())
    ensures BelowRoot(DeepRegular(d), DeepFiles(), seq(d, _ => NAME_A), DeepPath(d))
    ensures DeepPath(d) in After(discardDups, DeepFiles(), Nothing(), WholeDisk(DeepRegular(d), DeepFiles())).scanned <==> d < 64
  {
    hide WholeDisk, After, Below, DeepPath, DeepRegular;
    OnlyEntryIsA();
    var regular, files, names := DeepRegular(d), DeepFiles(), seq(d, _ => NAME_A);
    var p, turns := DeepPath(d), WholeDisk(regular, files);
    DeepRoot();
    DeepIsBelow(d, 0, names);
    forall t | t in turns ensures d <= MAX_FILES && t == Turn(p, MAX_FILES - d) {
      WholeDiskIff(regular, files, t);
      var ns :| BelowRoot(regular, files, ns, t.path) && |ns| + t.free == MAX_FILES;
      OnlyDeep(d, 0, ns, t.path);
      DeepDiffers(|ns|, d);
    }
    if d < MAX_FILES {
      WholeDiskIff(regular, files, Turn(p, MAX_FILES - d));
      assert BelowRoot(regular, files, names, p);
      assert turns[0] in turns;
      FirstIsIndexed(discardDups, files, turns);
    } else if p in After(discardDups, files, Nothing(), turns).scanned {
      IndexedWasOpened(discardDups, files, turns, p);
    }
  }

  lemma DeepRoot()
    ensures DeepPath(0) == [SLASH]
  {
  }
}
