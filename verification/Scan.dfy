/** The scanner of 2/scan.c: it indexes the words of a file, and of all the files below a directory. */
module Scans {
  import opened Bytes
  import opened DiskImgs
  import opened FileopsTable
  import opened Pathstores
  import opened Indexes
  import opened Words
  import opened DirEntries
  import opened ScanModel
  import opened TreeWalk

  class Scan {
    const fileops: Fileops
    const store: Pathstore
    const ind: Index
    /** The calls of Scan_File, and the paths whose words were indexed. */
    ghost var turns: seq<Turn>
    ghost var scanned: seq<seq<byte>>

    ghost predicate Valid()
      reads this, ind, store, fileops.Repr()
    {
      && store.fileops == fileops && store.Valid() && ind.Valid() && this !in fileops.Repr() && ind !in fileops.Repr()
      && ind.log == AllEntries(scanned, fileops.files)
    }

    ghost function Now(): Progress
      reads this, store
    {
      Progress(turns, StoredPaths(store.elements), scanned, store.unchecked)
    }

    constructor (store: Pathstore, ind: Index)
      requires store.Valid() && store.elements == [] && !store.unchecked
      requires ind.Valid() && ind.log == [] && ind !in store.fileops.Repr()
      ensures Valid() && this.store == store && this.ind == ind && Now() == Nothing()
    {
      fileops, this.store, this.ind := store.fileops, store, ind;
      turns, scanned := [], [];
    }

    /** The file open at fd has been read up to and with its byte p, which is ch, or up to its end. */
    ghost predicate ReadTo(fd: nat, p: nat, ch: int)
      reads fileops.Repr()
    {
      && fileops.Valid() && fileops.TableOk() && fd < MAX_FILES && fileops.openFileTable[fd].pathname.Some?
      && var f := fileops.BytesOf(fd);
      && p <= |f| && ch == CharAt(f, p) && fileops.openFileTable[fd].cursor == if p < |f| then p + 1 else p
    }

    /** The table changed at most in the cursor of fd. */
    twostate predicate OnlyCursor(fd: nat)
      reads fileops.openFileTable
    {
      && fileops.OnlySlot(fd) && fd < fileops.openFileTable.Length
      && fileops.openFileTable[fd] == old(fileops.openFileTable[fd]).(cursor := fileops.openFileTable[fd].cursor)
    }

    lemma ReadSoFar(fd: nat, p: nat, ch: int)
      requires ReadTo(fd, p, ch)
      ensures fileops.TableOk() && fd < fileops.openFileTable.Length == MAX_FILES && fileops.openFileTable[fd].pathname.Some?
      ensures p <= |fileops.BytesOf(fd)| && ch == CharAt(fileops.BytesOf(fd), p)
    {
    }

    method NextChar(fd: nat, ch0: int, ghost p: nat) returns (ch: int)
      requires ReadTo(fd, p, ch0) && ch0 != -1
      modifies fileops.Repr()
      ensures ReadTo(fd, p + 1, ch) && OnlyCursor(fd)
      ensures fileops.TableOk() && fileops.openFileTable[fd].pathname.Some?
      ensures fileops.BytesOf(fd) == old(fileops.BytesOf(fd))
      ensures p + 1 <= |fileops.BytesOf(fd)| && ch == CharAt(fileops.BytesOf(fd), p + 1)
    {
      hide Fileops.Valid, Fileops.TableOk, DiskImg.Good, DiskImg.Valid;
      ch := fileops.GetChar(fd);
      fileops.Table();
    }

    /** Skip what is not a letter. */
    method SkipToWord(fd: nat, ch0: int, ghost p0: nat) returns (ch: int, ghost p: nat)
      requires ReadTo(fd, p0, ch0)
      modifies fileops.Repr()
      ensures ReadTo(fd, p, ch) && OnlyCursor(fd) && p >= p0 && (ch == -1 || IsAlpha(ch))
      ensures ch == -1 ==> p == |fileops.BytesOf(fd)|
      ensures forall path :: FileEntries(path, old(fileops.BytesOf(fd)), p0) == FileEntries(path, old(fileops.BytesOf(fd)), p)
    {
      hide Fileops.Valid, Fileops.TableOk, Fileops.BytesOf, ReadTo, DiskImg.Good, DiskImg.Valid, FileEntries;
      ReadSoFar(fd, p0, ch0);
      ghost var f := fileops.BytesOf(fd);
      ch, p := ch0, p0;
      while ch != -1 && !IsAlpha(ch)
        invariant ReadTo(fd, p, ch) && OnlyCursor(fd) && p0 <= p <= |f| && ch == CharAt(f, p)
        invariant fileops.TableOk() && fileops.openFileTable[fd].pathname.Some? && fileops.BytesOf(fd) == f
        invariant forall path :: FileEntries(path, f, p0) == FileEntries(path, f, p)
        decreases |f| - p
      {
        ch := NextChar(fd, ch, p);
        SkipEntry(f, p);
        p := p + 1;
      }
    }

    /** Read letters until the word buffer is full, the file ends, or something else comes. */
    method ReadWord(fd: nat, ch0: int, ghost p0: nat) returns (keyword: seq<byte>, ch: int)
      requires ReadTo(fd, p0, ch0) && IsAlpha(ch0)
      modifies fileops.Repr()
      ensures keyword == PieceAt(old(fileops.BytesOf(fd)), p0)
      ensures ReadTo(fd, p0 + |keyword|, ch) && OnlyCursor(fd) && |keyword| > 0
    {
      hide Fileops.Valid, Fileops.TableOk, DiskImg.Good, DiskImg.Valid, PieceAt, Run,
           Fileops.BytesOf, ReadTo, AreLetters;
      ReadSoFar(fd, p0, ch0);
      ghost var f := fileops.BytesOf(fd);
      var word := new byte[64 + 1];
      assert word !in fileops.Repr();
      hide Fileops.Repr, DiskImg.Footprint;
      NoLetters(f, p0);
      assert word[..0] == [];
      var pos := 0;
      ch := ch0;
      while pos < 64 && ch >= 0 && IsAlpha(ch)
        invariant pos <= 64 && ReadTo(fd, p0 + pos, ch) && OnlyCursor(fd) && p0 + pos <= |f| && ch == CharAt(f, p0 + pos)
        invariant fileops.TableOk() && fileops.openFileTable[fd].pathname.Some? && fileops.BytesOf(fd) == f
        invariant pos == 0 ==> ch == ch0
        invariant AreLetters(word[..pos], f, p0)
      {
        word[pos] := ch;
        MoreLetters(word[..pos], f, p0, word[pos]);
        assert word[..pos + 1] == word[..pos] + [word[pos]];
        pos := pos + 1;
        ch := NextChar(fd, ch, p0 + pos - 1);
      }
      word[pos] := 0;
      keyword := word[..pos];
      PieceIs(f, p0, keyword);
    }

    /** Read a word and store it. */
    method IndexWord(pathname: seq<byte>, fd: nat, ch0: int, ghost p0: nat) returns (ch: int, ghost p: nat)
      requires ReadTo(fd, p0, ch0) && IsAlpha(ch0) && ind.Valid() && ind !in fileops.Repr()
      modifies ind, fileops.Repr()
      ensures p == p0 + |PieceAt(old(fileops.BytesOf(fd)), p0)| > p0
      ensures ReadTo(fd, p, ch) && OnlyCursor(fd) && ind.Valid()
      ensures ind.log == old(ind.log) + [Entry(PieceAt(old(fileops.BytesOf(fd)), p0), Location(pathname, p0 + 1))]
    {
      hide Fileops.Valid, Fileops.TableOk, DiskImg.Good, DiskImg.Valid, PieceAt, Run, Found, Index.Valid;
      var offset := fileops.Tell(fd);
      var word;
      word, ch := ReadWord(fd, ch0, p0);
      p := p0 + |word|;
      var ok := ind.StoreEntry(word, pathname, offset);
    }

    /** The part of Scan_File that reads the open file to its end. */
    method IndexWords(pathname: seq<byte>, fd: nat)
      requires fileops.Valid() && ind.Valid() && ind !in fileops.Repr() && fd < MAX_FILES
      requires fileops.openFileTable[fd].pathname.Some? && fileops.openFileTable[fd].cursor == 0
      modifies ind, fileops.Repr()
      ensures fileops.Valid() && ind.Valid() && OnlyCursor(fd)
      ensures ind.log == old(ind.log) + FileEntries(pathname, old(fileops.BytesOf(fd)), 0)
    {
      hide Fileops.Valid, Fileops.TableOk, DiskImg.Good, DiskImg.Valid, FileEntries, PieceAt, Run, IsAlpha, Found, At;
      fileops.Table();
      ghost var f := fileops.BytesOf(fd);
      ghost var p := 0;
      var ch := fileops.GetChar(fd);
      fileops.Table();
      while ch >= 0
        invariant ReadTo(fd, p, ch) && OnlyCursor(fd) && ind.Valid()
        invariant ind.log + FileEntries(pathname, f, p) == old(ind.log) + FileEntries(pathname, f, 0)
        decreases |f| - p
      {
        ch, p := SkipToWord(fd, ch, p);
        if ch < 0 {
          break;
        }
        ghost var log, p' := ind.log, p;
        ch, p := IndexWord(pathname, fd, ch, p);
        Shift(pathname, f, p', log, ind.log);
      }
      NoMoreEntries(pathname, f);
    }

    /** The part of Scan_File behind Pathstore_path: open the file, index its words, and close it. */
    method IndexFile(inpathname: seq<byte>) returns (ret: int)
      requires Valid()
      modifies this`scanned, ind, fileops.Repr()
      ensures Valid() && SameOpen(old(fileops.openFileTable[..]), fileops.openFileTable[..])
      ensures scanned == if old(Free(fileops.openFileTable[..])) > 0 then old(scanned) + [inpathname] else old(scanned)
      ensures ret == if old(Free(fileops.openFileTable[..])) == 0 then -1 else 0
    {
      hide Fileops.Valid, Fileops.TableOk, DiskImg.Good, DiskImg.Valid, AllEntries, FileEntries, Found, Free, At, Index.Valid,
           Pathstore.Checked, Pathstore.Summed;
      fileops.Table();
      var fd := fileops.Open(inpathname);
      if fd < 0 {
        return -1;
      }
      IndexWords(inpathname, fd);
      scanned := scanned + [inpathname];
      AllEntriesMore(old(scanned), inpathname, fileops.files);
      var _ := fileops.Close(fd);
      return 0;
    }

    /** Scan_File */
    method ScanFile(inpathname: seq<byte>, discardDups: bool) returns (ret: int)
      requires Valid()
      modifies this, store, ind, fileops.Repr()
      ensures Valid() && SameOpen(old(fileops.openFileTable[..]), fileops.openFileTable[..])
      ensures turns == old(turns) + [Turn(inpathname, old(Free(fileops.openFileTable[..])))]
      ensures scanned == if |store.elements| > |old(store.elements)| && old(Free(fileops.openFileTable[..])) > 0
                         then old(scanned) + [inpathname] else old(scanned)
      ensures discardDups && fileops.disk.IsAllocated(inpathname) && !old(store.unchecked) ==>
                Now() == AfterFile(discardDups, fileops.files, old(Now()), Turn(inpathname, old(Free(fileops.openFileTable[..]))))
      ensures !discardDups ==>
                Now() == AfterFile(discardDups, fileops.files, old(Now()), Turn(inpathname, old(Free(fileops.openFileTable[..]))))
      ensures ret == if |store.elements| > |old(store.elements)| && old(Free(fileops.openFileTable[..])) == 0 then -1 else 0
    {
      hide Fileops.Valid, Fileops.TableOk, DiskImg.Good, DiskImg.Valid, AllEntries, Free, Index.Valid, Hidden, StoredPaths,
           Pathstore.Checked, Pathstore.Summed, Pathstore.Same;
      ghost var free := Free(fileops.openFileTable[..]);
      fileops.Known(inpathname);
      var stored := store.Path(inpathname, discardDups);
      turns := turns + [Turn(inpathname, free)];
      if !stored {
        return 0;
      }
      SameOpenFree(old(fileops.openFileTable[..]), fileops.openFileTable[..]);
      ret := IndexFile(inpathname);
    }

    /** Scan_File on a regular file. */
    method ScanRegular(pathname: seq<byte>, discardDups: bool) returns (ret: int)
      requires Valid() && pathname in fileops.regular
      modifies this, store, ind, fileops.Repr()
      ensures Valid() && SameOpen(old(fileops.openFileTable[..]), fileops.openFileTable[..])
      ensures Outcome(discardDups, fileops.files, [Turn(pathname, old(Free(fileops.openFileTable[..])))], old(Now()), Now())
      ensures ret == 0 || (ret == -1 && old(Free(fileops.openFileTable[..])) == 0)
    {
      hide Fileops.Valid, Fileops.TableOk, DiskImg.Good, DiskImg.Valid, AllEntries, Outcome, AfterFile, Index.Valid,
           Pathstore.Checked, Pathstore.Summed, StoredPaths;
      fileops.Known(pathname);
      ret := ScanFile(pathname, discardDups);
      OutcomeOne(discardDups, fileops.files, Turn(pathname, old(Free(fileops.openFileTable[..]))), old(Now()), Now());
    }

    /** The turn of the directory loop for one entry. */
    method ScanEntry(prefix: seq<byte>, n: seq<byte>, discardDups: bool)
      requires Valid() && |prefix| <= MAXPATH - 16 && |n| == 14 && 0 in n
      requires NamesEnd(fileops.regular, fileops.files)
      modifies this, store, ind, fileops.Repr()
      ensures Valid() && SameOpen(old(fileops.openFileTable[..]), fileops.openFileTable[..])
      ensures var free := old(Free(fileops.openFileTable[..]));
              Outcome(discardDups, fileops.files, VisitEntry(fileops.regular, fileops.files, prefix, CString(n), free),
                      old(Now()), Now())
      decreases Free(fileops.openFileTable[..]), 0, 2
    {
      hide Fileops.Valid, Fileops.TableOk, DiskImg.Good, DiskImg.Valid, AllEntries, Found, Visit, NamesEnd, CString, IsDots, Outcome;
      DotsTest(n);
      if n[0] == DOT {
        if n[1] == 0 || (n[1] == DOT && n[2] == 0) {
          OutcomeNone(discardDups, fileops.files, Now());
          return;
        }
      }
      var nextpath := prefix + [SLASH] + CString(n);
      assert |nextpath| < MAXPATH;    // and its NUL fit the buffer
      var _ := TreeAndIndex(nextpath, discardDups);
    }

    /** Scan_TreeAndIndex */
    method TreeAndIndex(pathname: seq<byte>, discardDups: bool) returns (ret: int)
      requires Valid() && |pathname| >= 1
      requires NamesEnd(fileops.regular, fileops.files)
      modifies this, store, ind, fileops.Repr()
      ensures Valid() && SameOpen(old(fileops.openFileTable[..]), fileops.openFileTable[..])
      ensures var free := old(Free(fileops.openFileTable[..]));
              Outcome(discardDups, fileops.files, Visit(fileops.regular, fileops.files, pathname, free), old(Now()), Now())
      ensures pathname in fileops.regular ==> ret == 0 || (ret == -1 && old(Free(fileops.openFileTable[..])) == 0)
      ensures pathname !in fileops.regular ==>
                ret == if |pathname| <= 1008 && old(Free(fileops.openFileTable[..])) > 0
                          && |fileops.FileOf(pathname)| % 16 == 0 then 0 else -1
      decreases Free(fileops.openFileTable[..]), 0, 1
    {
      hide Pathstore.Checked, Pathstore.Summed, Index.Valid, StoredPaths, Fileops.Valid, Fileops.TableOk,
           DiskImg.Good, DiskImg.Valid, AllEntries, Found, VisitEntries, NamesEnd, Outcome;
      fileops.Table();
      var isfile := fileops.IsFile(pathname);
      assert fileops.openFileTable[..] == old(fileops.openFileTable[..]);
      if isfile {
        ret := ScanRegular(pathname, discardDups);
      } else {
        ret := ScanDirectory(pathname, discardDups);
      }
    }

    /** The part of Scan_TreeAndIndex for what is no regular file. */
    method ScanDirectory(pathname: seq<byte>, discardDups: bool) returns (ret: int)
      requires Valid() && |pathname| >= 1
      requires NamesEnd(fileops.regular, fileops.files) && pathname !in fileops.regular
      modifies this, store, ind, fileops.Repr()
      ensures Valid() && SameOpen(old(fileops.openFileTable[..]), fileops.openFileTable[..])
      ensures var free := old(Free(fileops.openFileTable[..]));
              Outcome(discardDups, fileops.files, Visit(fileops.regular, fileops.files, pathname, free), old(Now()), Now())
      ensures ret == if |pathname| <= 1008 && old(Free(fileops.openFileTable[..])) > 0
                        && |fileops.FileOf(pathname)| % 16 == 0 then 0 else -1
      decreases Free(fileops.openFileTable[..]), 0, 0
    {
      hide Pathstore.Checked, Pathstore.Summed, Index.Valid, StoredPaths, Fileops.Valid, Fileops.TableOk,
           DiskImg.Good, DiskImg.Valid, AllEntries, Found, VisitEntries, NamesEnd, Outcome;
      fileops.Table();
      ghost var before := fileops.openFileTable[..];
      OutcomeNone(discardDups, fileops.files, Now());
      if |pathname| > MAXPATH - 16 {
        return -1;
      }
      var dirfd := fileops.Open(pathname);
      if dirfd < 0 {
        return -1;
      }
      ret := ScanEntries(pathname, dirfd, discardDups, before);
      var _ := fileops.Close(dirfd);
    }

    /** What the first n entries of the directory at pathname have brought about since p. */
    ghost predicate EntriesDone(pathname: seq<byte>, discardDups: bool, n: nat, free: nat, p: Progress)
      requires |pathname| >= 1 && 16 * n <= |fileops.FileOf(pathname)|
      reads this, store
    {
      var prefix, f := Prefix(pathname), fileops.FileOf(pathname);
      Outcome(discardDups, fileops.files, VisitEntries(fileops.regular, fileops.files, prefix, f, n, free), p, Now())
    }

    /** The directory loop, with the directory open at dirfd; before is the table without it. */
    method ScanEntries(pathname: seq<byte>, dirfd: nat, discardDups: bool, ghost before: seq<OpenFile>) returns (ret: int)
      requires Valid() && 1 <= |pathname| <= MAXPATH - 16
      requires NamesEnd(fileops.regular, fileops.files)
      requires pathname !in fileops.regular && Free(before) > 0
      requires OpenedAt(before, fileops.openFileTable[..], dirfd, pathname, 0)
      modifies this, store, ind, fileops.Repr()
      ensures Valid() && OpenedAt(before, fileops.openFileTable[..], dirfd, pathname, |fileops.FileOf(pathname)|)
      ensures EntriesDone(pathname, discardDups, |fileops.FileOf(pathname)| / 16, Free(before) - 1, old(Now()))
      ensures ret == if |fileops.FileOf(pathname)| % 16 == 0 then 0 else -1
      decreases Free(before) - 1, 1
    {
      hide Fileops.Valid, Fileops.TableOk, DiskImg.Good, DiskImg.Valid, AllEntries, Found, NamesEnd, OpenedAt, EntriesDone;
      ghost var f, free := fileops.FileOf(pathname), Free(before) - 1;
      ghost var k := 0;
      NothingDone(pathname, discardDups, free);
      while true
        invariant Valid() && 16 * k <= |f|
        invariant OpenedAt(before, fileops.openFileTable[..], dirfd, pathname, 16 * k)
        invariant EntriesDone(pathname, discardDups, k, free, old(Now()))
        decreases |f| - 16 * k
      {
        ret := NextEntry(pathname, dirfd, discardDups, k, before, old(Now()));
        if ret == 0 {
          break;
        }
        if ret != 16 {
          ret := -1;
          break;
        }
        k := k + 1;
      }
    }

    lemma NothingDone(pathname: seq<byte>, discardDups: bool, free: nat)
      requires |pathname| >= 1
      ensures EntriesDone(pathname, discardDups, 0, free, Now())
    {
      OutcomeNone(discardDups, fileops.files, Now());
    }

    /** A turn of that loop: read entry k and go below it, or find the end of the directory. */
    method NextEntry(pathname: seq<byte>, dirfd: nat, discardDups: bool,
                     ghost k: nat, ghost before: seq<OpenFile>, ghost p: Progress) returns (n: nat)
      requires Valid() && 1 <= |pathname| <= MAXPATH - 16
      requires NamesEnd(fileops.regular, fileops.files)
      requires pathname !in fileops.regular && Free(before) > 0
      requires 16 * k <= |fileops.FileOf(pathname)|
      requires OpenedAt(before, fileops.openFileTable[..], dirfd, pathname, 16 * k)
      requires EntriesDone(pathname, discardDups, k, Free(before) - 1, p)
      modifies this, store, ind, fileops.Repr()
      ensures Valid() && OpenedAt(before, fileops.openFileTable[..], dirfd, pathname, 16 * k + n)
      ensures n == Min(16, |fileops.FileOf(pathname)| - 16 * k)
      ensures n < 16 ==> k == |fileops.FileOf(pathname)| / 16 && n == |fileops.FileOf(pathname)| % 16
      ensures EntriesDone(pathname, discardDups, if n < 16 then k else k + 1, Free(before) - 1, p)
      decreases Free(before) - 1, 0, 4
    {
      hide Fileops.Valid, Fileops.TableOk, DiskImg.Good, DiskImg.Valid, AllEntries, Found, NamesEnd, OpenedAt, EntriesDone;
      var dirent := new byte[16];
      n := ReadEntry(pathname, dirfd, dirent, k, before);
      if n < 16 {
        WholeEntries(|fileops.FileOf(pathname)|, k);
      } else {
        EntryRead(pathname, dirfd, dirent[2..], discardDups, k, before, p);
      }
    }

    /** Entry k of the directory has been read: go below it. */
    method EntryRead(pathname: seq<byte>, dirfd: nat, n: seq<byte>, discardDups: bool,
                     ghost k: nat, ghost before: seq<OpenFile>, ghost p: Progress)
      requires Valid() && 1 <= |pathname| <= MAXPATH - 16
      requires NamesEnd(fileops.regular, fileops.files)
      requires pathname !in fileops.regular && Free(before) > 0
      requires 16 * (k + 1) <= |fileops.FileOf(pathname)| && n == NameBytes(fileops.FileOf(pathname), k)
      requires OpenedAt(before, fileops.openFileTable[..], dirfd, pathname, 16 * (k + 1))
      requires EntriesDone(pathname, discardDups, k, Free(before) - 1, p)
      modifies this, store, ind, fileops.Repr()
      ensures Valid() && OpenedAt(before, fileops.openFileTable[..], dirfd, pathname, 16 * (k + 1))
      ensures EntriesDone(pathname, discardDups, k + 1, Free(before) - 1, p)
      decreases Free(before) - 1, 0, 3
    {
      hide Fileops.Valid, Fileops.TableOk, DiskImg.Good, DiskImg.Valid, AllEntries, Found, VisitEntry, Outcome;
      OpenedFree(before, fileops.openFileTable[..], dirfd, pathname, 16 * (k + 1));
      var prefix := if |pathname| == 1 then pathname[1..] else pathname;
      assert prefix == Prefix(pathname);
      assert Terminated(At(fileops.files, pathname));
      ScanEntry(prefix, n, discardDups);
      ghost var free, f := Free(before) - 1, fileops.FileOf(pathname);
      OutcomeMore(discardDups, fileops.files, VisitEntries(fileops.regular, fileops.files, prefix, f, k, free),
                  VisitEntry(fileops.regular, fileops.files, prefix, CString(n), free), p, old(Now()), Now());
      OpenedKept(before, old(fileops.openFileTable[..]), fileops.openFileTable[..], dirfd, pathname, 16 * (k + 1));
    }

    /** Fileops_read of one directory entry. */
    method ReadEntry(pathname: seq<byte>, dirfd: nat, dirent: array<byte>, ghost k: nat, ghost before: seq<OpenFile>)
      returns (n: nat)
      requires fileops.Valid() && dirent.Length == 16 && dirent !in fileops.Repr() && 16 * k <= |fileops.FileOf(pathname)|
      requires OpenedAt(before, fileops.openFileTable[..], dirfd, pathname, 16 * k)
      modifies fileops.Repr(), dirent
      ensures fileops.Valid() && OpenedAt(before, fileops.openFileTable[..], dirfd, pathname, 16 * k + n)
      ensures n == Min(16, |fileops.FileOf(pathname)| - 16 * k)
      ensures n == 16 ==> dirent[2..] == NameBytes(fileops.FileOf(pathname), k)
    {
      hide Fileops.Valid, Fileops.TableOk, DiskImg.Good, DiskImg.Valid;
      fileops.Table();
      n := fileops.Read(dirfd, dirent, 16);
    }
  }

  lemma WholeEntries(size: nat, k: nat)
    requires 16 * k <= size < 16 * (k + 1)
    ensures size / 16 == k && size % 16 == size - 16 * k
  {
  }

  function Min(a: int, b: int): int
  {
    if a < b then a else b
  }
}
