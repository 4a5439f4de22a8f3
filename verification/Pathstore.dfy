/**
 The store of indexed paths of 2/pathstore.c, which discards a file whose contents are already stored. Checksums only
 save comparisons: nothing is assumed about collisions.
*/
module Pathstores {
  import opened Bytes
  import opened DiskImgs
  import opened UnixFs
  import opened FileopsTable

  datatype Element = Element(pathname: seq<byte>, chksum: Digest)

  ghost function StoredPaths(es: seq<Element>): set<seq<byte>>
  {
    set e | e in es :: e.pathname
  }

  ghost predicate HasStored(stored: set<seq<byte>>, files: Files, f: seq<byte>)
  {
    exists q :: q in stored && At(files, q) == f
  }

  /** A path is discarded: it is stored, or two files can be opened and one with the same contents is stored. */
  ghost predicate Hidden(stored: set<seq<byte>>, files: Files, path: seq<byte>, free: nat)
  {
    path in stored || (free >= 2 && HasStored(stored, files, At(files, path)))
  }

  /** What getchar returns at position k. */
  function CharAt(f: seq<byte>, k: nat): int
  {
    if k < |f| then f[k] else -1
  }

  /** Slots that were free before and are free after are as good as untouched. */
  lemma Closed(t: seq<OpenFile>, u: seq<OpenFile>, fd1: nat, fd2: nat)
    requires |t| == |u| && fd1 < |t| && fd2 < |t|
    requires t[fd1].pathname.None? && t[fd2].pathname.None? && u[fd1].pathname.None? && u[fd2].pathname.None?
    requires forall k :: 0 <= k < |t| && k != fd1 && k != fd2 ==> t[k] == u[k]
    ensures SameOpen(t, u)
  {
  }

  class Pathstore {
    const fileops: Fileops
    const sha1: seq<byte> -> Digest
    /** elementList, the newest element first. */
    var elements: seq<Element>
    /** Some path was stored without the check for duplicates, or while the check could not open two files. */
    ghost var cramped: bool
    /** Some path was stored without a checksum of its file. */
    ghost var unchecked: bool

    ghost function Sha1(f: seq<byte>): Digest
    {
      sha1(f)
    }

    ghost predicate Valid()
      reads this, fileops.Repr()
    {
      && fileops.Valid() && this !in fileops.Repr()
      && (unchecked ==> cramped) && (!unchecked ==> Summed(elements)) && (!cramped ==> Checked(elements))
    }

    /** Each element carries the checksum of its file. */
    ghost predicate Summed(es: seq<Element>)
    {
      forall e :: e in es ==> e.chksum == Sha1(fileops.FileOf(e.pathname))
    }

    /** No two stored files have the same contents. */
    ghost predicate Checked(es: seq<Element>)
    {
      forall i, j :: 0 <= i < j < |es| ==> fileops.FileOf(es[i].pathname) != fileops.FileOf(es[j].pathname)
    }

    constructor (fileops: Fileops, sha1: seq<byte> -> Digest)
      requires fileops.Valid()
      ensures Valid() && this.fileops == fileops && this.sha1 == sha1 && elements == [] && !cramped && !unchecked
    {
      this.fileops, this.sha1, elements, cramped, unchecked := fileops, sha1, [], false, false;
    }

    /** The comparison loop of IsSameFile, on two files open at their starts. */
    method SameContents(fd1: nat, fd2: nat) returns (same: bool)
      requires fileops.Valid() && fd1 < MAX_FILES && fd2 < MAX_FILES && fd1 != fd2
      requires fileops.openFileTable[fd1].pathname.Some? && fileops.openFileTable[fd1].cursor == 0
      requires fileops.openFileTable[fd2].pathname.Some? && fileops.openFileTable[fd2].cursor == 0
      modifies fileops.Repr()
      ensures fileops.Valid()
      ensures same <==> old(fileops.BytesOf(fd1) == fileops.BytesOf(fd2))
      ensures forall k :: 0 <= k < MAX_FILES && k != fd1 && k != fd2 ==>
                fileops.openFileTable[k] == old(fileops.openFileTable[k])
      ensures fileops.openFileTable[fd1].pathname == old(fileops.openFileTable[fd1].pathname)
      ensures fileops.openFileTable[fd2].pathname == old(fileops.openFileTable[fd2].pathname)
    {
      hide Fileops.Valid, Fileops.TableOk, DiskImg.Good, DiskImg.Valid;
      fileops.Table();
      ghost var f1, f2 := fileops.BytesOf(fd1), fileops.BytesOf(fd2);
      ghost var k := 0;
      var ch1 := fileops.GetChar(fd1);
      var ch2 := fileops.GetChar(fd2);
      while ch1 == ch2 && ch1 != -1
        invariant fileops.Valid() && k <= |f1| && k <= |f2| && forall i :: 0 <= i < k ==> f1[i] == f2[i]
        invariant ch1 == CharAt(f1, k) && ch2 == CharAt(f2, k)
        invariant fileops.openFileTable[fd1]
               == old(fileops.openFileTable[fd1]).(cursor := if k < |f1| then k + 1 else k)
        invariant fileops.openFileTable[fd2]
               == old(fileops.openFileTable[fd2]).(cursor := if k < |f2| then k + 1 else k)
        invariant forall i :: 0 <= i < MAX_FILES && i != fd1 && i != fd2 ==>
                    fileops.openFileTable[i] == old(fileops.openFileTable[i])
        decreases |f1| - k
      {
        k := k + 1;
        ch1 := fileops.GetChar(fd1);
        ch2 := fileops.GetChar(fd2);
      }
      return ch1 == ch2;
    }

    /** IsSameFile */
    method IsSameFile(pathname1: seq<byte>, checkSum: Digest, e: Element) returns (same: bool)
      requires fileops.Valid()
      modifies fileops.Repr()
      ensures fileops.Valid() && SameOpen(old(fileops.openFileTable[..]), fileops.openFileTable[..])
      ensures same <==> Same(old(Free(fileops.openFileTable[..])), pathname1, checkSum, e)
    {
      hide Fileops.Valid, Fileops.TableOk, DiskImg.Good, DiskImg.Valid, Free;
      fileops.Table();
      if pathname1 == e.pathname {
        return true;
      }
      var sameChecksum := ChksumCompare(checkSum, e.chksum);
      if !sameChecksum {
        return false;
      }
      var fd1 := fileops.Open(pathname1);
      if fd1 < 0 {
        return false;
      }
      var fd2 := fileops.Open(e.pathname);
      if fd2 < 0 {
        var _ := fileops.Close(fd1);
        Closed(old(fileops.openFileTable[..]), fileops.openFileTable[..], fd1, fd1);
        return false;
      }
      same := SameContents(fd1, fd2);
      var _ := fileops.Close(fd1);
      var _ := fileops.Close(fd2);
      Closed(old(fileops.openFileTable[..]), fileops.openFileTable[..], fd1, fd2);
    }

    /** When IsSameFile takes a path for a stored file: free is the number of files that can still be opened. */
    ghost predicate Same(free: nat, path: seq<byte>, chksum: Digest, e: Element)
    {
      path == e.pathname || (chksum == e.chksum && free >= 2 && fileops.FileOf(path) == fileops.FileOf(e.pathname))
    }

    /** chksumfile_bypathname; the checksum of an inode that is not allocated is whatever the buffer held. */
    method Checksum(pathname: seq<byte>) returns (chksum: Digest)
      requires fileops.Valid()
      modifies fileops.diskimg.Footprint()
      ensures fileops.Valid() && unchanged(fileops.openFileTable)
      ensures fileops.disk.IsAllocated(pathname) ==> chksum == Sha1(fileops.FileOf(pathname))
    {
      hide WellFormed, Contents, InodeAt, DiskImg.Good, DiskImg.Valid;
      assert WellFormed(fileops.disk.image, fileops.disk.lookup(pathname));
      assert fileops.FileOf(pathname) == fileops.disk.FileOf(pathname);
      var _, c := ChksumByInumber(fileops.diskimg, sha1, fileops.disk.lookup(pathname));
      return c;
    }

    /** SameFileIsInStore */
    method SameFileIsInStore(pathname: seq<byte>) returns (found: bool, chksum: Digest)
      requires Valid()
      modifies fileops.Repr()
      ensures Valid() && SameOpen(old(fileops.openFileTable[..]), fileops.openFileTable[..])
      ensures fileops.disk.IsAllocated(pathname) ==> chksum == Sha1(fileops.FileOf(pathname))
      ensures found <==>
                exists i :: 0 <= i < |elements| && Same(old(Free(fileops.openFileTable[..])), pathname, chksum, elements[i])
    {
      hide Fileops.TableOk, DiskImg.Good, DiskImg.Valid, Free, Checked;
      chksum := Checksum(pathname);
      var i := 0;
      while i < |elements|
        invariant Valid() && i <= |elements|
        invariant SameOpen(old(fileops.openFileTable[..]), fileops.openFileTable[..])
        invariant forall j :: 0 <= j < i ==> !Same(old(Free(fileops.openFileTable[..])), pathname, chksum, elements[j])
      {
        SameOpenFree(old(fileops.openFileTable[..]), fileops.openFileTable[..]);
        found := IsSameFile(pathname, chksum, elements[i]);
        if found {
          return;
        }
        i := i + 1;
      }
      return false, chksum;
    }

    /** Some stored file has this path or the same contents. */
    ghost predicate Duplicate(path: seq<byte>)
      reads this
    {
      exists e :: e in elements && (e.pathname == path || fileops.FileOf(e.pathname) == fileops.FileOf(path))
    }

    /** A duplicate can be recognised: its checksum can be computed and two files can be opened. */
    ghost predicate CanCheck(path: seq<byte>)
      requires fileops.disk.Valid()
      reads fileops.openFileTable
    {
      fileops.disk.IsAllocated(path) && Free(fileops.openFileTable[..]) >= 2
    }

    /** With the checksums of all the stored files, the search in the store decides whether the path is discarded. */
    lemma SameIsHidden(path: seq<byte>, free: nat)
      requires Summed(elements)
      ensures Hidden(StoredPaths(elements), fileops.files, path, free) <==>
                exists i :: 0 <= i < |elements| && Same(free, path, Sha1(fileops.FileOf(path)), elements[i])
    {
      if Hidden(StoredPaths(elements), fileops.files, path, free) {
        var q :| q in StoredPaths(elements) && (q == path || (free >= 2 && At(fileops.files, q) == At(fileops.files, path)));
        var e :| e in elements && e.pathname == q;
        var i :| 0 <= i < |elements| && elements[i] == e;
        assert Same(free, path, Sha1(fileops.FileOf(path)), elements[i]);
      }
      if i :| 0 <= i < |elements| && Same(free, path, Sha1(fileops.FileOf(path)), elements[i]) {
        assert elements[i].pathname in StoredPaths(elements);
      }
    }

    /** The part of Pathstore_path that adds the element; summed says whether chksum is the checksum of the file. */
    method Insert(pathname: seq<byte>, chksum: Digest, ghost summed: bool, ghost free: nat)
      requires Valid() && (summed ==> chksum == Sha1(fileops.FileOf(pathname)))
      requires summed && free >= 2 ==> forall i :: 0 <= i < |elements| ==> !Same(free, pathname, chksum, elements[i])
      modifies this
      ensures Valid() && elements == [Element(pathname, chksum)] + old(elements)
      ensures StoredPaths(elements) == StoredPaths(old(elements)) + {pathname}
      ensures unchecked == (old(unchecked) || !summed) && cramped == (old(cramped) || !(summed && free >= 2))
    {
      hide Fileops.Valid, Checked, StoredPaths, Summed, Same;
      ghost var e := Element(pathname, chksum);
      StoredOneMore(elements, e);
      cramped := cramped || !(summed && free >= 2);
      unchecked := unchecked || !summed;
      if !unchecked {
        SummedMore(elements, e);
      }
      if !cramped {
        CheckedMore(elements, e, free);
      }
      elements := [Element(pathname, chksum)] + elements;
    }

    /**
     Pathstore_path; stored is false where it returns NULL. As long as every stored path came with the checksum of its file,
     a path is discarded exactly when it is stored, or two files can be opened and its contents are stored, whatever sha1 is.
    */
    method Path(pathname: seq<byte>, discardDuplicateFiles: bool) returns (stored: bool)
      requires Valid()
      modifies this, fileops.Repr()
      ensures Valid() && SameOpen(old(fileops.openFileTable[..]), fileops.openFileTable[..])
      ensures cramped == (old(cramped) || (stored && !(discardDuplicateFiles && old(CanCheck(pathname)))))
      ensures unchecked == (old(unchecked) || (stored && !(discardDuplicateFiles && fileops.disk.IsAllocated(pathname))))
      ensures if stored then |elements| == |old(elements)| + 1 && elements[1..] == old(elements)
                             && elements[0].pathname == pathname
              else elements == old(elements)
      ensures StoredPaths(elements) == StoredPaths(old(elements)) + (if stored then {pathname} else {})
      ensures !discardDuplicateFiles ==> stored
      ensures !stored ==> old(Duplicate(pathname))
      ensures discardDuplicateFiles && fileops.disk.IsAllocated(pathname) && !old(unchecked) ==>
                (stored <==> !Hidden(StoredPaths(old(elements)), fileops.files, pathname, old(Free(fileops.openFileTable[..]))))
      ensures discardDuplicateFiles && fileops.disk.IsAllocated(pathname) ==>
                (stored <==> forall i :: 0 <= i < |old(elements)| ==>
                   !Same(old(Free(fileops.openFileTable[..])), pathname, Sha1(fileops.FileOf(pathname)), old(elements)[i]))
    {
      hide Fileops.Valid, Fileops.TableOk, DiskImg.Good, DiskImg.Valid, Free, Hidden, Checked, StoredPaths, Summed,
           Same, Duplicate;
      fileops.Table();
      if !unchecked {
        SameIsHidden(pathname, Free(fileops.openFileTable[..]));
      }
      var retornoChksum: Digest := *;
      if discardDuplicateFiles {
        var found;
        found, retornoChksum := SameFileIsInStore(pathname);
        if found {
          FoundIsDuplicate(pathname, old(Free(fileops.openFileTable[..])), retornoChksum);
          return false;
        }
      }
      Insert(pathname, retornoChksum, discardDuplicateFiles && fileops.disk.IsAllocated(pathname),
             old(Free(fileops.openFileTable[..])));
      return true;
    }

    lemma FoundIsDuplicate(path: seq<byte>, free: nat, chksum: Digest)
      requires exists i :: 0 <= i < |elements| && Same(free, path, chksum, elements[i])
      ensures Duplicate(path)
    {
      var i :| 0 <= i < |elements| && Same(free, path, chksum, elements[i]);
      assert elements[i] in elements;
    }

    lemma SummedMore(es: seq<Element>, e: Element)
      requires Summed(es) && e.chksum == Sha1(fileops.FileOf(e.pathname))
      ensures Summed([e] + es)
    {
    }

    lemma CheckedMore(es: seq<Element>, e: Element, free: nat)
      requires Summed(es) && Checked(es) && free >= 2 && e.chksum == Sha1(fileops.FileOf(e.pathname))
      requires forall i :: 0 <= i < |es| ==> !Same(free, e.pathname, e.chksum, es[i])
      ensures Checked([e] + es)
    {
      forall i | 0 <= i < |es| ensures fileops.FileOf(e.pathname) != fileops.FileOf(es[i].pathname) {
        assert es[i] in es && !Same(free, e.pathname, e.chksum, es[i]);
      }
    }
  }

  lemma StoredOneMore(es: seq<Element>, e: Element)
    ensures StoredPaths([e] + es) == StoredPaths(es) + {e.pathname}
  {
    assert e in [e] + es;
    forall d | d in es ensures d.pathname in StoredPaths([e] + es) {
      assert d in [e] + es;
    }
  }
}
