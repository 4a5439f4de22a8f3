/** Open files of 2/fileops.c: a table of 64 slots, each with a path, an inode number and a cursor. */
module FileopsTable {
  import opened Bytes
  import opened DiskImgs
  import opened Options
  import opened UnixFs

  const MAX_FILES := 64

  /** pathname is NULL, here None, when the slot is free; the other fields are then left over from its last use. */
  datatype OpenFile = OpenFile(pathname: Option<seq<byte>>, cursor: nat, inumber: nat)

  /** How many slots are free. */
  function Free(t: seq<OpenFile>): (n: nat)
    ensures n <= |t|
  {
    if t == [] then 0 else Free(t[..|t| - 1]) + (if t[|t| - 1].pathname.None? then 1 else 0)
  }

  /** The open files of the two tables are the same: same slots, paths, inodes and cursors. */
  ghost predicate SameOpen(t: seq<OpenFile>, u: seq<OpenFile>)
  {
    && |t| == |u|
    && forall fd :: 0 <= fd < |t| ==> t[fd].pathname == u[fd].pathname && (t[fd].pathname.Some? ==> t[fd] == u[fd])
  }

  lemma {:induction false} SameOpenFree(t: seq<OpenFile>, u: seq<OpenFile>)
    requires SameOpen(t, u)
    ensures Free(t) == Free(u)
  {
    if t != [] {
      SameOpenFree(t[..|t| - 1], u[..|t| - 1]);
    }
  }

  lemma {:induction false} FreeUpdate(t: seq<OpenFile>, fd: nat, f: OpenFile)
    requires fd < |t|
    ensures Free(t[fd := f]) + (if t[fd].pathname.None? then 1 else 0) == Free(t) + (if f.pathname.None? then 1 else 0)
  {
    var n := |t| - 1;
    if fd == n {
      assert t[fd := f][..n] == t[..n];
    } else {
      FreeUpdate(t[..n], fd, f);
      assert t[fd := f][..n] == t[..n][fd := f];
    }
  }

  lemma {:induction false} NoneFree(t: seq<OpenFile>)
    requires forall fd :: 0 <= fd < |t| ==> t[fd].pathname.Some?
    ensures Free(t) == 0
  {
    if t != [] {
      NoneFree(t[..|t| - 1]);
    }
  }

  lemma {:induction false} SomeFree(t: seq<OpenFile>, fd: nat)
    requires fd < |t| && t[fd].pathname.None?
    ensures Free(t) > 0
  {
    if fd < |t| - 1 {
      SomeFree(t[..|t| - 1], fd);
    }
  }

  /** The image, and the inode number to which pathname_lookup takes each path; every such inode is well formed. */
  datatype Disk = Disk(image: seq<byte>, lookup: seq<byte> -> nat)
  {
    ghost predicate Valid()
    {
      forall path: seq<byte> {:trigger WellFormed(image, lookup(path))} :: WellFormed(image, lookup(path))
    }

    /** The bytes that reading the file delivers. */
    ghost function FileOf(path: seq<byte>): seq<byte>
      requires Valid()
    {
      assert WellFormed(image, lookup(path));
      FileBytes(image, lookup(path))
    }

    ghost predicate IsAllocated(path: seq<byte>)
      requires Valid()
    {
      assert WellFormed(image, lookup(path));
      Allocated(InodeAt(image, lookup(path)))
    }

    ghost predicate IsFile(path: seq<byte>)
      requires Valid()
    {
      assert WellFormed(image, lookup(path));
      IsAllocated(path) && Regular(InodeAt(image, lookup(path)))
    }
  }

  /** The bytes of the file of each path. */
  type Files = imap<seq<byte>, seq<byte>>

  ghost function At(files: Files, path: seq<byte>): seq<byte>
  {
    if path in files then files[path] else []
  }

  class Fileops {
    const disk: Disk
    const diskimg: DiskImg
    const openFileTable: array<OpenFile>
    /** disk.FileOf and disk.IsFile, kept apart so that clients need not know how a file is laid out. */
    ghost const files: Files
    ghost const regular: iset<seq<byte>>

    ghost function FileOf(path: seq<byte>): seq<byte>
    {
      At(files, path)
    }

    /** Everything that reading a file may change: the table, and the cache of the disk. */
    ghost function Repr(): set<object>
    {
      diskimg.Footprint() + {openFileTable}
    }

    ghost predicate Valid()
      reads Repr()
    {
      TableOk() && diskimg.Good() && diskimg.image == disk.image && openFileTable !in diskimg.Footprint()
    }

    ghost predicate TableOk()
      reads openFileTable
    {
      && disk.Valid() && openFileTable.Length == MAX_FILES
      && (forall path {:trigger disk.FileOf(path)} :: FileOf(path) == disk.FileOf(path))
      && (forall path {:trigger disk.IsFile(path)} :: path in regular <==> disk.IsFile(path))
      && forall fd :: 0 <= fd < MAX_FILES && openFileTable[fd].pathname.Some? ==>
           openFileTable[fd].inumber == disk.lookup(openFileTable[fd].pathname.value)
    }

    lemma Table()
      requires Valid()
      ensures TableOk() && disk.Valid() && openFileTable.Length == MAX_FILES && openFileTable !in diskimg.Footprint()
    {
    }

    lemma Known(path: seq<byte>)
      requires Valid()
      ensures disk.Valid() && FileOf(path) == disk.FileOf(path) && (path in regular <==> disk.IsFile(path))
    {
    }

    /** The bytes of an open file. */
    ghost function BytesOf(fd: nat): seq<byte>
      requires TableOk() && fd < MAX_FILES && openFileTable[fd].pathname.Some?
      reads openFileTable
    {
      FileOf(openFileTable[fd].pathname.value)
    }

    constructor (disk: Disk, diskimg: DiskImg)
      requires disk.Valid() && diskimg.Good() && diskimg.image == disk.image
      ensures Valid() && this.disk == disk && this.diskimg == diskimg && fresh(openFileTable)
      ensures forall fd :: 0 <= fd < MAX_FILES ==> openFileTable[fd] == OpenFile(None, 0, 0)
    {
      hide DiskImg.Good, DiskImg.Valid, Disk.FileOf, Disk.IsFile, Disk.Valid;
      ghost var footprint := diskimg.Footprint();
      this.disk, this.diskimg := disk, diskimg;
      files := imap path: seq<byte> | true :: disk.FileOf(path);
      regular := iset path: seq<byte> | disk.IsFile(path);
      openFileTable := new OpenFile[MAX_FILES](_ => OpenFile(None, 0, 0));
      new;
      assert diskimg.Good();
      assert openFileTable !in footprint;
      assert TableOk();
    }

    /** Fileops_open: the first free slot, or -1 when there is none. */
    method Open(pathname: seq<byte>) returns (fd: int)
      requires Valid()
      modifies openFileTable
      ensures Valid()
      ensures fd == -1 <==> Free(old(openFileTable[..])) == 0
      ensures fd == -1 ==> openFileTable[..] == old(openFileTable[..])
      ensures fd != -1 ==>
                && 0 <= fd < MAX_FILES && old(openFileTable[fd].pathname.None?)
                && (forall k :: 0 <= k < fd ==> old(openFileTable[k].pathname.Some?))
                && OnlySlot(fd) && openFileTable[fd] == OpenFile(Some(pathname), 0, disk.lookup(pathname))
                && Free(openFileTable[..]) == Free(old(openFileTable[..])) - 1
    {
      hide DiskImg.Good, DiskImg.Valid;
      var inumber := disk.lookup(pathname);
      fd := 0;
      while fd < MAX_FILES && openFileTable[fd].pathname.Some?
        invariant 0 <= fd <= MAX_FILES
        invariant forall k :: 0 <= k < fd ==> openFileTable[k].pathname.Some?
      {
        fd := fd + 1;
      }
      if fd >= MAX_FILES {
        NoneFree(openFileTable[..]);
        return -1;
      }
      SomeFree(openFileTable[..], fd);
      FreeUpdate(openFileTable[..], fd, OpenFile(Some(pathname), 0, inumber));
      openFileTable[fd] := OpenFile(Some(pathname), 0, inumber);
      assert openFileTable[..] == old(openFileTable[..])[fd := OpenFile(Some(pathname), 0, inumber)];
    }

    /** Every slot but fd is as it was. */
    twostate predicate OnlySlot(fd: nat)
      reads openFileTable
    {
      forall k :: 0 <= k < openFileTable.Length && k != fd ==> openFileTable[k] == old(openFileTable[k])
    }

    /** The part of Fileops_getchar that reads the disk: byte cursor of the file, or -1 at its end. */
    method ByteAt(inumber: nat, cursor: nat) returns (ch: int)
      requires diskimg.Good() && WellFormed(diskimg.image, inumber)
      modifies diskimg.Footprint()
      ensures diskimg.Good()
      ensures var f := FileBytes(diskimg.image, inumber);
              ch == if cursor < |f| then f[cursor] else -1
    {
      hide WellFormed, BlockOf, Contents, InodeAt, DiskImg.Good, DiskImg.Valid;
      InodeInImage(diskimg.image, inumber);
      var ino := InodeIget(diskimg, inumber);
      if !Allocated(ino) {
        return -1;
      }
      var size := GetSize(ino);
      if cursor >= size {
        return -1;
      }
      var blockNo, blockOffset := cursor / 512, cursor % 512;
      var buf := new byte[512];
      ByteOfFile(diskimg.image, inumber, cursor);
      var bytesMoved := FileGetBlock(diskimg, inumber, blockNo, buf);
      assert bytesMoved > blockOffset;    // the assertion in the code
      assert buf[..][blockOffset] == buf[blockOffset];
      return buf[blockOffset];
    }

    lemma OpenFileIsWellFormed(fd: nat)
      requires Valid() && fd < MAX_FILES && openFileTable[fd].pathname.Some?
      ensures WellFormed(diskimg.image, openFileTable[fd].inumber)
      ensures BytesOf(fd) == FileBytes(diskimg.image, openFileTable[fd].inumber)
    {
      var path := openFileTable[fd].pathname.value;
      assert WellFormed(disk.image, disk.lookup(path));
      assert FileOf(path) == disk.FileOf(path);
    }

    /** Fileops_getchar: the byte under the cursor, which moves on; -1 at the end of the file. */
    method GetChar(fd: nat) returns (ch: int)
      requires Valid() && fd < MAX_FILES
      modifies Repr()
      ensures Valid() && OnlySlot(fd)
      ensures old(openFileTable[fd].pathname.None?) ==> ch == -1 && openFileTable[fd] == old(openFileTable[fd])
      ensures old(openFileTable[fd].pathname.Some?) ==>
                var f, c := old(BytesOf(fd)), old(openFileTable[fd].cursor);
                && ch == (if c < |f| then f[c] else -1)
                && openFileTable[fd] == old(openFileTable[fd]).(cursor := if c < |f| then c + 1 else c)
    {
      hide WellFormed, FileBytes, DiskImg.Good, DiskImg.Valid;
      if openFileTable[fd].pathname.None? {
        return -1;
      }
      OpenFileIsWellFormed(fd);
      ch := ByteAt(openFileTable[fd].inumber, openFileTable[fd].cursor);
      if ch == -1 {
        return;
      }
      openFileTable[fd] := openFileTable[fd].(cursor := openFileTable[fd].cursor + 1);
    }

    /** Fileops_read: as many bytes as are left, up to length. */
    method Read(fd: nat, buffer: array<byte>, length: nat) returns (n: nat)
      requires Valid() && fd < MAX_FILES && openFileTable[fd].pathname.Some? && length <= buffer.Length && buffer !in Repr()
      modifies Repr(), buffer
      ensures Valid() && OnlySlot(fd)
      ensures n == Left(old(BytesOf(fd)), old(openFileTable[fd].cursor), length)
      ensures forall k :: 0 <= k < n ==> buffer[k] == old(BytesOf(fd)[openFileTable[fd].cursor + k])
      ensures forall k :: n <= k < buffer.Length ==> buffer[k] == old(buffer[k])
      ensures openFileTable[fd] == old(openFileTable[fd]).(cursor := old(openFileTable[fd].cursor) + n)
    {
      hide Valid, TableOk, DiskImg.Good, DiskImg.Valid;
      Table();
      ghost var slot, f, c := openFileTable[fd], BytesOf(fd), openFileTable[fd].cursor;
      n := 0;
      while n < length
        invariant n <= length && Valid() && OnlySlot(fd)
        invariant openFileTable[fd] == slot.(cursor := c + n)
        invariant n > 0 ==> c + n <= |f|
        invariant forall k :: 0 <= k < n ==> buffer[k] == f[c + k]
        invariant forall k :: n <= k < buffer.Length ==> buffer[k] == old(buffer[k])
      {
        var ch := GetChar(fd);
        if ch == -1 {
          return;
        }
        buffer[n] := ch;
        n := n + 1;
      }
    }

    /** How many of length bytes there are from the cursor on. */
    ghost function Left(f: seq<byte>, cursor: nat, length: nat): (n: nat)
      ensures n <= length && (n > 0 ==> cursor + n <= |f|)
    {
      if cursor >= |f| then 0 else if cursor + length <= |f| then length else |f| - cursor
    }

    method Tell(fd: nat) returns (pos: int)
      requires Valid() && fd < MAX_FILES
      ensures pos == if openFileTable[fd].pathname.None? then -1 else openFileTable[fd].cursor
    {
      if openFileTable[fd].pathname.None? {
        return -1;
      }
      return openFileTable[fd].cursor;
    }

    method Close(fd: nat) returns (ret: int)
      requires Valid() && fd < MAX_FILES
      modifies openFileTable
      ensures Valid() && ret == if old(openFileTable[fd].pathname.Some?) then 0 else -1
      ensures OnlySlot(fd) && openFileTable[fd] == old(openFileTable[fd]).(pathname := None)
    {
      hide DiskImg.Good, DiskImg.Valid;
      if openFileTable[fd].pathname.None? {
        return -1;
      }
      openFileTable[fd] := openFileTable[fd].(pathname := None);
      return 0;
    }

    method IsFile(pathname: seq<byte>) returns (b: bool)
      requires Valid()
      modifies diskimg.Footprint()
      ensures Valid() && unchanged(openFileTable)
      ensures b <==> pathname in regular
    {
      hide DiskImg.Good, DiskImg.Valid;
      assert pathname in regular <==> disk.IsFile(pathname);
      assert WellFormed(disk.image, disk.lookup(pathname));
      var ino := InodeIget(diskimg, disk.lookup(pathname));
      b := Allocated(ino) && Regular(ino);
    }
  }
}
