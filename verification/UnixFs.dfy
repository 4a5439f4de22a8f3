/**
 The Unix V6 file system of 2/assign1: inodes, block addressing and the bytes of a file. Sectors are read through
 the cached disk, which returns what the image holds.
*/
module UnixFs {
  import opened Bytes
  import opened DiskImgs

  const INODE_START_SECTOR := 2

  const IALLOC := 0x8000
  const IFDIR := 0x4000
  const ILARG := 0x1000

  datatype Inode = Inode(mode: nat, size0: byte, size1: nat, addr: seq<nat>)

  // ----- what the code computes

  /** A sector of the image; only sectors of the image are ever looked at. */
  function SectorAt(image: seq<byte>, n: int): (s: seq<byte>)
    ensures |s| == 512
  {
    if InImage(image, n) then SectorOf(image, n) else seq(512, _ => 0)
  }

  /** A little-endian 16-bit word. */
  function Word(s: seq<byte>, k: nat): (w: nat)
    requires k + 1 < |s|
    ensures w < 0x1_0000
  {
    s[k] as int + 256 * (s[k + 1] as int)
  }

  function Bit(mode: nat, flag: nat): bool
    requires flag > 0
  {
    (mode / flag) % 2 == 1
  }

  predicate Allocated(ino: Inode) { Bit(ino.mode, IALLOC) }

  predicate Large(ino: Inode) { Bit(ino.mode, ILARG) }

  /** IFMT covers the bits IFDIR and 020000: a regular file has neither. */
  predicate Regular(ino: Inode) { !Bit(ino.mode, IFDIR) && !Bit(ino.mode, 0x2000) }

  function DecodeInode(s: seq<byte>, at: nat): (ino: Inode)
    requires at + 32 <= |s|
    ensures |ino.addr| == 8 && ino.size1 < 0x1_0000
  {
    Inode(Word(s, at), s[at + 5], Word(s, at + 6),
          seq(8, i requires 0 <= i < 8 => Word(s, at + 8 + 2 * i)))
  }

  function EncodeWord(w: nat): (s: seq<byte>)
    requires w < 0x1_0000
    ensures |s| == 2 && Word(s, 0) == w
  {
    [w % 256, w / 256]
  }

  function EncodeWords(ws: seq<nat>): (s: seq<byte>)
    requires forall i :: 0 <= i < |ws| ==> ws[i] < 0x1_0000
    ensures |s| == 2 * |ws|
    ensures forall i {:trigger ws[i]} :: 0 <= i < |ws| ==> s[2 * i] as int + 256 * (s[2 * i + 1] as int) == ws[i]
  {
    if ws == [] then [] else EncodeWords(ws[..|ws| - 1]) + EncodeWord(ws[|ws| - 1])
  }

  /** The 32 bytes of an inode: mode, links, user, group, size in 24 bits, addresses, and two times. */
  function EncodeInode(ino: Inode, owner: seq<byte>, times: seq<byte>): (s: seq<byte>)
    requires ino.mode < 0x1_0000 && ino.size1 < 0x1_0000 && |owner| == 3 && |times| == 8
    requires |ino.addr| == 8 && forall i :: 0 <= i < 8 ==> ino.addr[i] < 0x1_0000
    ensures |s| == 32
  {
    EncodeWord(ino.mode) + owner + [ino.size0] + EncodeWord(ino.size1) + EncodeWords(ino.addr) + times
  }

  /** An inode is read from its bytes, wherever in a sector they are. */
  lemma InodeRoundTrip(ino: Inode, owner: seq<byte>, times: seq<byte>, s: seq<byte>, at: nat)
    requires ino.mode < 0x1_0000 && ino.size1 < 0x1_0000 && |owner| == 3 && |times| == 8
    requires |ino.addr| == 8 && forall i :: 0 <= i < 8 ==> ino.addr[i] < 0x1_0000
    requires at + 32 <= |s| && s[at..at + 32] == EncodeInode(ino, owner, times)
    ensures DecodeInode(s, at) == ino
  {
    var e, d, words := EncodeInode(ino, owner, times), DecodeInode(s, at), EncodeWords(ino.addr);
    assert forall k :: 0 <= k < 32 ==> s[at + k] == e[k];
    forall i | 0 <= i < 8 ensures d.addr[i] == ino.addr[i] {
      assert e[8 + 2 * i] == words[2 * i] && e[8 + 2 * i + 1] == words[2 * i + 1];
    }
  }

  function InodeSector(inumber: nat): nat
    requires inumber >= 1
  {
    INODE_START_SECTOR + (inumber - 1) / 16
  }

  function InodeAt(image: seq<byte>, inumber: nat): (ino: Inode)
    requires inumber >= 1
    ensures |ino.addr| == 8 && ino.size1 < 0x1_0000
  {
    DecodeInode(SectorAt(image, InodeSector(inumber)), 32 * ((inumber - 1) % 16))
  }

  function GetSize(ino: Inode): nat
  {
    (ino.size0 as int) * 0x1_0000 + ino.size1
  }

  /** Where the address of a block of a file is kept: in the inode, or in a sector of pointers. */
  datatype Pointer =
    | Direct(slot: nat)
    | Single(slot: nat, index: nat)                 // i_addr[slot] names a sector of addresses
    | Double(slot: nat, index: nat, index2: nat)    // i_addr[slot] names a sector of names of such sectors

  function PointerOf(large: bool, blockNum: nat): Pointer
  {
    if !large then Direct(blockNum)
    else
      var i, j := blockNum / 256, blockNum % 256;
      if i < 7 then Single(i, j) else Double(7, i - 7, j)
  }

  /** Every index of the pointer is within its table. */
  predicate InTables(p: Pointer)
  {
    match p
    case Direct(i) => i < 8
    case Single(i, j) => i < 8 && j < 256
    case Double(i, j, k) => i < 8 && j < 256 && k < 256
  }

  function Follow(image: seq<byte>, ino: Inode, p: Pointer): nat
    requires |ino.addr| == 8 && InTables(p)
  {
    match p
    case Direct(i) => ino.addr[i]
    case Single(i, j) => Word(SectorAt(image, ino.addr[i]), 2 * j)
    case Double(i, j, k) => Word(SectorAt(image, Word(SectorAt(image, ino.addr[i]), 2 * j)), 2 * k)
  }

  /** The sectors that must be read to follow the pointer, and the block itself, are in the image. */
  predicate Readable(image: seq<byte>, ino: Inode, p: Pointer)
    requires |ino.addr| == 8 && InTables(p)
  {
    && (p.Single? || p.Double? ==> InImage(image, ino.addr[p.slot]))
    && (p.Double? ==> InImage(image, Word(SectorAt(image, ino.addr[p.slot]), 2 * p.index)))
    && InImage(image, Follow(image, ino, p))
  }

  function Blocks(size: nat): nat
  {
    (size + 512 - 1) / 512
  }

  /** A well-formed file: the blocks that its size calls for are in the image, and a small file needs at most eight. */
  ghost predicate WellFormed(image: seq<byte>, inumber: nat)
  {
    && inumber >= 1 && InImage(image, InodeSector(inumber))
    && var ino := InodeAt(image, inumber);
    && (!Large(ino) ==> GetSize(ino) <= 8 * 512)
    && forall b :: 0 <= b < Blocks(GetSize(ino)) ==>
         InTables(PointerOf(Large(ino), b)) && Readable(image, ino, PointerOf(Large(ino), b))
  }

  // ----- block addressing

  /** For every size an inode can hold, the indices stay inside their tables; a doubly indirect one is at most 120. */
  lemma AddressingInBounds(ino: Inode, b: nat)
    requires ino.size1 < 0x1_0000 && b < Blocks(GetSize(ino))
    requires !Large(ino) ==> GetSize(ino) <= 8 * 512
    ensures InTables(PointerOf(Large(ino), b))
    ensures PointerOf(Large(ino), b).Double? ==> PointerOf(Large(ino), b).index <= 120
  {
    assert GetSize(ino) < 0x100_0000;
    assert b < 32768;
  }

  /** Different blocks of a file have different pointers. */
  lemma AddressingInjective(large: bool, a: nat, b: nat)
    requires a != b
    ensures PointerOf(large, a) != PointerOf(large, b)
  {
    assert a == a / 256 * 256 + a % 256 && b == b / 256 * 256 + b % 256;
  }

  /** Different inode numbers lie at different places, and every inode lies within its sector. */
  lemma InodesDoNotOverlap(m: nat, n: nat)
    requires 1 <= m < n
    ensures 32 * ((m - 1) % 16) + 32 <= 512
    ensures InodeSector(m) != InodeSector(n) || (m - 1) % 16 != (n - 1) % 16
  {
    assert m - 1 == (m - 1) / 16 * 16 + (m - 1) % 16 && n - 1 == (n - 1) / 16 * 16 + (n - 1) % 16;
  }

  // ----- the bytes of a file

  /** The sector that holds block b of a file. */
  function BlockOf(image: seq<byte>, inumber: nat, b: nat): (s: seq<byte>)
    requires inumber >= 1
    ensures |s| == 512
  {
    var ino := InodeAt(image, inumber);
    var p := PointerOf(Large(ino), b);
    if InTables(p) then SectorAt(image, Follow(image, ino, p)) else seq(512, _ => 0)
  }

  /** What file_getblock returns: how many bytes of block b belong to a file of the given size. */
  function ValidBytes(size: nat, b: nat): nat
  {
    if size % 512 != 0 && size / 512 == b then size % 512 else 512
  }

  /** The blocks of a file from b on, the last one cut to its valid bytes. */
  function BlocksFrom(image: seq<byte>, inumber: nat, b: nat): (c: seq<byte>)
    requires inumber >= 1
    ensures var size := GetSize(InodeAt(image, inumber));
            |c| == if b * 512 < size then size - b * 512 else 0
    decreases GetSize(InodeAt(image, inumber)) - b * 512
  {
    var size := GetSize(InodeAt(image, inumber));
    if b * 512 >= size then []
    else BlockOf(image, inumber, b)[..ValidBytes(size, b)] + BlocksFrom(image, inumber, b + 1)
  }

  /** The bytes of a file: its blocks, one after the other. */
  function Contents(image: seq<byte>, inumber: nat): (c: seq<byte>)
    requires inumber >= 1
    ensures |c| == GetSize(InodeAt(image, inumber))
  {
    BlocksFrom(image, inumber, 0)
  }

  /** The bytes the reading functions deliver: none for an inode that is not allocated. */
  function FileBytes(image: seq<byte>, inumber: nat): seq<byte>
    requires inumber >= 1
  {
    if Allocated(InodeAt(image, inumber)) then Contents(image, inumber) else []
  }

  /** The position where block b of a file ends. */
  function BlockEnd(size: nat, b: nat): nat
  {
    if (b + 1) * 512 < size then (b + 1) * 512 else size
  }

  lemma ValidBytesCount(size: nat, b: nat)
    requires b < Blocks(size)
    ensures 0 < ValidBytes(size, b) <= 512
    ensures b * 512 + ValidBytes(size, b) == BlockEnd(size, b) <= size
  {
  }

  lemma {:induction false} BlocksAfter(image: seq<byte>, inumber: nat, a: nat, b: nat)
    requires inumber >= 1 && a <= b && b * 512 <= GetSize(InodeAt(image, inumber))
    ensures BlocksFrom(image, inumber, a)[(b - a) * 512..] == BlocksFrom(image, inumber, b)
    decreases b - a
  {
    hide BlockOf, InodeAt;
    if a < b {
      BlocksAfter(image, inumber, a + 1, b);
      var first, rest := BlockOf(image, inumber, a)[..512], BlocksFrom(image, inumber, a + 1);
      assert BlocksFrom(image, inumber, a) == first + rest;
      DropMore(first, rest, (b - a - 1) * 512);
    }
  }

  lemma DropMore<T>(s: seq<T>, t: seq<T>, n: nat)
    requires n <= |t|
    ensures (s + t)[|s| + n..] == t[n..]
  {
  }

  lemma TakeOfDrop<T>(s: seq<T>, from: nat, t: seq<T>, u: seq<T>)
    requires from <= |s| && s[from..] == t + u
    ensures |s| == from + |t| + |u| && s[from..from + |t|] == t
  {
    assert s[from..from + |t|] == s[from..][..|t|];
  }

  /** Block b of a file, cut to its valid bytes, is the part of the file's bytes that starts at 512 b. */
  lemma BlocksMakeContents(image: seq<byte>, inumber: nat, b: nat)
    requires inumber >= 1 && b < Blocks(GetSize(InodeAt(image, inumber)))
    ensures var size := GetSize(InodeAt(image, inumber));
            && b * 512 <= BlockEnd(size, b) <= size && 0 < ValidBytes(size, b) <= 512
            && BlockOf(image, inumber, b)[..ValidBytes(size, b)]
               == Contents(image, inumber)[b * 512..BlockEnd(size, b)]
  {
    var size := GetSize(InodeAt(image, inumber));
    ValidBytesCount(size, b);
    BlocksAfter(image, inumber, 0, b);
    TakeOfDrop(Contents(image, inumber), b * 512, BlockOf(image, inumber, b)[..ValidBytes(size, b)],
               BlocksFrom(image, inumber, b + 1));
  }

  /** Byte c of a file is byte c % 512 of block c / 512, and valid there. */
  lemma ByteOfFile(image: seq<byte>, inumber: nat, c: nat)
    requires inumber >= 1 && c < GetSize(InodeAt(image, inumber))
    ensures c / 512 < Blocks(GetSize(InodeAt(image, inumber)))
    ensures c % 512 < ValidBytes(GetSize(InodeAt(image, inumber)), c / 512)
    ensures Contents(image, inumber)[c] == BlockOf(image, inumber, c / 512)[c % 512]
  {
    var size, b, k := GetSize(InodeAt(image, inumber)), c / 512, c % 512;
    assert c == b * 512 + k;
    ValidBytesCount(size, b);
    BlocksMakeContents(image, inumber, b);
    var block := BlockOf(image, inumber, b)[..ValidBytes(size, b)];
    assert block[k] == Contents(image, inumber)[b * 512..BlockEnd(size, b)][k];
  }

  lemma InodeInImage(image: seq<byte>, inumber: nat)
    requires WellFormed(image, inumber)
    ensures inumber >= 1 && InImage(image, InodeSector(inumber))
  {
  }

  // ----- the code

  /** diskimg_readsector on a sector of the image, through the cache. */
  method DiskimgReadSector(disk: DiskImg, n: nat, buf: array<byte>)
    requires disk.Good() && InImage(disk.image, n) && buf.Length == 512 && buf !in disk.Footprint()
    modifies disk.Footprint(), buf
    ensures disk.Good() && buf[..] == SectorAt(disk.image, n)
  {
    var _ := disk.ReadSound(n, buf);
  }

  method InodeIget(disk: DiskImg, inumber: nat) returns (ino: Inode)
    requires disk.Good() && inumber >= 1 && InImage(disk.image, InodeSector(inumber))
    modifies disk.Footprint()
    ensures disk.Good() && ino == InodeAt(disk.image, inumber)
  {
    hide DiskImg.Good, DiskImg.Valid;
    var inodesSetor := new byte[512];
    var numero := inumber - 1;
    DiskimgReadSector(disk, INODE_START_SECTOR + numero / 16, inodesSetor);
    ino := DecodeInode(inodesSetor[..], 32 * (numero % 16));
  }

  method InodeIndexLookup(disk: DiskImg, ino: Inode, blockNum: nat) returns (setor: nat)
    requires disk.Good() && |ino.addr| == 8 && InTables(PointerOf(Large(ino), blockNum))
    requires Readable(disk.image, ino, PointerOf(Large(ino), blockNum))
    modifies disk.Footprint()
    ensures disk.Good() && setor == Follow(disk.image, ino, PointerOf(Large(ino), blockNum))
  {
    hide DiskImg.Good;
    if !Large(ino) {
      return ino.addr[blockNum];
    }
    var indexSetorPonteiros := blockNum / 256;
    var indexPonteiroDireto := blockNum % 256;
    var ponteiros := new byte[512];
    if indexSetorPonteiros < 7 {
      DiskimgReadSector(disk, ino.addr[indexSetorPonteiros], ponteiros);
    } else {
      DiskimgReadSector(disk, ino.addr[7], ponteiros);
      indexSetorPonteiros := indexSetorPonteiros - 7;
      DiskimgReadSector(disk, Word(ponteiros[..], 2 * indexSetorPonteiros), ponteiros);
    }
    setor := Word(ponteiros[..], 2 * indexPonteiroDireto);
  }

  method FileGetBlock(disk: DiskImg, inumber: nat, blockNum: nat, buf: array<byte>) returns (n: nat)
    requires disk.Good() && WellFormed(disk.image, inumber) && blockNum < Blocks(GetSize(InodeAt(disk.image, inumber)))
    requires buf.Length == 512 && buf !in disk.Footprint()
    modifies disk.Footprint(), buf
    ensures disk.Good() && buf[..] == BlockOf(disk.image, inumber, blockNum)
    ensures n == ValidBytes(GetSize(InodeAt(disk.image, inumber)), blockNum)
  {
    hide DiskImg.Good;
    var ino := InodeIget(disk, inumber);
    var setor := InodeIndexLookup(disk, ino, blockNum);
    DiskimgReadSector(disk, setor, buf);
    var tamanho := GetSize(ino);
    if tamanho % 512 != 0 {
      if tamanho / 512 == blockNum {
        return tamanho % 512;
      } else {
        return 512;
      }
    } else {
      return 512;
    }
  }

  type Digest = d: seq<byte> | |d| == 20 witness seq(20, _ => 0)

  lemma TakeMore<T>(s: seq<T>, a: nat, b: nat)
    requires a <= b <= |s|
    ensures s[..a] + s[a..b] == s[..b]
  {
  }

  /** One turn of a loop over the blocks of a file: the bytes from offset to the end of the block. */
  method ReadBlockAt(disk: DiskImg, inumber: nat, offset: nat, buf: array<byte>) returns (n: nat)
    requires disk.Good() && WellFormed(disk.image, inumber)
    requires offset % 512 == 0 && offset < |Contents(disk.image, inumber)|
    requires buf.Length == 512 && buf !in disk.Footprint()
    modifies disk.Footprint(), buf
    ensures disk.Good() && 0 < n <= 512 && offset + n <= |Contents(disk.image, inumber)|
    ensures n == 512 || offset + n == |Contents(disk.image, inumber)|
    ensures buf[..n] == Contents(disk.image, inumber)[offset..offset + n]
  {
    hide BlockOf, Contents, InodeAt, WellFormed, DiskImg.Good;
    InodeInImage(disk.image, inumber);
    BlocksMakeContents(disk.image, inumber, offset / 512);
    n := FileGetBlock(disk, inumber, offset / 512, buf);
  }

  /**
   chksumfile_byinumber: SHA-1, of which only the final value is modelled, is fed exactly the bytes of the file. An
   inode that is not allocated has no checksum.
  */
  method ChksumByInumber(disk: DiskImg, sha1: seq<byte> -> Digest, inumber: nat) returns (ret: int, chksum: Digest)
    requires disk.Good() && WellFormed(disk.image, inumber)
    modifies disk.Footprint()
    ensures disk.Good()
    ensures Allocated(InodeAt(disk.image, inumber)) ==> ret == 20 && chksum == sha1(Contents(disk.image, inumber))
    ensures !Allocated(InodeAt(disk.image, inumber)) ==> ret == -1
  {
    hide BlockOf, Contents, InodeAt, InodeSector, InImage, GetSize, WellFormed, DiskImg.Good, DiskImg.Valid;
    chksum := seq(20, _ => 0);
    InodeInImage(disk.image, inumber);
    var ino := InodeIget(disk, inumber);
    if !Allocated(ino) {
      return -1, chksum;
    }
    var size := GetSize(ino);
    var shactx: seq<byte> := [];
    ghost var content := Contents(disk.image, inumber);
    var offset := 0;
    var buf := new byte[512];
    while offset < size
      invariant disk.Good() && offset % 512 == 0
      invariant shactx == content[..if offset < size then offset else size]
    {
      var bytesMoved := ReadBlockAt(disk, inumber, offset, buf);
      shactx := shactx + buf[..bytesMoved];
      TakeMore(content, offset, offset + bytesMoved);
      offset := offset + 512;
    }
    assert content[..size] == content;
    return 20, sha1(shactx);
  }

  /** chksumfile_compare */
  method ChksumCompare(c1: Digest, c2: Digest) returns (same: bool)
    ensures same <==> c1 == c2
  {
    for i := 0 to 20
      invariant c1[..i] == c2[..i]
    {
      if c1[i] != c2[i] {
        return false;
      }
    }
    assert c1 == c1[..20] && c2 == c2[..20];
    return true;
  }
}
