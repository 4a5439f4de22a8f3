/**
 What is where on a Unix V6 disk, as 2/assign1/ino.h and 2/assign1/filsys.h lay it out: the inodes are an array, the blocks
 of a file are the entries of its tables of addresses, in order, and the file is the bytes of these blocks.
*/
module DiskLayout {
  import opened Bytes
  import opened DiskImgs
  import opened UnixFs

  // ----- inodes

  /** Inode 1 is at the start of sector 2, and each inode has 32 bytes. */
  lemma InodesAreAnArray(image: seq<byte>, n: nat)
    requires n >= 1
    ensures InodeSector(n) * 512 + 32 * ((n - 1) % 16) == 1024 + 32 * (n - 1)
    ensures InImage(image, InodeSector(n)) ==>
              1024 + 32 * n <= |image| && InodeAt(image, n) == DecodeInode(image, 1024 + 32 * (n - 1))
  {
    assert n - 1 == 16 * ((n - 1) / 16) + (n - 1) % 16;
    if InImage(image, InodeSector(n)) {
      DecodeSlice(image, 512 * InodeSector(n), 512 * InodeSector(n) + 512, 32 * ((n - 1) % 16));
    }
  }

  lemma DecodeSlice(s: seq<byte>, from: nat, to: nat, at: nat)
    requires from <= to <= |s| && at + 32 <= to - from
    ensures DecodeInode(s[from..to], at) == DecodeInode(s, from + at)
  {
    assert forall i :: at <= i < at + 32 ==> s[from..to][i] == s[from + i];
  }

  /** The size of a file has 24 bits, of which the high 8 are kept apart. */
  lemma SizeHas24Bits(ino: Inode, n: nat)
    requires n < 0x100_0000 && ino.size0 == n / 0x1_0000 && ino.size1 == n % 0x1_0000
    ensures GetSize(ino) == n
  {
  }

  /** The bits of the mode: allocated, two bits for the kind of the file, large, and twelve others. */
  lemma ModeBits(ino: Inode, alloc: bool, kind: nat, large: bool, others: nat)
    requires kind < 4 && others < 0x1000
    requires ino.mode == (if alloc then 0x8000 else 0) + 0x2000 * kind + (if large then 0x1000 else 0) + others
    ensures Allocated(ino) <==> alloc
    ensures Large(ino) <==> large
    ensures Regular(ino) <==> kind == 0
    ensures Bit(ino.mode, IFDIR) <==> kind >= 2
  {
  }

  // ----- the addresses of a file

  /** The 16-bit words of s, low byte first. */
  function WordsOf(s: seq<byte>): (ws: seq<nat>)
    ensures |ws| == |s| / 2
  {
    if |s| < 2 then [] else [s[0] as int + 256 * (s[1] as int)] + WordsOf(s[2..])
  }

  lemma {:induction false} WordAt(s: seq<byte>, k: nat)
    requires 2 * k + 1 < |s|
    ensures WordsOf(s)[k] == Word(s, 2 * k)
  {
    if k > 0 {
      WordAt(s[2..], k - 1);
    }
  }

  /** The words of these sectors, one sector after the other. */
  function Tables(image: seq<byte>, sectors: seq<nat>): (ws: seq<nat>)
    ensures |ws| == 256 * |sectors|
  {
    if sectors == [] then []
    else
      var n := |sectors| - 1;
      Tables(image, sectors[..n]) + WordsOf(SectorAt(image, sectors[n]))
  }

  lemma {:induction false} TableEntry(image: seq<byte>, sectors: seq<nat>, i: nat, j: nat)
    requires i < |sectors| && j < 256
    ensures Tables(image, sectors)[256 * i + j] == Word(SectorAt(image, sectors[i]), 2 * j)
  {
    hide SectorAt, Word, WordsOf;
    var n := |sectors| - 1;
    if i < n {
      TableEntry(image, sectors[..n], i, j);
    } else {
      WordAt(SectorAt(image, sectors[n]), j);
    }
  }

  /**
   The addresses of a file in the order of its blocks. A small file has them in its inode; a large one has seven sectors
   of addresses, and then one sector of addresses of such sectors.
  */
  function Addresses(image: seq<byte>, ino: Inode): (addresses: seq<nat>)
    requires |ino.addr| == 8
    ensures |addresses| == if Large(ino) then 67328 else 8
  {
    if Large(ino) then Tables(image, ino.addr[..7]) + Tables(image, WordsOf(SectorAt(image, ino.addr[7])))
    else ino.addr
  }

  /** Block b of a file is at its b-th address. */
  lemma BlockAddress(image: seq<byte>, ino: Inode, b: nat)
    requires |ino.addr| == 8 && b < |Addresses(image, ino)|
    ensures InTables(PointerOf(Large(ino), b))
    ensures Follow(image, ino, PointerOf(Large(ino), b)) == Addresses(image, ino)[b]
  {
    hide SectorAt, Word, WordsOf, Tables;
    if Large(ino) {
      var i, j := b / 256, b % 256;
      assert b == 256 * i + j;
      if i < 7 {
        TableEntry(image, ino.addr[..7], i, j);
      } else {
        var s := SectorAt(image, ino.addr[7]);
        WordAt(s, i - 7);
        TableEntry(image, WordsOf(s), i - 7, j);
      }
    }
  }

  /** The bytes of these sectors, one sector after the other. */
  function SectorsAt(image: seq<byte>, sectors: seq<nat>): (s: seq<byte>)
    ensures |s| == 512 * |sectors|
  {
    if sectors == [] then []
    else
      var n := |sectors| - 1;
      SectorsAt(image, sectors[..n]) + SectorAt(image, sectors[n])
  }

  lemma {:induction false} SectorByte(image: seq<byte>, sectors: seq<nat>, b: nat, k: nat)
    requires b < |sectors| && k < 512
    ensures SectorsAt(image, sectors)[512 * b + k] == SectorAt(image, sectors[b])[k]
  {
    hide SectorAt;
    var n := |sectors| - 1;
    if b < n {
      SectorByte(image, sectors[..n], b, k);
    }
  }

  /** A file is the bytes of the sectors at its addresses, up to its size. */
  lemma FileIsItsSectors(image: seq<byte>, n: nat)
    requires WellFormed(image, n)
    ensures var ino := InodeAt(image, n);
            && Blocks(GetSize(ino)) <= |Addresses(image, ino)|
            && GetSize(ino) <= 512 * Blocks(GetSize(ino))
            && Contents(image, n) == SectorsAt(image, Addresses(image, ino)[..Blocks(GetSize(ino))])[..GetSize(ino)]
  {
    hide Contents, InodeAt, SectorAt, Addresses, SectorsAt, Follow, PointerOf, Large;
    FewBlocks(image, n);
    var ino := InodeAt(image, n);
    var size, sectors := GetSize(ino), Addresses(image, ino)[..Blocks(GetSize(ino))];
    forall c | 0 <= c < size ensures Contents(image, n)[c] == SectorsAt(image, sectors)[c] {
      var b, k := c / 512, c % 512;
      assert c == 512 * b + k;
      ByteOfFile(image, n, c);
      BlockAddress(image, ino, b);
      SectorByte(image, sectors, b, k);
    }
  }

  /** What reading it delivers: nothing if the highest bit of its mode is not set. */
  lemma UnallocatedIsEmpty(image: seq<byte>, n: nat)
    requires n >= 1
    ensures FileBytes(image, n) == if InodeAt(image, n).mode >= 0x8000 then Contents(image, n) else []
  {
    hide Contents, InodeAt;
    ModeIsWord(image, n);
  }

  lemma ModeIsWord(image: seq<byte>, n: nat)
    requires n >= 1
    ensures InodeAt(image, n).mode < 0x1_0000
  {
    hide SectorAt, Word;
  }

  lemma FewBlocks(image: seq<byte>, n: nat)
    requires WellFormed(image, n)
    ensures var ino := InodeAt(image, n);
            Blocks(GetSize(ino)) <= |Addresses(image, ino)| && GetSize(ino) <= 512 * Blocks(GetSize(ino))
  {
    hide InodeAt, Follow, PointerOf, SectorAt;
    assert GetSize(InodeAt(image, n)) < 0x100_0000;
  }
}
