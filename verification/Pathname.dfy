/** Path lookup of 2/assign1/directory.c and 2/assign1/pathname.c. */
module Pathnames {
  import opened Bytes
  import opened DiskImgs
  import opened UnixFs
  import opened Options
  import opened DirEntries

  const ROOT_INUMBER := 1

  datatype DirEnt = DirEnt(inumber: nat, name: seq<byte>)

  function EntryAt(f: seq<byte>, k: nat): DirEnt
    requires 16 * (k + 1) <= |f|
  {
    DirEnt(Word(f, 16 * k), CString(NameBytes(f, k)))
  }

  predicate IsDirectory(ino: Inode) { Bit(ino.mode, IFDIR) }

  /** The first entry with this name among those from k on. */
  function FirstMatch(f: seq<byte>, name: seq<byte>, k: nat): Option<DirEnt>
    decreases |f| - 16 * k
  {
    if 16 * (k + 1) > |f| then None
    else if EntryAt(f, k).name == name then Some(EntryAt(f, k))
    else FirstMatch(f, name, k + 1)
  }

  /** Entry i is the first of those from k on with this name. */
  ghost predicate IsFirst(f: seq<byte>, name: seq<byte>, k: nat, i: nat)
  {
    && k <= i && 16 * (i + 1) <= |f| && EntryAt(f, i).name == name
    && forall j: nat {:trigger EntryAt(f, j)} :: k <= j < i ==> EntryAt(f, j).name != name
  }

  lemma {:induction false} FirstMatchIsFirst(f: seq<byte>, name: seq<byte>, k: nat, i: nat)
    requires IsFirst(f, name, k, i)
    ensures FirstMatch(f, name, k) == Some(EntryAt(f, i))
    decreases i - k
  {
    if k < i {
      assert EntryAt(f, k).name != name;
      FirstMatchIsFirst(f, name, k + 1, i);
    }
  }

  lemma {:induction false} NoMatch(f: seq<byte>, name: seq<byte>, k: nat)
    requires forall j: nat {:trigger EntryAt(f, j)} :: k <= j && 16 * (j + 1) <= |f| ==> EntryAt(f, j).name != name
    ensures FirstMatch(f, name, k).None?
    decreases |f| - 16 * k
  {
    if 16 * (k + 1) <= |f| {
      assert EntryAt(f, k).name != name;
      NoMatch(f, name, k + 1);
    }
  }

  // ----- directories as they are written

  /** An entry that can be written: a 16-bit inode number, and a name of at most 14 bytes without NUL. */
  predicate CanBeWritten(e: DirEnt)
  {
    e.inumber < 0x1_0000 && |e.name| <= 14 && 0 !in e.name
  }

  /** The 16 bytes of an entry: the name is filled up with NULs. */
  function EncodeEntry(e: DirEnt): (s: seq<byte>)
    requires CanBeWritten(e)
    ensures |s| == 16
  {
    EncodeWord(e.inumber) + e.name + seq(14 - |e.name|, _ => 0)
  }

  function EncodeDirectory(es: seq<DirEnt>): (f: seq<byte>)
    requires forall k :: 0 <= k < |es| ==> CanBeWritten(es[k])
    ensures |f| == 16 * |es|
  {
    if es == [] then []
    else
      var n := |es| - 1;
      EncodeDirectory(es[..n]) + EncodeEntry(es[n])
  }

  lemma {:induction false} CStringOfName(name: seq<byte>, n: nat)
    requires 0 !in name
    ensures CString(name + seq(n, _ => 0)) == name
    decreases |name|
  {
    var s := name + seq(n, _ => 0);
    if name == [] {
      assert n > 0 ==> s[0] == 0;
    } else {
      assert s[1..] == name[1..] + seq(n, _ => 0);
      assert s[0] == name[0] && name[0] in name;
      CStringOfName(name[1..], n);
    }
  }

  lemma EntryOfBytes(f: seq<byte>, k: nat, e: DirEnt)
    requires CanBeWritten(e) && 16 * (k + 1) <= |f| && f[16 * k..16 * (k + 1)] == EncodeEntry(e)
    ensures EntryAt(f, k) == e
  {
    var s := EncodeEntry(e);
    assert forall i :: 0 <= i < 16 ==> f[16 * k..16 * (k + 1)][i] == s[i];
    assert Word(f, 16 * k) == e.inumber;
    assert NameBytes(f, k) == s[2..] == e.name + seq(14 - |e.name|, _ => 0);
    CStringOfName(e.name, 14 - |e.name|);
  }

  /** The entries of a directory are read back from its bytes, in order. */
  lemma {:induction false} DirectoryRoundTrip(es: seq<DirEnt>, k: nat)
    requires k < |es| && forall i :: 0 <= i < |es| ==> CanBeWritten(es[i])
    ensures EntryAt(EncodeDirectory(es), k) == es[k]
  {
    hide EncodeEntry;
    var n := |es| - 1;
    var f, before := EncodeDirectory(es), EncodeDirectory(es[..n]);
    if k < n {
      DirectoryRoundTrip(es[..n], k);
      EntryOfPrefix(before, EncodeEntry(es[n]), k);
    } else {
      assert f[16 * k..16 * (k + 1)] == EncodeEntry(es[k]);
      EntryOfBytes(f, k, es[k]);
    }
  }

  lemma EntryOfPrefix(f: seq<byte>, more: seq<byte>, k: nat)
    requires 16 * (k + 1) <= |f|
    ensures EntryAt(f + more, k) == EntryAt(f, k)
  {
    assert NameBytes(f + more, k) == NameBytes(f, k);
  }

  /** The search in the bytes of a directory finds the first of its entries with the name. */
  lemma SearchOfDirectory(es: seq<DirEnt>, name: seq<byte>, i: nat)
    requires forall k :: 0 <= k < |es| ==> CanBeWritten(es[k])
    requires i <= |es| && (forall k :: 0 <= k < i ==> es[k].name != name) && (i < |es| ==> es[i].name == name)
    ensures FirstMatch(EncodeDirectory(es), name, 0) == if i < |es| then Some(es[i]) else None
  {
    hide EntryAt, EncodeDirectory;
    var f := EncodeDirectory(es);
    forall k | 0 <= k < |es| ensures EntryAt(f, k) == es[k] {
      DirectoryRoundTrip(es, k);
    }
    if i < |es| {
      FirstMatchIsFirst(f, name, 0, i);
    } else {
      NoMatch(f, name, 0);
    }
  }

  lemma SliceOfSlice<T>(s: seq<T>, a: nat, b: nat, i: nat, j: nat)
    requires a <= b <= |s| && i <= j <= b - a
    ensures s[a..b][i..j] == s[a + i..a + j]
  {
    forall k | 0 <= k < j - i ensures s[a..b][i..j][k] == s[a + i..a + j][k] {
    }
  }

  /** No entry of a directory straddles two blocks: entry k lies in block k / 32. */
  lemma EntryInBlock(image: seq<byte>, dir: nat, k: nat)
    requires dir >= 1 && 16 * (k + 1) <= |Contents(image, dir)|
    ensures Contents(image, dir)[16 * k..16 * (k + 1)]
         == BlockOf(image, dir, k / 32)[16 * (k % 32)..16 * (k % 32 + 1)]
  {
    var f, b, m := Contents(image, dir), k / 32, k % 32;
    assert 16 * k == 512 * b + 16 * m;
    BlocksMakeContents(image, dir, b);
    var n := ValidBytes(|f|, b);
    assert b * 512 + 16 * (m + 1) <= BlockEnd(|f|, b) && 16 * (m + 1) <= n;
    SliceOfSlice(f, b * 512, BlockEnd(|f|, b), 16 * m, 16 * (m + 1));
    assert BlockOf(image, dir, b)[0..n] == BlockOf(image, dir, b)[..n];
    SliceOfSlice(BlockOf(image, dir, b), 0, n, 16 * m, 16 * (m + 1));
  }

  /** The entry of a directory with this name. */
  function Find(image: seq<byte>, dir: nat, name: seq<byte>): Option<DirEnt>
    requires dir >= 1
  {
    if IsDirectory(InodeAt(image, dir)) then FirstMatch(Contents(image, dir), name, 0) else None
  }

  /** A file that directory_findname can search. */
  ghost predicate Searchable(image: seq<byte>, dir: nat)
  {
    WellFormed(image, dir) && (IsDirectory(InodeAt(image, dir)) ==> Terminated(Contents(image, dir)))
  }

  /** file_getblock on block i of a directory whose bytes are f delivers the bytes of f at 512 i. */
  method GetBlock(disk: DiskImg, dir: nat, i: nat, block: array<byte>, ghost f: seq<byte>)
    requires disk.Good() && WellFormed(disk.image, dir) && f == Contents(disk.image, dir) && i < Blocks(|f|)
    requires block.Length == 512 && block !in disk.Footprint()
    modifies disk.Footprint(), block
    ensures disk.Good()
    ensures forall k :: 512 * i <= k < 512 * (i + 1) && k < |f| ==> block[k - 512 * i] == f[k]
  {
    hide Contents, WellFormed, InodeAt, DiskImg.Good;
    InodeInImage(disk.image, dir);
    var n := ReadBlockAt(disk, dir, 512 * i, block);
    BytesOfSlice(block[..], n, f, 512 * i);
  }

  lemma BytesOfSlice(b: seq<byte>, n: nat, f: seq<byte>, at: nat)
    requires n <= |b| && at + n <= |f| && b[..n] == f[at..at + n]
    ensures forall k :: at <= k < at + n ==> b[k - at] == f[k]
  {
    forall k | at <= k < at + n ensures b[k - at] == f[k] {
      assert b[..n][k - at] == f[at..at + n][k - at];
    }
  }

  /** Copy block i of f behind the blocks before it. */
  method CopyBlock(block: array<byte>, i: nat, buf: array<byte>, ghost f: seq<byte>)
    requires block.Length == 512 && 512 * (i + 1) <= buf.Length && block != buf
    requires forall k :: 512 * i <= k < 512 * (i + 1) && k < |f| ==> block[k - 512 * i] == f[k]
    requires forall k :: 0 <= k < 512 * i && k < |f| ==> buf[k] == f[k]
    modifies buf
    ensures forall k :: 0 <= k < 512 * (i + 1) && k < |f| ==> buf[k] == f[k]
  {
    forall k | 512 * i <= k < 512 * (i + 1) {
      buf[k] := block[k - 512 * i];
    }
  }

  /** All the blocks of a directory. */
  method ReadBlocks(disk: DiskImg, dir: nat, quantBlocos: nat, ghost f: seq<byte>) returns (entradasDiretorio: array<byte>)
    requires disk.Good() && WellFormed(disk.image, dir) && f == Contents(disk.image, dir) && quantBlocos == Blocks(|f|)
    modifies disk.Footprint()
    ensures disk.Good() && entradasDiretorio.Length >= |f| && forall k :: 0 <= k < |f| ==> entradasDiretorio[k] == f[k]
  {
    hide DiskImg.Good, DiskImg.Valid, Contents, WellFormed;
    entradasDiretorio := new byte[512 * quantBlocos];
    var block := new byte[512];
    for i := 0 to quantBlocos
      invariant disk.Good()
      invariant forall k :: 0 <= k < 512 * i && k < |f| ==> entradasDiretorio[k] == f[k]
    {
      GetBlock(disk, dir, i, block, f);
      CopyBlock(block, i, entradasDiretorio, f);
    }
  }

  /** The search loop of directory_findname. */
  method SearchEntries(entradas: seq<byte>, name: seq<byte>) returns (resultadoBusca: Option<DirEnt>)
    ensures resultadoBusca == FirstMatch(entradas, name, 0)
  {
    var quantEntradasDiretorio := |entradas| / 16;
    var i := 0;
    while i < quantEntradasDiretorio
      invariant i <= quantEntradasDiretorio && FirstMatch(entradas, name, 0) == FirstMatch(entradas, name, i)
    {
      if EntryAt(entradas, i).name == name {
        return Some(EntryAt(entradas, i));
      }
      i := i + 1;
    }
    return None;
  }

  /** directory_findname: the entry found replaces *dirEnt, which is left alone when there is none. */
  method DirectoryFindname(disk: DiskImg, name: seq<byte>, dirinumber: nat, dirEnt: DirEnt)
    returns (ret: int, dirEnt': DirEnt)
    requires disk.Good() && Searchable(disk.image, dirinumber)
    modifies disk.Footprint()
    ensures disk.Good()
    ensures match Find(disk.image, dirinumber, name)
            case Some(e) => ret == 0 && dirEnt' == e
            case None => ret == -1 && dirEnt' == dirEnt
  {
    hide Contents, WellFormed, Terminated, InodeAt, FirstMatch, DiskImg.Good, DiskImg.Valid;
    InodeInImage(disk.image, dirinumber);
    var ind := InodeIget(disk, dirinumber);
    var tamanhoArquivo := GetSize(ind);
    if !IsDirectory(ind) {
      return -1, dirEnt;
    }
    var quantBlocos := tamanhoArquivo / 512;
    if tamanhoArquivo % 512 != 0 {
      quantBlocos := quantBlocos + 1;
    }
    var entradasDiretorio := ReadBlocks(disk, dirinumber, quantBlocos, Contents(disk.image, dirinumber));
    assert entradasDiretorio[..tamanhoArquivo] == Contents(disk.image, dirinumber);
    var resultadoBusca := SearchEntries(entradasDiretorio[..tamanhoArquivo], name);
    if resultadoBusca.Some? {
      return 0, resultadoBusca.value;
    }
    return -1, dirEnt;
  }

  // ----- paths

  function Slashes(path: seq<byte>): (n: nat)
    ensures n <= |path| && (forall k :: 0 <= k < n ==> path[k] == SLASH) && (n < |path| ==> path[n] != SLASH)
  {
    if path != [] && path[0] == SLASH then Slashes(path[1..]) + 1 else 0
  }

  /** How many bytes there are before the first slash. */
  function NameLength(path: seq<byte>): (n: nat)
    ensures n <= |path| && SLASH !in path[..n] && (n < |path| ==> path[n] == SLASH)
  {
    if path != [] && path[0] != SLASH then NameLength(path[1..]) + 1 else 0
  }

  /** The components of a path, as strtok finds them. */
  function Components(path: seq<byte>): seq<seq<byte>>
    decreases |path|
  {
    var rest := path[Slashes(path)..];
    if rest == [] then [] else [rest[..NameLength(rest)]] + Components(rest[NameLength(rest)..])
  }

  /** n slashes. */
  function Bar(n: nat): (s: seq<byte>)
    ensures |s| == n && forall k :: 0 <= k < n ==> s[k] == SLASH
  {
    seq(n, _ => SLASH)
  }

  /** A path with these components, extra[i] extra slashes in front of component i, and tail slashes at the end. */
  function Join(comps: seq<seq<byte>>, extra: seq<nat>, tail: nat): seq<byte>
    requires |extra| == |comps|
  {
    if comps == [] then Bar(tail) else Bar(extra[0] + 1) + comps[0] + Join(comps[1..], extra[1..], tail)
  }

  lemma SlashesIs(path: seq<byte>, n: nat)
    requires n <= |path| && (forall k :: 0 <= k < n ==> path[k] == SLASH) && (n < |path| ==> path[n] != SLASH)
    ensures Slashes(path) == n
  {
  }

  lemma NameLengthIs(path: seq<byte>, n: nat)
    requires n <= |path| && (forall k :: 0 <= k < n ==> path[k] != SLASH) && (n < |path| ==> path[n] == SLASH)
    ensures NameLength(path) == n
  {
    if n < |path| {
      assert path[n] in path[..n + 1];
    }
  }

  lemma FirstComponent(n: nat, name: seq<byte>, rest: seq<byte>)
    requires name != [] && SLASH !in name && (rest == [] || rest[0] == SLASH)
    ensures Components(Bar(n) + name + rest) == [name] + Components(rest)
  {
    var path, named := Bar(n) + name + rest, name + rest;
    assert path == Bar(n) + named;
    SlashesIs(path, n);
    assert path[n..] == named;
    NameLengthIs(named, |name|);
    assert named[..|name|] == name && named[|name|..] == rest;
  }

  lemma NoComponents(n: nat)
    ensures Components(Bar(n)) == []
  {
    SlashesIs(Bar(n), n);
  }

  /** Taking a path apart gives the components that it was put together from, whatever slashes there are. */
  lemma {:induction false} ComponentsOfJoin(comps: seq<seq<byte>>, extra: seq<nat>, tail: nat)
    requires |extra| == |comps| && forall i :: 0 <= i < |comps| ==> comps[i] != [] && SLASH !in comps[i]
    ensures Components(Join(comps, extra, tail)) == comps
  {
    hide Components, Bar;
    if comps == [] {
      NoComponents(tail);
    } else {
      JoinStart(comps[1..], extra[1..], tail);
      FirstComponent(extra[0] + 1, comps[0], Join(comps[1..], extra[1..], tail));
      ComponentsOfJoin(comps[1..], extra[1..], tail);
    }
  }

  lemma JoinStart(comps: seq<seq<byte>>, extra: seq<nat>, tail: nat)
    requires |extra| == |comps|
    ensures Join(comps, extra, tail) == [] || Join(comps, extra, tail)[0] == SLASH
  {
  }

  /** The inode number under each name of each directory. */
  type Names = imap<(nat, seq<byte>), nat>

  ghost predicate NamesOf(image: seq<byte>, names: Names)
  {
    forall dir: nat, name {:trigger Find(image, dir, name)} :: dir >= 1 ==>
      && (Find(image, dir, name).Some? <==> (dir, name) in names)
      && (Find(image, dir, name).Some? ==> Find(image, dir, name).value.inumber == names[(dir, name)])
  }

  /** The inode at the end of a path: the first match, from directory to directory. */
  ghost function Resolve(names: Names, inumber: nat, comps: seq<seq<byte>>): Option<nat>
    decreases comps
  {
    if comps == [] then Some(inumber)
    else if (inumber, comps[0]) in names then Resolve(names, names[(inumber, comps[0])], comps[1..])
    else None
  }

  /** The inode number in the directory entry after a search: stale is the one before it, which a failed search leaves. */
  ghost function Step(names: Names, inumber: nat, stale: nat, name: seq<byte>): nat
  {
    if (inumber, name) in names then names[(inumber, name)] else stale
  }

  /** What pathname_lookup computes; stale is what the directory entry holds before the first search. */
  ghost function Lookup(names: Names, inumber: nat, stale: nat, comps: seq<seq<byte>>): nat
    decreases comps
  {
    if comps == [] then inumber
    else
      var next := Step(names, inumber, stale, comps[0]);
      Lookup(names, next, next, comps[1..])
  }

  /** Every inode that is searched on the way is well formed. */
  ghost predicate Walkable(image: seq<byte>, names: Names, inumber: nat, stale: nat, comps: seq<seq<byte>>)
    decreases comps
  {
    comps != [] ==>
      var next := Step(names, inumber, stale, comps[0]);
      Searchable(image, inumber) && Walkable(image, names, next, next, comps[1..])
  }

  /** When every component resolves, lookup is the fold of first-match search. */
  lemma {:induction false} LookupIsResolve(names: Names, inumber: nat, stale: nat, comps: seq<seq<byte>>)
    requires Resolve(names, inumber, comps).Some?
    ensures Lookup(names, inumber, stale, comps) == Resolve(names, inumber, comps).value
    decreases comps
  {
    if comps != [] {
      var next := names[(inumber, comps[0])];
      LookupIsResolve(names, next, next, comps[1..]);
    }
  }

  /** What the header asks for: the inode of the path, or a negative number where there is none. */
  ghost predicate KeepsPromise(names: Names, comps: seq<seq<byte>>, result: int)
  {
    match Resolve(names, ROOT_INUMBER, comps)
    case Some(inumber) => result == inumber
    case None => result < 0
  }

  /** The code keeps it exactly for the paths that resolve. */
  lemma PromiseKeptIff(names: Names, stale: nat, comps: seq<seq<byte>>)
    ensures KeepsPromise(names, comps, Lookup(names, ROOT_INUMBER, stale, comps))
            <==> Resolve(names, ROOT_INUMBER, comps).Some?
  {
    if Resolve(names, ROOT_INUMBER, comps).Some? {
      LookupIsResolve(names, ROOT_INUMBER, stale, comps);
    }
  }

  /** The components that are found, each from where the ones found before it lead. */
  ghost function FoundOf(names: Names, inumber: nat, comps: seq<seq<byte>>): seq<seq<byte>>
    decreases comps
  {
    if comps == [] then []
    else if (inumber, comps[0]) in names then [comps[0]] + FoundOf(names, names[(inumber, comps[0])], comps[1..])
    else FoundOf(names, inumber, comps[1..])
  }

  /** For all other paths it passes over what is missing, wherever that is, and resolves the rest. */
  lemma {:induction false} MissingArePassedOver(names: Names, inumber: nat, comps: seq<seq<byte>>)
    ensures Resolve(names, inumber, FoundOf(names, inumber, comps)) == Some(Lookup(names, inumber, inumber, comps))
    ensures FoundOf(names, inumber, comps) == comps <==> Resolve(names, inumber, comps).Some?
    ensures |FoundOf(names, inumber, comps)| <= |comps|
    decreases comps
  {
    if comps != [] {
      var next := Step(names, inumber, inumber, comps[0]);
      MissingArePassedOver(names, next, comps[1..]);
      var found := FoundOf(names, next, comps[1..]);
      if (inumber, comps[0]) in names {
        assert ([comps[0]] + found)[1..] == found;
        assert comps == [comps[0]] + comps[1..];
      }
    }
  }

  /** What the directory entry held at first decides nothing if the first component is found, and all if it is not. */
  lemma FirstComponentDecides(names: Names, inumber: nat, stale: nat, comps: seq<seq<byte>>)
    requires comps != []
    ensures (inumber, comps[0]) in names ==> Lookup(names, inumber, stale, comps) == Lookup(names, inumber, inumber, comps)
    ensures (inumber, comps[0]) !in names ==> Lookup(names, inumber, stale, comps) == Lookup(names, stale, stale, comps[1..])
  {
  }

  // ----- a path on which the promise is broken

  /** The names of an image. */
  ghost function NamesIn(image: seq<byte>): Names
  {
    imap key: (nat, seq<byte>) | key.0 >= 1 && Find(image, key.0, key.1).Some? :: Find(image, key.0, key.1).value.inumber
  }

  lemma NamesInAre(image: seq<byte>)
    ensures NamesOf(image, NamesIn(image))
  {
    hide Find;
  }

  /** A disk whose root holds nothing but "a", inode 2, an empty file: two free sectors, that of the inodes, and the root. */
  function ImageOfA(): (image: seq<byte>)
    ensures |image| == 2048
  {
    Zeros(1024) + Inodes() + (ONLY_A + Zeros(496))
  }

  function Inodes(): (s: seq<byte>)
    ensures |s| == 512
  {
    EncodeInode(RootInode(), Zeros(3), Zeros(8)) + EncodeInode(EmptyInode(), Zeros(3), Zeros(8)) + Zeros(448)
  }

  function Zeros(n: nat): (s: seq<byte>)
    ensures |s| == n
  {
    seq(n, _ => 0)
  }

  /** An allocated directory of 16 bytes in sector 3. */
  function RootInode(): Inode
  {
    Inode(0xC000, 0, 16, [3, 0, 0, 0, 0, 0, 0, 0])
  }

  function EmptyInode(): Inode
  {
    Inode(0x8000, 0, 0, [0, 0, 0, 0, 0, 0, 0, 0])
  }

  lemma SectorsOfA()
    ensures SectorAt(ImageOfA(), 2) == Inodes() && SectorAt(ImageOfA(), 3) == ONLY_A + Zeros(496)
  {
    hide Inodes, Zeros;
    var image := ImageOfA();
    assert image[1024..1536] == Inodes();
    assert image[1536..2048] == ONLY_A + Zeros(496);
  }

  lemma InodesOfA()
    ensures InodeAt(ImageOfA(), 1) == RootInode() && InodeAt(ImageOfA(), 2) == EmptyInode()
  {
    hide EncodeInode, DecodeInode, ImageOfA, SectorAt;
    SectorsOfA();
    assert Inodes()[0..32] == EncodeInode(RootInode(), Zeros(3), Zeros(8));
    assert Inodes()[32..64] == EncodeInode(EmptyInode(), Zeros(3), Zeros(8));
    InodeRoundTrip(RootInode(), Zeros(3), Zeros(8), Inodes(), 0);
    InodeRoundTrip(EmptyInode(), Zeros(3), Zeros(8), Inodes(), 32);
  }

  lemma RootBlock()
    ensures BlockOf(ImageOfA(), 1, 0) == ONLY_A + Zeros(496)
    ensures WellFormed(ImageOfA(), 1) && IsDirectory(InodeAt(ImageOfA(), 1))
  {
    hide ImageOfA, InodeAt, SectorAt, Zeros;
    InodesOfA();
    SectorsOfA();
    assert Blocks(GetSize(RootInode())) == 1 && PointerOf(false, 0) == Direct(0);
  }

  lemma OneBlock(image: seq<byte>, n: nat)
    requires n >= 1 && GetSize(InodeAt(image, n)) == 16
    ensures Contents(image, n) == BlockOf(image, n, 0)[..16]
  {
    hide InodeAt, BlockOf;
    assert BlocksFrom(image, n, 1) == [];
  }

  lemma RootOfA()
    ensures Contents(ImageOfA(), 1) == ONLY_A
    ensures Searchable(ImageOfA(), 1) && IsDirectory(InodeAt(ImageOfA(), 1))
  {
    hide ImageOfA, InodeAt, BlockOf, WellFormed, Terminated, Zeros, IsDirectory, Contents, BlocksFrom;
    InodesOfA();
    RootBlock();
    OnlyA();
    OneBlock(ImageOfA(), 1);
    assert (ONLY_A + Zeros(496))[..16] == ONLY_A;
  }

  lemma FileOfA()
    ensures Searchable(ImageOfA(), 2) && !IsDirectory(InodeAt(ImageOfA(), 2))
  {
    hide ImageOfA, InodeAt, Terminated, InImage, Contents, WellFormed, IsDirectory, EmptyInode;
    InodesOfA();
    SectorTwo();
    EmptyFile(ImageOfA(), 2);
    EmptyIsNoDirectory();
  }

  lemma SectorTwo()
    ensures InImage(ImageOfA(), InodeSector(2))
  {
    hide ImageOfA;
  }

  lemma EmptyIsNoDirectory()
    ensures !IsDirectory(EmptyInode())
  {
  }

  lemma EmptyFile(image: seq<byte>, n: nat)
    requires n >= 1 && InImage(image, InodeSector(n)) && InodeAt(image, n) == EmptyInode()
    ensures WellFormed(image, n)
  {
    hide InodeAt, InImage, InodeSector, Readable, InTables, PointerOf;
  }

  lemma FindA()
    ensures Find(ImageOfA(), 1, NAME_A) == Some(DirEnt(2, NAME_A))
    ensures forall name :: Find(ImageOfA(), 2, name).None?
  {
    hide ImageOfA, InodeAt, Contents;
    RootOfA();
    FileOfA();
    OnlyA();
    assert EntryAt(ONLY_A, 0) == DirEnt(2, NAME_A);
  }

  /** On this disk the path "/a/b" has no inode; the code may look it up, and delivers inode 2. */
  lemma PromiseIsBroken(stale: nat)
    ensures var image, path, b: seq<byte> := ImageOfA(), [47, 97, 47, 98], [98];
            var names, comps := NamesIn(image), [NAME_A, b];
            && NamesOf(image, names) && Components(path) == comps
            && Walkable(image, names, ROOT_INUMBER, stale, comps)
            && Resolve(names, ROOT_INUMBER, comps).None?
            && Lookup(names, ROOT_INUMBER, stale, comps) == 2
            && !KeepsPromise(names, comps, Lookup(names, ROOT_INUMBER, stale, comps))
  {
    hide ImageOfA, Find, Searchable, Components, NamesOf;
    var image, b: seq<byte> := ImageOfA(), [98];
    var names, comps: seq<seq<byte>> := NamesIn(image), [NAME_A, b];
    NamesInAre(image);
    SmallPath();
    FindA();
    RootOfA();
    FileOfA();
    assert (1, NAME_A) in names && names[(1, NAME_A)] == 2 && (2, b) !in names;
    assert comps[1..] == [b] && comps[1..][1..] == [];
    assert Resolve(names, 2, comps[1..]).None?;
    assert Lookup(names, 2, 2, comps[1..]) == Lookup(names, 2, 2, []);
    assert Walkable(image, names, 2, 2, comps[1..][1..]);
    assert Walkable(image, names, 2, 2, comps[1..]);
  }

  lemma SmallPath()
    ensures Components([47, 97, 47, 98]) == [[97], [98]]
  {
    hide Components, Slashes, NameLength;
    var b: seq<byte> := [SLASH, 98];
    FirstComponent(1, [97], b);
    assert Bar(1) + [97] + b == [47, 97, 47, 98];
    FirstComponent(1, [98], []);
    assert Bar(1) + [98] + [] == b;
    NoComponents(0);
    assert Bar(0) == [];
  }

  /** strtok: skip slashes, and take what there is up to the next one. */
  method StrTok(s: seq<byte>) returns (token: Option<seq<byte>>, rest: seq<byte>)
    ensures Components(s) == [] ==> token == None
    ensures Components(s) != [] ==> token == Some(Components(s)[0]) && Components(rest) == Components(s)[1..] && |rest| < |s|
  {
    hide Components, Slashes, NameLength;
    var i := 0;
    while i < |s| && s[i] == SLASH
      invariant i <= |s| && forall k :: 0 <= k < i ==> s[k] == SLASH
    {
      i := i + 1;
    }
    SlashesIs(s, i);
    if i == |s| {
      TokenIs(s, i, i);
      return None, [];
    }
    var j := i;
    while j < |s| && s[j] != SLASH
      invariant i <= j <= |s| && forall k :: i <= k < j ==> s[k] != SLASH
    {
      j := j + 1;
    }
    NameLengthIs(s[i..], j - i);
    TokenIs(s, i, j);
    return Some(s[i..j]), s[j..];
  }

  lemma TokenIs(s: seq<byte>, i: nat, j: nat)
    requires i <= j <= |s| && Slashes(s) == i && NameLength(s[i..]) == j - i
    ensures Components(s) == if i == |s| then [] else [s[i..j]] + Components(s[j..])
  {
    assert s[i..][..j - i] == s[i..j] && s[i..][j - i..] == s[j..];
  }

  /** pathname_lookup; stale is what the memory of the directory entry holds when it starts. */
  method PathnameLookup(disk: DiskImg, pathname: seq<byte>, stale: DirEnt, ghost names: Names) returns (inodeAtual: nat)
    requires disk.Good() && NamesOf(disk.image, names)
    requires Walkable(disk.image, names, ROOT_INUMBER, stale.inumber, Components(pathname))
    modifies disk.Footprint()
    ensures disk.Good() && inodeAtual == Lookup(names, ROOT_INUMBER, stale.inumber, Components(pathname))
    ensures Resolve(names, ROOT_INUMBER, Components(pathname)).Some? ==>
              inodeAtual == Resolve(names, ROOT_INUMBER, Components(pathname)).value
  {
    hide Searchable, Find, Components, FirstMatch, Contents, DiskImg.Good, DiskImg.Valid;
    if Resolve(names, ROOT_INUMBER, Components(pathname)).Some? {
      LookupIsResolve(names, ROOT_INUMBER, stale.inumber, Components(pathname));
    }
    var diretorioAtual := stale;
    inodeAtual := ROOT_INUMBER;
    var token, rest := StrTok(pathname);
    ghost var left := Components(pathname);
    while token.Some?
      invariant disk.Good()
      invariant token == if left == [] then None else Some(left[0])
      invariant left != [] ==> Components(rest) == left[1..]
      invariant Walkable(disk.image, names, inodeAtual, diretorioAtual.inumber, left)
      invariant Lookup(names, inodeAtual, diretorioAtual.inumber, left)
             == Lookup(names, ROOT_INUMBER, stale.inumber, Components(pathname))
      decreases |left|
    {
      var _, e := DirectoryFindname(disk, token.value, inodeAtual, diretorioAtual);
      SearchIsStep(disk.image, names, inodeAtual, diretorioAtual, token.value, e);
      diretorioAtual := e;
      inodeAtual := diretorioAtual.inumber;
      left := left[1..];
      token, rest := StrTok(rest);
    }
  }

  lemma SearchIsStep(image: seq<byte>, names: Names, dir: nat, stale: DirEnt, name: seq<byte>, e: DirEnt)
    requires NamesOf(image, names) && Searchable(image, dir)
    requires e == match Find(image, dir, name) case Some(f) => f case None => stale
    ensures e.inumber == Step(names, dir, stale.inumber, name)
  {
  }

  /** That lookup: there is no inode, and the result is not negative. */
  method LookUpWhatIsMissing(stale: DirEnt) returns (inodeAtual: int)
    ensures Resolve(NamesIn(ImageOfA()), ROOT_INUMBER, Components([47, 97, 47, 98])).None? && inodeAtual == 2
  {
    hide ImageOfA, NamesIn, NamesOf, Components, Resolve, Lookup, Walkable, DiskImg.Valid;
    var memoria := new byte[512];
    var disk := new DiskImg(ImageOfA(), memoria, 0, 512);
    PromiseIsBroken(stale.inumber);
    inodeAtual := PathnameLookup(disk, [47, 97, 47, 98], stale, NamesIn(ImageOfA()));
  }
}
