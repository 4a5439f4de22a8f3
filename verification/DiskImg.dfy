/** The cached disk of 2/diskimg.c, over the raw disk of 2/disksim.c. */
module DiskImgs {
  import opened Bytes
  import opened CacheSetores
  import L = LruModel

  /** The sector lies within the image. */
  predicate InImage(image: seq<byte>, n: int)
  {
    0 <= n && (n + 1) * 512 <= |image|
  }

  function SectorOf(image: seq<byte>, n: int): (s: seq<byte>)
    requires InImage(image, n)
    ensures |s| == 512
  {
    image[n * 512..(n + 1) * 512]
  }

  /** What the raw disk returns: -1 for a negative offset, fewer bytes or none at the end of the image. */
  function RawCount(image: seq<byte>, n: int): int
  {
    if n < 0 then -1
    else if n * 512 >= |image| then 0
    else if (n + 1) * 512 <= |image| then 512
    else |image| - n * 512
  }

  /** The buffer after a raw read: bytes that were not read stay as they were. */
  function RawBytes(image: seq<byte>, n: int, buf: seq<byte>): (r: seq<byte>)
    requires |buf| == 512
    ensures |r| == 512
    ensures InImage(image, n) ==> r == SectorOf(image, n)
  {
    var m := RawCount(image, n);
    if m <= 0 then buf else image[n * 512..n * 512 + m] + buf[m..]
  }

  /** Byte k of the buffer after a raw read of sector n is byte 512 n + k of the image, if there is one. */
  lemma RawByte(image: seq<byte>, n: int, buf: seq<byte>, k: nat)
    requires |buf| == 512 && k < 512
    ensures RawBytes(image, n, buf)[k] == if 0 <= 512 * n + k < |image| && n >= 0 then image[512 * n + k] else buf[k]
    ensures n >= 0 ==> (k < RawCount(image, n) <==> 512 * n + k < |image|)
    ensures -1 <= RawCount(image, n) <= 512 && (RawCount(image, n) == -1 <==> n < 0)
  {
  }

  /** The cached bytes are those of whole sectors of the image. */
  ghost predicate Sound(image: seq<byte>, conteudo: map<int, seq<byte>>)
  {
    forall s :: s in conteudo ==> InImage(image, s) && conteudo[s] == SectorOf(image, s)
  }

  class DiskImg {
    const image: seq<byte>
    const cache: CacheSetor
    /** Calls of disksim_readsector. */
    var numDiskReads: nat

    ghost predicate Valid()
      reads this, cache, cache.numeroSetor, cache.slots, cache.slots.memoria, cache.listas, cache.listas.Repr
    {
      && this !in cache.listas.Repr
      && cache.Valid() && cache.slots.quant > 0
    }

    /** Everything that a read may change. */
    ghost function Footprint(): set<object>
    {
      {this, cache, cache.numeroSetor, cache.slots, cache.slots.memoria, cache.listas} + cache.listas.Repr
    }

    /** The disk has only been read so far, within the image. */
    ghost predicate Good()
      reads Footprint()
    {
      Valid() && Sound(image, cache.conteudo)
    }

    constructor (image: seq<byte>, memoria: array<byte>, inicio: nat, tamanho: nat)
      requires inicio + tamanho <= memoria.Length && tamanho >= 512
      ensures this.image == image && cache.slots.memoria == memoria && cache.slots.quant == tamanho / 512
      ensures Valid() && numDiskReads == 0 && cache.setores == [] && cache.conteudo == map[]
      ensures fresh(Footprint() - {memoria})
    {
      this.image := image;
      cache := new CacheSetor(memoria, inicio, tamanho);
      numDiskReads := 0;
    }

    method DisksimReadSector(n: int, buf: array<byte>) returns (ret: int)
      requires buf.Length == 512
      modifies this`numDiskReads, buf
      ensures ret == RawCount(image, n) && buf[..] == RawBytes(image, n, old(buf[..]))
      ensures numDiskReads == old(numDiskReads) + 1
    {
      numDiskReads := numDiskReads + 1;
      if n < 0 {
        return -1;
      }
      ret := RawCount(image, n);
      forall k | 0 <= k < ret {
        buf[k] := image[n * 512 + k];
      }
    }

    /** diskimg_readsector after a miss. */
    method ReadAndCache(n: int, buf: array<byte>) returns (ret: int)
      requires Valid() && n !in cache.conteudo && n !in cache.setores
      requires buf.Length == 512 && buf != cache.slots.memoria && buf !in cache.listas.Repr
      modifies this, buf, cache, cache.numeroSetor, cache.slots, cache.slots.memoria, cache.listas.Repr
      ensures Valid() && numDiskReads == old(numDiskReads) + 1
      ensures ret == RawCount(image, n) && buf[..] == RawBytes(image, n, old(buf[..]))
      ensures ret == -1 ==> cache.setores == old(cache.setores) && cache.conteudo == old(cache.conteudo)
      ensures ret != -1 ==> cache.setores == L.Touch(cache.slots.quant, old(cache.setores), n)
      ensures ret != -1 ==> n in cache.conteudo && cache.conteudo[n] == buf[..]
      ensures Keeps(cache.conteudo, old(cache.conteudo), n) && cache.slots.OutsideKept()
    {
      ret := DisksimReadSector(n, buf);
      if ret == -1 {
        return -1;
      }
      cache.AdicionarSetor(n, buf);
    }

    /** diskimg_readsector */
    method ReadSector(n: int, buf: array<byte>) returns (ret: int)
      requires Valid() && buf.Length == 512 && buf != cache.slots.memoria && buf !in cache.listas.Repr
      modifies this, buf, cache, cache.numeroSetor, cache.slots, cache.slots.memoria, cache.listas.Repr
      ensures Valid()
      ensures n in old(cache.conteudo) ==> ret == 512 && buf[..] == old(cache.conteudo[n])
      ensures n !in old(cache.conteudo) ==> ret == RawCount(image, n) && buf[..] == RawBytes(image, n, old(buf[..]))
      ensures ret == -1 ==> cache.setores == old(cache.setores) && cache.conteudo == old(cache.conteudo)
      ensures ret != -1 ==> cache.setores == L.Touch(cache.slots.quant, old(cache.setores), n)
      ensures ret != -1 ==> n in cache.conteudo && cache.conteudo[n] == buf[..]
      ensures Keeps(cache.conteudo, old(cache.conteudo), n) && cache.slots.OutsideKept()
      ensures ret == RawCount(image, n) <==> InImage(image, n) || n !in old(cache.setores)
      ensures numDiskReads == old(numDiskReads) + (if n in old(cache.setores) then 0 else 1)
    {
      cache.SectorsAreKeys();
      var slot := cache.ObterSetor(n);
      if slot != -1 {
        cache.slots.Le(slot, buf);
        return 512;
      }
      ret := ReadAndCache(n, buf);
    }

    /** In a read-only run, a read of a sector of the image returns what the raw disk returns. */
    method ReadSound(n: int, buf: array<byte>) returns (ret: int)
      requires Valid() && Sound(image, cache.conteudo) && InImage(image, n)
      requires buf.Length == 512 && buf != cache.slots.memoria && buf !in cache.listas.Repr
      modifies this, buf, cache, cache.numeroSetor, cache.slots, cache.slots.memoria, cache.listas.Repr
      ensures Valid() && Sound(image, cache.conteudo)
      ensures ret == 512 && buf[..] == SectorOf(image, n)
      ensures cache.setores == L.Touch(cache.slots.quant, old(cache.setores), n)
      ensures numDiskReads == old(numDiskReads) + (if n in old(cache.setores) then 0 else 1)
    {
      ghost var before := cache.conteudo;
      ret := ReadSector(n, buf);
      SoundKept(image, before, cache.conteudo, n);
    }

    /** A run of reads from an empty cache. */
    method ReadAll(sectors: seq<int>, buf: array<byte>) returns (results: seq<seq<byte>>)
      requires Valid() && cache.setores == [] && cache.conteudo == map[]
      requires buf.Length == 512 && buf != cache.slots.memoria && buf !in cache.listas.Repr
      requires forall k :: 0 <= k < |sectors| ==> InImage(image, sectors[k])
      modifies this, buf, cache, cache.numeroSetor, cache.slots, cache.slots.memoria, cache.listas.Repr
      ensures Valid() && Sound(image, cache.conteudo) && AreSectors(image, sectors, results)
      ensures cache.setores == L.CacheAfter(cache.slots.quant, sectors)
      ensures cache.setores == L.Prefix(L.Recent(sectors), cache.slots.quant)
      ensures numDiskReads == old(numDiskReads) + L.Misses(cache.slots.quant, sectors)
    {
      results := [];
      for k := 0 to |sectors|
        invariant Valid() && Sound(image, cache.conteudo)
        invariant cache.setores == L.CacheAfter(cache.slots.quant, sectors[..k])
        invariant numDiskReads == old(numDiskReads) + L.Misses(cache.slots.quant, sectors[..k])
        invariant AreSectors(image, sectors[..k], results)
      {
        MissesOneMore(cache.slots.quant, sectors, k);
        AreSectorsOneMore(image, sectors, results, k);
        var ret := ReadSound(sectors[k], buf);
        results := results + [buf[..]];
      }
      assert sectors[..|sectors|] == sectors;
      L.CacheIsRecentPrefix(cache.slots.quant, sectors);
    }
  }

  /** Result k is the content of sector k of the list. */
  ghost predicate AreSectors(image: seq<byte>, sectors: seq<int>, results: seq<seq<byte>>)
  {
    && |results| == |sectors|
    && forall k :: 0 <= k < |sectors| ==> InImage(image, sectors[k]) && results[k] == SectorOf(image, sectors[k])
  }

  lemma AreSectorsOneMore(image: seq<byte>, sectors: seq<int>, results: seq<seq<byte>>, k: nat)
    requires k < |sectors| && InImage(image, sectors[k]) && AreSectors(image, sectors[..k], results)
    ensures AreSectors(image, sectors[..k + 1], results + [SectorOf(image, sectors[k])])
  {
    assert sectors[..k + 1] == sectors[..k] + [sectors[k]];
  }

  lemma SoundKept(image: seq<byte>, m0: map<int, seq<byte>>, m: map<int, seq<byte>>, n: int)
    requires Sound(image, m0) && Keeps(m, m0, n)
    requires n in m ==> InImage(image, n) && m[n] == SectorOf(image, n)
    ensures Sound(image, m)
  {
  }

  lemma MissesOneMore(capacity: nat, sectors: seq<int>, k: nat)
    requires k < |sectors|
    ensures L.CacheAfter(capacity, sectors[..k + 1]) == L.Touch(capacity, L.CacheAfter(capacity, sectors[..k]), sectors[k])
    ensures L.Misses(capacity, sectors[..k + 1])
         == L.Misses(capacity, sectors[..k]) + (if sectors[k] in L.CacheAfter(capacity, sectors[..k]) then 0 else 1)
  {
    assert sectors[..k + 1][..k] == sectors[..k];
  }

  /**
   Any run of reads of sectors of the image, through a cache of any size, returns whole sectors with the bytes of
   the raw disk, and goes to the disk exactly as often as the replacement policy misses.
  */
  method ReadRun(image: seq<byte>, tamanho: nat, sectors: seq<int>)
    returns (results: seq<seq<byte>>, diskReads: nat)
    requires tamanho >= 512 && forall k :: 0 <= k < |sectors| ==> InImage(image, sectors[k])
    ensures AreSectors(image, sectors, results)
    ensures diskReads == L.Misses(tamanho / 512, sectors)
  {
    var memoria, buf := new byte[tamanho], new byte[512];
    var disk := new DiskImg(image, memoria, 0, tamanho);
    results := disk.ReadAll(sectors, buf);
    diskReads := disk.numDiskReads;
  }

  /** The sectors that have an offset: the others are never cached. */
  function NonNegative(sectors: seq<int>): (r: seq<int>)
    ensures forall k :: 0 <= k < |r| ==> r[k] >= 0
  {
    if sectors == [] then []
    else
      var n := |sectors| - 1;
      NonNegative(sectors[..n]) + (if sectors[n] >= 0 then [sectors[n]] else [])
  }

  /**
   Any run of reads, also outside the image: a read returns what the raw disk would return exactly for a sector that is
   inside the image or, by the replacement policy, not cached at that time; a cached sector always counts as whole.
  */
  method ReadAnyRun(image: seq<byte>, tamanho: nat, sectors: seq<int>) returns (counts: seq<int>)
    requires tamanho >= 512
    ensures |counts| == |sectors|
    ensures forall k :: 0 <= k < |sectors| ==>
              var cached := sectors[k] in L.CacheAfter(tamanho / 512, NonNegative(sectors[..k]));
              && counts[k] == (if cached then 512 else RawCount(image, sectors[k]))
              && (counts[k] == RawCount(image, sectors[k]) <==> InImage(image, sectors[k]) || !cached)
  {
    hide L.Touch, L.CacheAfter, NonNegative, CacheSetor.Valid;
    var memoria, buf := new byte[tamanho], new byte[512];
    var disk := new DiskImg(image, memoria, 0, tamanho);
    counts := [];
    NoneCached(tamanho / 512);
    for i := 0 to |sectors|
      invariant disk.Valid() && disk.cache.slots.quant == tamanho / 512 && buf != disk.cache.slots.memoria
      invariant buf !in disk.cache.listas.Repr && |counts| == i
      invariant fresh(disk.Footprint())
      invariant disk.cache.setores == L.CacheAfter(tamanho / 512, NonNegative(sectors[..i]))
      invariant forall k :: 0 <= k < i ==>
                  var cached := sectors[k] in L.CacheAfter(tamanho / 512, NonNegative(sectors[..k]));
                  && counts[k] == (if cached then 512 else RawCount(image, sectors[k]))
                  && (counts[k] == RawCount(image, sectors[k]) <==> InImage(image, sectors[k]) || !cached)
    {
      var ret := disk.ReadSector(sectors[i], buf);
      NonNegativeMore(tamanho / 512, sectors, i);
      counts := counts + [ret];
    }
  }

  lemma NoneCached(capacity: nat)
    ensures L.CacheAfter(capacity, NonNegative([])) == []
  {
  }

  lemma NonNegativeMore(capacity: nat, sectors: seq<int>, k: nat)
    requires k < |sectors|
    ensures L.CacheAfter(capacity, NonNegative(sectors[..k + 1]))
         == if sectors[k] < 0 then L.CacheAfter(capacity, NonNegative(sectors[..k]))
            else L.Touch(capacity, L.CacheAfter(capacity, NonNegative(sectors[..k])), sectors[k])
    ensures sectors[k] < 0 ==> sectors[k] !in L.CacheAfter(capacity, NonNegative(sectors[..k]))
  {
    assert sectors[..k + 1][..k] == sectors[..k];
    if sectors[k] < 0 {
      assert NonNegative(sectors[..k]) + [] == NonNegative(sectors[..k]);
      CachedWasRead(capacity, NonNegative(sectors[..k]), sectors[k]);
    } else {
      var r := NonNegative(sectors[..k]);
      assert (r + [sectors[k]])[..|r|] == r;
    }
  }

  lemma {:induction false} CachedWasRead(capacity: nat, sectors: seq<int>, n: int)
    requires n !in sectors
    ensures n !in L.CacheAfter(capacity, sectors)
  {
    if sectors != [] {
      CachedWasRead(capacity, sectors[..|sectors| - 1], n);
    }
  }

  /**
   Only sectors of the image may be read: reading any other sector that has an offset caches a buffer that was
   not filled, and the next read of it returns that buffer as a whole sector.
  */
  method ReadTwice(image: seq<byte>, tamanho: nat, n: int) returns (first: int, second: int)
    requires tamanho >= 512
    ensures first == RawCount(image, n)
    ensures second == RawCount(image, n) <==> n < 0 || InImage(image, n)
  {
    hide Holds, SectorOf, L.Touch;
    var memoria, buf := new byte[tamanho], new byte[512];
    var disk := new DiskImg(image, memoria, 0, tamanho);
    first := disk.ReadSector(n, buf);
    second := disk.ReadSector(n, buf);
  }
}
