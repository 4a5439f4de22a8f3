/**
 The parts of the sector cache of 2/CacheSetor.c: its tables as values, the two lists that share the
 descriptors, and the cache memory cut into sector-sized slots.
*/
module CacheParts {
  import opened Bytes
  import opened ListHeads
  import L = LruModel

  // ----- the tables, as values

  /** Two lists of descriptors that share none and repeat none. */
  ghost predicate Disjoint(livres: seq<nat>, lru: seq<nat>, n: nat)
  {
    && (forall k :: 0 <= k < |livres| ==> livres[k] < n)
    && (forall k :: 0 <= k < |lru| ==> lru[k] < n)
    && L.Distinct(livres) && L.Distinct(lru)
    && (forall j, k :: 0 <= j < |livres| && 0 <= k < |lru| ==> livres[j] != lru[k])
  }

  /** The two lists hold every descriptor once, and the table maps a sector to the used descriptor that bears it. */
  ghost predicate Tables(livres: seq<nat>, lru: seq<nat>, numeroSetor: seq<int>, hashTable: map<int, nat>)
  {
    && Disjoint(livres, lru, |numeroSetor|)
    && |livres| + |lru| == |numeroSetor|
    && (forall s :: s in hashTable ==> hashTable[s] in lru && numeroSetor[hashTable[s]] == s)
    && (forall d :: d in lru ==> numeroSetor[d] in hashTable && hashTable[numeroSetor[d]] == d)
  }

  ghost function Keys(lru: seq<nat>, numeroSetor: seq<int>): (r: seq<int>)
    requires forall k :: 0 <= k < |lru| ==> lru[k] < |numeroSetor|
    ensures |r| == |lru|
    ensures forall k :: 0 <= k < |lru| ==> r[k] == numeroSetor[lru[k]]
  {
    seq(|lru|, k requires 0 <= k < |lru| => numeroSetor[lru[k]])
  }

  /** Every descriptor is in exactly one of the two lists. */
  lemma {:induction false} ListsPartition(livres: seq<nat>, lru: seq<nat>, numeroSetor: seq<int>,
                                          hashTable: map<int, nat>, d: nat)
    requires Tables(livres, lru, numeroSetor, hashTable) && d < |numeroSetor|
    ensures d in livres <==> d !in lru
  {
    var all, range := livres + lru, seq(|numeroSetor|, k => k);
    var s, t := set k | 0 <= k < |all| :: all[k], set k | 0 <= k < |range| :: range[k];
    DistinctSize(all);
    DistinctSize(range);
    forall x | x in s ensures x in t {
      assert x < |numeroSetor| && range[x] == x;
    }
    SameSizeSubset(s, t);
    assert range[d] in t;
  }

  lemma {:induction false} DistinctSize(s: seq<nat>)
    requires L.Distinct(s)
    ensures |set k | 0 <= k < |s| :: s[k]| == |s|
  {
    if s != [] {
      var n := |s| - 1;
      DistinctSize(s[..n]);
      assert (set k | 0 <= k < |s| :: s[k]) == (set k | 0 <= k < |s[..n]| :: s[..n][k]) + {s[n]};
    }
  }

  lemma {:induction false} SameSizeSubset(s: set<nat>, t: set<nat>)
    requires s <= t && |s| == |t|
    ensures s == t
  {
    if s != {} {
      var x :| x in s;
      SameSizeSubset(s - {x}, t - {x});
    }
  }

  lemma KeysDistinct(livres: seq<nat>, lru: seq<nat>, numeroSetor: seq<int>, hashTable: map<int, nat>)
    requires Tables(livres, lru, numeroSetor, hashTable)
    ensures L.Distinct(Keys(lru, numeroSetor))
    ensures forall s :: s in hashTable <==> s in Keys(lru, numeroSetor)
  {
    var keys := Keys(lru, numeroSetor);
    forall i, j | 0 <= i < j < |keys| ensures keys[i] != keys[j] {
      assert lru[i] in lru && lru[j] in lru;
    }
    forall s | s in hashTable ensures s in keys {
      var k :| 0 <= k < |lru| && lru[k] == hashTable[s];
      assert keys[k] == s;
    }
    forall s | s in keys ensures s in hashTable {
      var k :| 0 <= k < |keys| && keys[k] == s;
      assert lru[k] in lru;
    }
  }

  /** Element k of s goes to the front. */
  ghost function Reinserted<T>(s: seq<T>, k: nat): (r: seq<T>)
    requires k < |s|
    ensures |r| == |s|
    ensures forall j :: 0 <= j < |r| ==> r[j] == if j == 0 then s[k] else if j <= k then s[j - 1] else s[j]
  {
    [s[k]] + Removed(s, k)
  }

  lemma ReinsertedMembers(lru: seq<nat>, k: nat)
    requires k < |lru|
    ensures forall d :: d in Reinserted(lru, k) <==> d in lru
  {
    assert lru == lru[..k] + [lru[k]] + lru[k + 1..];
  }

  lemma DisjointReinsert(livres: seq<nat>, lru: seq<nat>, n: nat, k: nat)
    requires Disjoint(livres, lru, n) && k < |lru|
    ensures Disjoint(livres, Reinserted(lru, k), n)
  {
  }

  lemma KeysReinsert(lru: seq<nat>, numeroSetor: seq<int>, k: nat)
    requires forall j :: 0 <= j < |lru| ==> lru[j] < |numeroSetor|
    requires L.Distinct(Keys(lru, numeroSetor)) && k < |lru|
    ensures Keys(Reinserted(lru, k), numeroSetor)
         == [numeroSetor[lru[k]]] + L.Without(Keys(lru, numeroSetor), numeroSetor[lru[k]])
  {
    var keys, r := Keys(lru, numeroSetor), Reinserted(lru, k);
    L.WithoutAt(keys, k);
    assert forall j :: 0 <= j < |r| ==> r[j] < |numeroSetor|;
    assert Keys(Reinserted(lru, k), numeroSetor) == [keys[k]] + (keys[..k] + keys[k + 1..]);
  }

  lemma DisjointTake(livres: seq<nat>, lru: seq<nat>, n: nat)
    requires Disjoint(livres, lru, n) && livres != []
    ensures Disjoint(Removed(livres, 0), [livres[0]] + lru, n)
  {
  }

  /** Moving a used descriptor to the front is the hit of the model. */
  lemma TablesReinsert(livres: seq<nat>, lru: seq<nat>, numeroSetor: seq<int>, hashTable: map<int, nat>, k: nat)
    requires Tables(livres, lru, numeroSetor, hashTable) && k < |lru|
    ensures Tables(livres, Reinserted(lru, k), numeroSetor, hashTable)
    ensures Keys(Reinserted(lru, k), numeroSetor)
         == [numeroSetor[lru[k]]] + L.Without(Keys(lru, numeroSetor), numeroSetor[lru[k]])
  {
    DisjointReinsert(livres, lru, |numeroSetor|, k);
    ReinsertedMembers(lru, k);
    KeysDistinct(livres, lru, numeroSetor, hashTable);
    KeysReinsert(lru, numeroSetor, k);
  }

  /** Using the first free descriptor is a miss that fits. */
  lemma TablesInsert(livres: seq<nat>, lru: seq<nat>, numeroSetor: seq<int>, hashTable: map<int, nat>, n: int)
    requires Tables(livres, lru, numeroSetor, hashTable) && livres != [] && n !in hashTable
    ensures Tables(Removed(livres, 0), [livres[0]] + lru, numeroSetor[livres[0] := n], hashTable[n := livres[0]])
    ensures Keys([livres[0]] + lru, numeroSetor[livres[0] := n]) == [n] + Keys(lru, numeroSetor)
    ensures forall s :: s in hashTable ==> hashTable[s] < |numeroSetor| && hashTable[s] != livres[0]
  {
    var d := livres[0];
    var r := [d] + lru;
    assert forall e :: e in r <==> e == d || e in lru;
    assert d !in lru;
    assert Disjoint(Removed(livres, 0), r, |numeroSetor|);
  }

  lemma KeysReplace(lru: seq<nat>, numeroSetor: seq<int>, n: int)
    requires lru != [] && L.Distinct(lru) && forall j :: 0 <= j < |lru| ==> lru[j] < |numeroSetor|
    ensures var d, k := lru[|lru| - 1], |lru| - 1;
            && (forall j :: 0 <= j < |lru| ==> Reinserted(lru, k)[j] < |numeroSetor|)
            && Keys(Reinserted(lru, k), numeroSetor[d := n]) == [n] + Keys(lru, numeroSetor)[..k]
  {
  }

  /** Reusing the last descriptor is a miss that evicts the least recently used sector. */
  lemma TablesReplace(livres: seq<nat>, lru: seq<nat>, numeroSetor: seq<int>, hashTable: map<int, nat>, n: int)
    requires Tables(livres, lru, numeroSetor, hashTable) && lru != [] && n !in hashTable
    ensures var d, k := lru[|lru| - 1], |lru| - 1; var h := hashTable - {numeroSetor[d]};
            && Tables(livres, Reinserted(lru, k), numeroSetor[d := n], h[n := d])
            && Keys(Reinserted(lru, k), numeroSetor[d := n]) == [n] + Keys(lru, numeroSetor)[..k]
            && (forall s :: s in h ==> h[s] < |numeroSetor| && h[s] != d)
  {
    var d, k := lru[|lru| - 1], |lru| - 1;
    DisjointReinsert(livres, lru, |numeroSetor|, k);
    ReinsertedMembers(lru, k);
    KeysReplace(lru, numeroSetor, n);
    assert d in lru;
    forall s | s in hashTable && s != numeroSetor[d] ensures hashTable[s] < |numeroSetor| && hashTable[s] != d {
      assert hashTable[s] in lru;
    }
  }

  // ----- the lists

  /** s lists the nodes embedded in the descriptors ds. */
  ghost predicate Linked(nos: seq<ListHead>, ds: seq<nat>, s: seq<ListHead>)
  {
    |s| == |ds| && forall k :: 0 <= k < |ds| ==> ds[k] < |nos| && s[k] == nos[ds[k]]
  }

  lemma LinkedReinsert(nos: seq<ListHead>, ds: seq<nat>, s: seq<ListHead>, k: nat)
    requires Linked(nos, ds, s) && k < |ds|
    ensures Linked(nos, Reinserted(ds, k), Reinserted(s, k))
  {
  }

  lemma LinkedRemove(nos: seq<ListHead>, ds: seq<nat>, s: seq<ListHead>, k: nat)
    requires Linked(nos, ds, s) && k < |ds|
    ensures Linked(nos, Removed(ds, k), Removed(s, k))
  {
  }

  lemma LinkedAdd(nos: seq<ListHead>, ds: seq<nat>, s: seq<ListHead>, d: nat)
    requires Linked(nos, ds, s) && d < |nos|
    ensures Linked(nos, [d] + ds, [nos[d]] + s)
  {
  }

  /** Two lists that share no node, not even a sentinel. */
  ghost predicate Apart(g: ListHead, s: seq<ListHead>, h: ListHead, t: seq<ListHead>)
  {
    g != h && g !in t && h !in s && forall j, k :: 0 <= j < |s| && 0 <= k < |t| ==> s[j] != t[k]
  }

  lemma LinkedApart(nos: seq<ListHead>, g: ListHead, ds: seq<nat>, s: seq<ListHead>,
                    h: ListHead, es: seq<nat>, t: seq<ListHead>)
    requires L.Distinct(nos) && g !in nos && h !in nos && g != h
    requires Linked(nos, ds, s) && Linked(nos, es, t) && Disjoint(ds, es, |nos|)
    ensures Apart(g, s, h, t) && Apart(h, t, g, s)
  {
  }

  /** list_del_init and list_add on one list; the other is not touched. */
  method ToFront(node: ListHead, head: ListHead, ghost s: seq<ListHead>, ghost k: nat,
                 ghost other: ListHead, ghost t: seq<ListHead>)
    requires Ring(head, s) && k < |s| && s[k] == node
    requires Ring(other, t) && Apart(head, s, other, t)
    modifies head, s
    ensures Ring(head, Reinserted(s, k)) && Ring(other, t)
  {
    assert node.prev == Before(head, s, k) && node.next == After(head, s, k);
    ListDelInit(node, head, s, k);
    ListAdd(node, head, Removed(s, k));
  }

  /** list_del_init on one list and list_add on another. */
  method Across(node: ListHead, from: ListHead, ghost s: seq<ListHead>, ghost k: nat, to: ListHead, ghost t: seq<ListHead>)
    requires Ring(from, s) && k < |s| && s[k] == node
    requires Ring(to, t) && Apart(from, s, to, t)
    modifies from, s, to, t
    ensures Ring(from, Removed(s, k)) && Ring(to, [node] + t)
  {
    assert node.prev == Before(from, s, k) && node.next == After(from, s, k);
    ListDelInit(node, from, s, k);
    assert node !in Removed(s, k) && (forall n :: n in Removed(s, k) ==> n in s);
    ListAdd(node, to, t);
  }

  /** The nodes embedded in n new descriptors, and two sentinels. */
  method NovosNos(n: nat) returns (nos: seq<ListHead>, h: ListHead, g: ListHead, ghost repr: set<object>)
    ensures |nos| == n && L.Distinct(nos) && fresh(repr)
    ensures forall i :: 0 <= i < n ==> nos[i] in repr && nos[i].entry == i
    ensures h in repr && g in repr && h != g && h !in nos && g !in nos && Ring(h, []) && Ring(g, [])
  {
    nos, repr := [], {};
    for i := 0 to n
      invariant |nos| == i && L.Distinct(nos) && fresh(repr)
      invariant forall k :: 0 <= k < i ==> nos[k] in repr && nos[k].entry == k
    {
      var no := new ListHead(i);
      nos, repr := nos + [no], repr + {no};
    }
    h := new ListHead(-1);
    g := new ListHead(-1);
    repr := repr + {h, g};
  }

  /** listaLivres and listaLRU: the descriptors, by number, linked through the nodes embedded in them. */
  class Listas {
    const nos: seq<ListHead>
    const listaLivres: ListHead
    const listaLRU: ListHead

    ghost const Repr: set<object>
    ghost var livres: seq<nat>
    ghost var lru: seq<nat>
    ghost var nosLivres: seq<ListHead>
    ghost var nosLRU: seq<ListHead>

    ghost predicate Layout()
    {
      && this in Repr && listaLivres in Repr && listaLRU in Repr && (forall i :: 0 <= i < |nos| ==> nos[i] in Repr)
      && L.Distinct(nos)
      && (forall i :: 0 <= i < |nos| ==> nos[i].entry == i)
      && listaLivres !in nos && listaLRU !in nos && listaLivres != listaLRU
    }

    ghost predicate Valid()
      reads this, Repr
    {
      && Layout()
      && Disjoint(livres, lru, |nos|)
      && Linked(nos, livres, nosLivres) && Linked(nos, lru, nosLRU)
      && Ring(listaLivres, nosLivres) && Ring(listaLRU, nosLRU)
    }

    constructor (n: nat)
      ensures Valid() && |nos| == n && lru == [] && livres == seq(n, i => i)
      ensures fresh(Repr)
    {
      var nos, h, g, repr := NovosNos(n);
      this.nos, listaLivres, listaLRU := nos, h, g;
      Repr := {this} + repr;
      livres, lru, nosLivres, nosLRU := [], [], [], [];
      new;
      LigaLivres();
    }

    /** Every descriptor is appended to the free list. */
    method LigaLivres()
      requires Valid() && livres == [] && lru == []
      modifies Repr
      ensures Valid() && lru == [] && livres == seq(|nos|, i => i)
    {
      for i := 0 to |nos|
        invariant |livres| == i && forall k :: 0 <= k < i ==> livres[k] == k
        invariant nosLivres == nos[..i] && lru == [] && nosLRU == []
        invariant Ring(listaLivres, nosLivres) && Ring(listaLRU, [])
      {
        assert nos[i] !in nosLivres;
        ListAddTail(nos[i], listaLivres, nosLivres);
        livres := livres + [i];
        nosLivres := nosLivres + [nos[i]];
      }
    }

    predicate SemLivres()
      requires Valid()
      reads this, Repr
      ensures SemLivres() <==> livres == []
    {
      ListEmpty(listaLivres, nosLivres)
    }

    /** list_del_init and list_add on a descriptor in use. */
    method MoveToFront(d: nat, ghost k: nat)
      requires Valid() && k < |lru| && lru[k] == d
      modifies Repr
      ensures Valid() && livres == old(livres) && lru == Reinserted(old(lru), k)
    {
      LinkedApart(nos, listaLivres, livres, nosLivres, listaLRU, lru, nosLRU);
      LinkedReinsert(nos, lru, nosLRU, k);
      DisjointReinsert(livres, lru, |nos|, k);
      ToFront(nos[d], listaLRU, nosLRU, k, listaLivres, nosLivres);
      lru, nosLRU := Reinserted(lru, k), Reinserted(nosLRU, k);
    }

    /** The first free descriptor is unlinked and put at the front of the descriptors in use. */
    method TakeFree() returns (d: nat)
      requires Valid() && livres != []
      modifies Repr
      ensures Valid() && d == old(livres[0])
      ensures livres == Removed(old(livres), 0) && lru == [d] + old(lru)
    {
      hide Disjoint;
      LinkedApart(nos, listaLivres, livres, nosLivres, listaLRU, lru, nosLRU);
      LinkedRemove(nos, livres, nosLivres, 0);
      LinkedAdd(nos, lru, nosLRU, livres[0]);
      DisjointTake(livres, lru, |nos|);
      assert listaLivres.next == nosLivres[0] == nos[livres[0]];
      d := listaLivres.next.entry;
      ghost var s, t := nosLivres, nosLRU;
      livres, lru, nosLivres, nosLRU := Removed(livres, 0), [d] + lru, Removed(s, 0), [nos[d]] + t;
      Across(nos[d], listaLivres, s, 0, listaLRU, t);
    }

    /** The least recently used descriptor is unlinked and put at the front. */
    method TakeLast() returns (d: nat)
      requires Valid() && lru != []
      modifies Repr
      ensures Valid() && livres == old(livres) && d == old(lru[|lru| - 1]) && lru == Reinserted(old(lru), old(|lru|) - 1)
    {
      assert listaLRU.prev == nosLRU[|lru| - 1] == nos[lru[|lru| - 1]];
      d := listaLRU.prev.entry;
      MoveToFront(d, |lru| - 1);
    }
  }

  // ----- the slots

  /** The part of the cache memory that starts at inicio, cut into slots. */
  class Slots {
    const memoria: array<byte>
    const inicio: nat
    const quant: nat
    ghost var slots: seq<seq<byte>>

    /** descritorSetorToEnderecoSetor */
    function Endereco(d: nat): nat
    {
      inicio + d * 512
    }

    ghost predicate Valid()
      reads this, memoria
    {
      && inicio + quant * 512 <= memoria.Length
      && |slots| == quant
      && (forall d :: 0 <= d < quant ==> |slots[d]| == 512)
      && forall d, k {:trigger slots[d][k]} :: 0 <= d < quant && 0 <= k < 512 ==>
           slots[d][k] == memoria[inicio + d * 512 + k]
    }

    constructor (memoria: array<byte>, inicio: nat, quant: nat)
      requires inicio + quant * 512 <= memoria.Length
      ensures Valid() && this.memoria == memoria && this.inicio == inicio && this.quant == quant
    {
      this.memoria, this.inicio, this.quant := memoria, inicio, quant;
      ghost var bytes := memoria[..];
      slots := seq(quant, d requires 0 <= d < quant => bytes[inicio + d * 512..inicio + (d + 1) * 512]);
    }

    /** The memory outside the slots is as it was. */
    twostate predicate OutsideKept()
      reads memoria
    {
      forall a :: 0 <= a < memoria.Length && !(inicio <= a < inicio + quant * 512) ==> memoria[a] == old(memoria[a])
    }

    /** memcpy into a slot: the other slots, and the memory outside them all, do not change. */
    method Copia(d: nat, setor: array<byte>)
      requires Valid() && d < quant && setor.Length == 512 && setor != memoria
      modifies this, memoria
      ensures Valid() && slots == old(slots)[d := setor[..]]
      ensures forall a :: 0 <= a < memoria.Length && !(Endereco(d) <= a < Endereco(d) + 512) ==>
                memoria[a] == old(memoria[a])
      ensures OutsideKept()
    {
      forall k | 0 <= k < 512 {
        memoria[Endereco(d) + k] := setor[k];
      }
      slots := slots[d := setor[..]];
    }

    /** memcpy out of a slot. */
    method Le(d: nat, buf: array<byte>)
      requires Valid() && d < quant && buf.Length == 512 && buf != memoria
      modifies buf
      ensures buf[..] == slots[d]
    {
      forall k | 0 <= k < 512 {
        buf[k] := memoria[Endereco(d) + k];
      }
      assert forall k :: 0 <= k < 512 ==> buf[k] == slots[d][k];
    }
  }

  /**
   disksearch gives the first 1024 bytes of the memory to the inodes, 32 bytes each, and the rest, of the whole KB
   kilobytes, to the sectors: no inode lies in a sector slot, and all slots fit.
  */
  lemma RegionsApart(kb: nat, inode: nat, d: nat, slots: Slots)
    requires kb >= 1 && inode < 1024 / 512 * 16
    requires slots.inicio == 1024 && slots.quant == (kb * 1024 - 1024) / 512 && d < slots.quant
    ensures inode * 32 + 32 <= slots.inicio <= slots.Endereco(d)
    ensures slots.Endereco(d) + 512 <= kb * 1024
  {
  }
}
