/**
 The sector cache of 2/CacheSetor.c: a hash table from sectors to descriptors, the numbers of the
 descriptors, the lists that link them and the slots that hold their bytes.
*/
module CacheSetores {
  import opened Bytes
  import opened ListHeads
  import opened CacheParts
  import L = LruModel

  /** The parts fit together, and hold the given sectors, the most recently used first, with the given bytes. */
  ghost predicate Holds(livres: seq<nat>, lru: seq<nat>, slots: seq<seq<byte>>, numeroSetor: seq<int>,
                        hashTable: map<int, nat>, setores: seq<int>, conteudo: map<int, seq<byte>>)
  {
    && Tables(livres, lru, numeroSetor, hashTable) && |slots| == |numeroSetor|
    && setores == Keys(lru, numeroSetor)
    && conteudo.Keys == hashTable.Keys
    && forall s :: s in hashTable ==> hashTable[s] < |slots| && conteudo[s] == slots[hashTable[s]]
  }

  /** Every sector of m but n has the bytes it has in m0. */
  ghost predicate Keeps(m: map<int, seq<byte>>, m0: map<int, seq<byte>>, n: int)
  {
    forall s :: s in m && s != n ==> s in m0 && m[s] == m0[s]
  }

  lemma HoldsReinsert(livres: seq<nat>, lru: seq<nat>, slots: seq<seq<byte>>, numeroSetor: seq<int>,
                      hashTable: map<int, nat>, setores: seq<int>, conteudo: map<int, seq<byte>>, k: nat, n: int)
    requires Holds(livres, lru, slots, numeroSetor, hashTable, setores, conteudo)
    requires k < |lru| && n in hashTable && lru[k] == hashTable[n]
    ensures Holds(livres, Reinserted(lru, k), slots, numeroSetor, hashTable, [n] + L.Without(setores, n), conteudo)
  {
    TablesReinsert(livres, lru, numeroSetor, hashTable, k);
  }

  lemma HoldsInsert(livres: seq<nat>, lru: seq<nat>, slots: seq<seq<byte>>, numeroSetor: seq<int>,
                    hashTable: map<int, nat>, setores: seq<int>, conteudo: map<int, seq<byte>>, n: int, setor: seq<byte>)
    requires Holds(livres, lru, slots, numeroSetor, hashTable, setores, conteudo)
    requires livres != [] && n !in hashTable
    ensures var d := livres[0];
            d < |slots| && Holds(Removed(livres, 0), [d] + lru, slots[d := setor], numeroSetor[d := n],
                                 hashTable[n := d], [n] + setores, conteudo[n := setor])
    ensures [n] + setores == L.Prefix([n] + setores, |slots|)
    ensures Keeps(conteudo[n := setor], conteudo, n)
  {
    TablesInsert(livres, lru, numeroSetor, hashTable, n);
  }

  lemma HoldsReplace(livres: seq<nat>, lru: seq<nat>, slots: seq<seq<byte>>, numeroSetor: seq<int>,
                     hashTable: map<int, nat>, setores: seq<int>, conteudo: map<int, seq<byte>>, n: int, setor: seq<byte>)
    requires Holds(livres, lru, slots, numeroSetor, hashTable, setores, conteudo)
    requires livres == [] && lru != [] && n !in hashTable
    ensures [n] + setores[..|lru| - 1] == L.Prefix([n] + setores, |slots|)
    ensures Keeps((conteudo - {setores[|lru| - 1]})[n := setor], conteudo, n)
    ensures var d, k := lru[|lru| - 1], |lru| - 1;
            && d < |slots| && numeroSetor[d] == setores[k]
            && Holds(livres, Reinserted(lru, k), slots[d := setor], numeroSetor[d := n],
                     (hashTable - {numeroSetor[d]})[n := d], [n] + setores[..k],
                     (conteudo - {setores[k]})[n := setor])
  {
    TablesReplace(livres, lru, numeroSetor, hashTable, n);
  }

  class CacheSetor {
    const listas: Listas
    const slots: Slots
    const numeroSetor: array<int>
    var hashTable: map<int, nat>

    // What the cache is to its users: the cached sectors, the most recently used first, and their bytes.
    ghost var setores: seq<int>
    ghost var conteudo: map<int, seq<byte>>

    ghost predicate Valid()
      reads this, numeroSetor, slots, slots.memoria, listas, listas.Repr
    {
      && this !in listas.Repr && numeroSetor !in listas.Repr && slots !in listas.Repr && slots.memoria !in listas.Repr
      && listas.Valid() && slots.Valid()
      && Holds(listas.livres, listas.lru, slots.slots, numeroSetor[..], hashTable, setores, conteudo)
    }

    lemma SectorsAreKeys()
      requires Valid()
      ensures forall n :: n in conteudo <==> n in setores
      ensures L.Distinct(setores) && |setores| <= slots.quant
    {
      KeysDistinct(listas.livres, listas.lru, numeroSetor[..], hashTable);
    }

    /** CacheSetor_init: every descriptor is free. */
    constructor (memoria: array<byte>, inicio: nat, tamanho: nat)
      requires inicio + tamanho <= memoria.Length
      ensures Valid() && setores == [] && conteudo == map[]
      ensures slots.memoria == memoria && slots.inicio == inicio && slots.quant == tamanho / 512
      ensures fresh(numeroSetor) && fresh(slots) && fresh(listas) && fresh(listas.Repr)
    {
      var q := tamanho / 512;
      slots := new Slots(memoria, inicio, q);
      listas := new Listas(q);
      numeroSetor := new int[q];
      hashTable, setores, conteudo := map[], [], map[];
    }

    /** CacheSetor_obterSetor, which returns the slot; -1 stands for NULL. */
    method ObterSetor(n: int) returns (slot: int)
      requires Valid()
      modifies this`setores, listas.Repr
      ensures Valid()
      ensures n !in conteudo ==> slot == -1 && setores == old(setores)
      ensures n in conteudo ==>
                0 <= slot < slots.quant && slots.slots[slot] == conteudo[n] && setores == [n] + L.Without(old(setores), n)
    {
      hide Disjoint, Linked, Keys;
      if n !in hashTable {
        return -1;
      }
      slot := hashTable[n];
      ghost var k :| 0 <= k < |listas.lru| && listas.lru[k] == slot;
      HoldsReinsert(listas.livres, listas.lru, slots.slots, numeroSetor[..], hashTable, setores, conteudo, k, n);
      setores := [n] + L.Without(setores, n);
      listas.MoveToFront(slot, k);
    }

    /**
     CacheSetor_adicionarSetor, which its caller calls only for a sector that is not cached: the new sector
     comes first, the least recently used one goes if there is no room, and the others keep their bytes.
    */
    method AdicionarSetor(n: int, setor: array<byte>)
      requires Valid() && slots.quant > 0 && n !in conteudo
      requires setor.Length == 512 && setor != slots.memoria && setor !in listas.Repr
      modifies this, numeroSetor, slots, slots.memoria
      modifies listas.Repr
      ensures Valid() && setores == L.Prefix([n] + old(setores), slots.quant)
      ensures n in conteudo && conteudo[n] == setor[..] && Keeps(conteudo, old(conteudo), n)
      ensures slots.OutsideKept()
    {
      if !listas.SemLivres() {
        AdicionarEmLivre(n, setor);
      } else {
        AdicionarNoUltimo(n, setor);
      }
    }

    /** A descriptor gets a new sector: memcpy, the number, and the entry of the table. */
    method Ocupa(d: nat, n: int, setor: array<byte>)
      requires slots.Valid() && d < slots.quant == numeroSetor.Length
      requires setor.Length == 512 && setor != slots.memoria
      modifies this`hashTable, numeroSetor, slots, slots.memoria
      ensures slots.Valid() && slots.slots == old(slots.slots)[d := setor[..]]
      ensures numeroSetor[..] == old(numeroSetor[..])[d := n] && hashTable == old(hashTable)[n := d]
      ensures slots.OutsideKept()
    {
      slots.Copia(d, setor);
      numeroSetor[d] := n;
      hashTable := hashTable[n := d];
    }

    /** The same for a descriptor in use, whose entry is deleted first, while it still has its old number. */
    method Reocupa(d: nat, n: int, setor: array<byte>)
      requires slots.Valid() && d < slots.quant == numeroSetor.Length
      requires setor.Length == 512 && setor != slots.memoria
      modifies this`hashTable, numeroSetor, slots, slots.memoria
      ensures slots.Valid() && slots.slots == old(slots.slots)[d := setor[..]]
      ensures numeroSetor[..] == old(numeroSetor[..])[d := n]
      ensures hashTable == (old(hashTable) - {old(numeroSetor[d])})[n := d]
      ensures slots.OutsideKept()
    {
      hashTable := hashTable - {numeroSetor[d]};
      Ocupa(d, n, setor);
    }

    /** The branch that finds a free descriptor. */
    method AdicionarEmLivre(n: int, setor: array<byte>)
      requires Valid() && listas.livres != [] && n !in conteudo
      requires setor.Length == 512 && setor != slots.memoria && setor !in listas.Repr
      modifies this, numeroSetor, slots, slots.memoria
      modifies listas.Repr
      ensures Valid() && setores == L.Prefix([n] + old(setores), slots.quant)
      ensures n in conteudo && conteudo[n] == setor[..] && Keeps(conteudo, old(conteudo), n)
      ensures slots.OutsideKept()
    {
      hide Disjoint, Linked, Keys;
      HoldsInsert(listas.livres, listas.lru, slots.slots, numeroSetor[..], hashTable, setores, conteudo, n, setor[..]);
      setores, conteudo := [n] + setores, conteudo[n := setor[..]];
      var d := listas.TakeFree();
      Ocupa(d, n, setor);
    }

    /** The branch that evicts the least recently used sector. */
    method AdicionarNoUltimo(n: int, setor: array<byte>)
      requires Valid() && listas.livres == [] && slots.quant > 0 && n !in conteudo
      requires setor.Length == 512 && setor != slots.memoria && setor !in listas.Repr
      modifies this, numeroSetor, slots, slots.memoria
      modifies listas.Repr
      ensures Valid() && setores == L.Prefix([n] + old(setores), slots.quant)
      ensures n in conteudo && conteudo[n] == setor[..] && Keeps(conteudo, old(conteudo), n)
      ensures slots.OutsideKept()
    {
      hide Disjoint, Linked, Keys;
      HoldsReplace(listas.livres, listas.lru, slots.slots, numeroSetor[..], hashTable, setores, conteudo, n, setor[..]);
      ghost var v := setores[|setores| - 1];
      setores, conteudo := [n] + setores[..|setores| - 1], (conteudo - {v})[n := setor[..]];
      var d := listas.TakeLast();
      Reocupa(d, n, setor);
    }
  }
}
