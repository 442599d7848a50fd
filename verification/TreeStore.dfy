/**
 The payloads of a tree: every leaf cell names an overflow chain of its own, and the chains
 share no page.
 */
module TreeStore {
  import opened Pages
  import opened PagerModel

  type Chains = map<Key, seq<PageNo>>

  ghost predicate CellStored(pages: PageMap, cell: LeafCell, chain: seq<PageNo>) {
    && IsChain(pages, cell.val.page, chain)
    && cell.val.size == |ChainBytes(pages, chain)|
  }

  ghost predicate OwnPages(chains: Chains, k: Key, i: nat, k': Key, j: nat) {
    k in chains && k' in chains && i < |chains[k]| && j < |chains[k']| && chains[k][i] == chains[k'][j]
    ==> k == k' && i == j
  }

  ghost predicate StoreOk(pages: PageMap, cells: map<Key, LeafCell>, chains: Chains) {
    && chains.Keys == cells.Keys
    && (forall k :: k in cells ==> CellStored(pages, cells[k], chains[k]))
    && ChainsOwn(chains)
  }

  ghost predicate ChainsOwn(chains: Chains) {
    forall k, i, k', j :: OwnPages(chains, k, i, k', j)
  }

  /** What the tree maps its keys to. */
  ghost function Contents(pages: PageMap, cells: map<Key, LeafCell>, chains: Chains): map<Key, seq<Byte>>
    requires StoreOk(pages, cells, chains)
  {
    map k | k in cells :: (assert CellStored(pages, cells[k], chains[k]); ChainBytes(pages, chains[k]))
  }

  ghost predicate OverflowKept(pages: PageMap, pages': PageMap) {
    forall q :: q in pages && pages[q].OverflowPage? ==> q in pages' && pages'[q] == pages[q]
  }

  lemma StoreKept(pages: PageMap, pages': PageMap, cells: map<Key, LeafCell>, chains: Chains)
    requires StoreOk(pages, cells, chains) && OverflowKept(pages, pages')
    ensures StoreOk(pages', cells, chains)
    ensures Contents(pages', cells, chains) == Contents(pages, cells, chains)
  {
    forall k | k in cells
      ensures CellStored(pages', cells[k], chains[k])
      ensures ChainBytes(pages', chains[k]) == ChainBytes(pages, chains[k])
    {
      assert CellStored(pages, cells[k], chains[k]);
      ChainFrame(pages, pages', cells[k].val.page, chains[k]);
    }
  }

  /** A new key whose chain is new: the payload is added and nothing else changes. */
  lemma StoreAdd(pages: PageMap, free: seq<PageNo>, pages': PageMap, cells: map<Key, LeafCell>, chains: Chains,
                 key: Key, chain: seq<PageNo>, payload: seq<Byte>, p: PageNo)
    requires StoreOk(pages, cells, chains) && key !in cells
    requires NewChain(pages, free, pages', chain, payload, p)
    requires forall q :: q in free ==> q in pages && pages[q].FreePage?
    requires p in pages ==> !pages[p].OverflowPage?
    ensures var c := Cell(key, RecordOf(payload, chain));
            && StoreOk(pages', cells[key := c], chains[key := chain])
            && Contents(pages', cells[key := c], chains[key := chain])
               == Contents(pages, cells, chains)[key := Stored(payload)]
  {
    ChainElsewhere(pages, free, pages', chain, payload, p);
    StoreKept(pages, pages', cells, chains);
    ChainsApart(pages, free, cells, chains, key, chain);
    ChainAdded(pages', cells, chains, key, chain, payload);
  }

  /** A new chain takes no overflow page. */
  lemma ChainElsewhere(pages: PageMap, free: seq<PageNo>, pages': PageMap, chain: seq<PageNo>, payload: seq<Byte>,
                       p: PageNo)
    requires NewChain(pages, free, pages', chain, payload, p)
    requires forall q :: q in free ==> q in pages && pages[q].FreePage?
    requires p in pages ==> !pages[p].OverflowPage?
    ensures OverflowKept(pages, pages')
  {
    forall q | q in pages && pages[q].OverflowPage?
      ensures q in pages' && pages'[q] == pages[q]
    {
      assert q !in chain;
    }
  }

  /** A chain beside those of other keys makes the map one key larger. */
  lemma ChainAdded(pages: PageMap, cells: map<Key, LeafCell>, chains: Chains, key: Key, chain: seq<PageNo>,
                   payload: seq<Byte>)
    requires StoreOk(pages, cells, chains) && key !in cells
    requires IsChain(pages, Link(chain, 0), chain) && ChainBytes(pages, chain) == Stored(payload)
    requires ChainsOwn(chains[key := chain])
    ensures var c := Cell(key, RecordOf(payload, chain));
            && StoreOk(pages, cells[key := c], chains[key := chain])
            && Contents(pages, cells[key := c], chains[key := chain])
               == Contents(pages, cells, chains)[key := Stored(payload)]
  {
    ChainStored(pages, cells, chains, key, chain, payload);
  }

  lemma ChainStored(pages: PageMap, cells: map<Key, LeafCell>, chains: Chains, key: Key, chain: seq<PageNo>,
                    payload: seq<Byte>)
    requires StoreOk(pages, cells, chains) && key !in cells
    requires IsChain(pages, Link(chain, 0), chain) && ChainBytes(pages, chain) == Stored(payload)
    requires ChainsOwn(chains[key := chain])
    ensures StoreOk(pages, cells[key := Cell(key, RecordOf(payload, chain))], chains[key := chain])
  {
    var c := Cell(key, RecordOf(payload, chain));
    var cells', chains' := cells[key := c], chains[key := chain];
    forall k | k in cells'
      ensures CellStored(pages, cells'[k], chains'[k])
    {
      if k != key { assert CellStored(pages, cells[k], chains[k]); }
    }
  }

  lemma ChainsApart(pages: PageMap, free: seq<PageNo>, cells: map<Key, LeafCell>, chains: Chains, key: Key,
                    chain: seq<PageNo>)
    requires StoreOk(pages, cells, chains) && key !in cells
    requires forall q :: q in free ==> q in pages && pages[q].FreePage?
    requires forall i :: 0 <= i < |chain| ==> chain[i] in free || chain[i] !in pages
    requires forall i, j :: 0 <= i < j < |chain| ==> chain[i] != chain[j]
    ensures ChainsOwn(chains[key := chain])
  {
    var chains' := chains[key := chain];
    forall k, i, k', j
      ensures OwnPages(chains', k, i, k', j)
    {
      ChainIsApart(pages, free, cells, chains, key, chain, k, i, k', j);
    }
  }

  lemma ChainIsApart(pages: PageMap, free: seq<PageNo>, cells: map<Key, LeafCell>, chains: Chains, key: Key,
                     chain: seq<PageNo>, k: Key, i: nat, k': Key, j: nat)
    requires StoreOk(pages, cells, chains) && key !in cells
    requires forall q :: q in free ==> q in pages && pages[q].FreePage?
    requires forall i :: 0 <= i < |chain| ==> chain[i] in free || chain[i] !in pages
    requires forall i, j :: 0 <= i < j < |chain| ==> chain[i] != chain[j]
    ensures OwnPages(chains[key := chain], k, i, k', j)
  {
    assert OwnPages(chains, k, i, k', j);
    if k in chains { assert CellStored(pages, cells[k], chains[k]); }
    if k' in chains { assert CellStored(pages, cells[k'], chains[k']); }
  }

  lemma StoreDrop(pages: PageMap, cells: map<Key, LeafCell>, chains: Chains, key: Key)
    requires StoreOk(pages, cells, chains)
    ensures StoreOk(pages, cells - {key}, chains - {key})
    ensures Contents(pages, cells - {key}, chains - {key}) == Contents(pages, cells, chains) - {key}
  {
    var cells', chains' := cells - {key}, chains - {key};
    forall k | k in cells'
      ensures CellStored(pages, cells'[k], chains'[k])
    {
      assert CellStored(pages, cells[k], chains[k]);
    }
    forall k, i, k', j
      ensures OwnPages(chains', k, i, k', j)
    {
      assert OwnPages(chains, k, i, k', j);
    }
  }
}
