/**
 The pager: pages of one file, the list of free pages, overflow chains, and the cell
 operations of the node and leaf page managers (lib/pager/pager.cpp,
 lib/pager/node_page/node_page_manager.cpp, lib/pager/leaf_page/leaf_page_manager.cpp).

 A page manager of the program reads a page into memory, changes it and writes it back at
 once; here its operations change the page in the file's page map.
 */
module PagerModel {
  import opened Pages

  /** How a cell operation ends: done, no room on the page (the `false` returns), or one of
      the two exceptions. */
  datatype Outcome = Done | PageFull | DuplicateKey | KeyNotFound

  // ---------- overflow chains ----------

  /** Pages `chain` are linked from `head` in this order, and the last one ends the chain. */
  ghost predicate IsChain(pages: PageMap, head: PageNo, chain: seq<PageNo>) {
    && head == Link(chain, 0)
    && forall i :: 0 <= i < |chain| ==>
         && chain[i] != NULL_PAGE && chain[i] in pages
         && pages[chain[i]].OverflowPage? && pages[chain[i]].nextOverflow == Link(chain, i + 1)
  }

  /** The page at position `i` of a list of pages, or the null page behind its end. */
  function Link(list: seq<PageNo>, i: nat): PageNo {
    if i < |list| then list[i] else NULL_PAGE
  }

  ghost function ChainBytes(pages: PageMap, chain: seq<PageNo>): seq<Byte>
    requires forall i :: 0 <= i < |chain| ==> chain[i] in pages && pages[chain[i]].OverflowPage?
  {
    if chain == [] then [] else pages[chain[0]].bytes + ChainBytes(pages, chain[1..])
  }

  lemma ChainBytesSnoc(pages: PageMap, chain: seq<PageNo>, i: nat)
    requires forall i :: 0 <= i < |chain| ==> chain[i] in pages && pages[chain[i]].OverflowPage?
    requires i < |chain|
    ensures ChainBytes(pages, chain[..i + 1]) == ChainBytes(pages, chain[..i]) + pages[chain[i]].bytes
    decreases |chain|
  {
    if i == 0 {
      assert chain[..1][1..] == [];
    } else {
      assert chain[..i + 1][1..] == chain[1..][..i];
      assert chain[..i][1..] == chain[1..][..i - 1];
      ChainBytesSnoc(pages, chain[1..], i - 1);
    }
  }

  /** A chain none of whose pages changed reads as before. */
  lemma ChainFrame(pages: PageMap, pages': PageMap, head: PageNo, chain: seq<PageNo>)
    requires IsChain(pages, head, chain)
    requires forall i :: 0 <= i < |chain| ==> chain[i] in pages' && pages'[chain[i]] == pages[chain[i]]
    ensures IsChain(pages', head, chain)
    ensures ChainBytes(pages', chain) == ChainBytes(pages, chain)
  {
    BytesFrame(pages, pages', chain);
  }

  lemma BytesFrame(pages: PageMap, pages': PageMap, chain: seq<PageNo>)
    requires forall i :: 0 <= i < |chain| ==> chain[i] in pages && pages[chain[i]].OverflowPage?
    requires forall i :: 0 <= i < |chain| ==> chain[i] in pages' && pages'[chain[i]] == pages[chain[i]]
    ensures ChainBytes(pages', chain) == ChainBytes(pages, chain)
  {
    if chain != [] {
      BytesFrame(pages, pages', chain[1..]);
    }
  }

  ghost function Flatten(chunks: seq<seq<Byte>>): seq<Byte> {
    if chunks == [] then [] else Flatten(chunks[..|chunks| - 1]) + chunks[|chunks| - 1]
  }

  lemma FlattenIsChainBytes(pages: PageMap, chain: seq<PageNo>, chunks: seq<seq<Byte>>)
    requires |chain| == |chunks|
    requires forall i :: 0 <= i < |chain| ==>
               chain[i] in pages && pages[chain[i]].OverflowPage? && pages[chain[i]].bytes == chunks[i]
    ensures ChainBytes(pages, chain) == Flatten(chunks)
  {
    if chain != [] {
      var n := |chain| - 1;
      FlattenIsChainBytes(pages, chain[..n], chunks[..n]);
      ChainBytesSnoc(pages, chain, n);
      assert chain[..n + 1] == chain;
    }
  }

  /** The first `n` pages an allocation takes: free pages first, then new ones. */
  ghost function Taken(free: seq<PageNo>, total: nat, n: nat): (r: seq<PageNo>)
    ensures |r| == n
    ensures forall j {:trigger r[j]} :: 0 <= j < n ==> r[j] == if j < |free| then free[j] else total + 1 + (j - |free|)
  {
    if n == 0 then []
    else Taken(free, total, n - 1) + [if n <= |free| then free[n - 1] else total + n - |free|]
  }

  lemma TakenNext(free: seq<PageNo>, total: nat, n: nat)
    ensures Taken(free, total, n + 1) == Taken(free, total, n)
            + [if n < |free| then free[n] else total + 1 + n - |free|]
  {
  }

  function ChunkCount(n: nat): nat {
    (n + CHUNK_SIZE - 1) / CHUNK_SIZE
  }

  /** Sizes and chunk offsets are 32-bit numbers: the part of a payload that is stored, and
      whether stepping over its chunks stays below 2^32. */
  function StoredSize(payload: seq<Byte>): nat {
    |payload| % UINT32_LIMIT
  }

  function Stored(payload: seq<Byte>): seq<Byte> {
    payload[..StoredSize(payload)]
  }

  predicate OffsetsFit(payload: seq<Byte>) {
    ChunkCount(StoredSize(payload)) * CHUNK_SIZE < UINT32_LIMIT
  }

  function Min(a: nat, b: nat): nat {
    if a < b then a else b
  }

  // ---------- searching sorted cells ----------

  /** The binary search of the page managers: the rank of the key, and whether it is there. */
  method SearchCells<V>(cells: seq<Cell<V>>, key: Key) returns (found: bool, idx: nat)
    requires Sorted(cells)
    ensures idx == Rank(cells, key)
    ensures found <==> idx < |cells| && cells[idx].key == key
    ensures found <==> HasKey(cells, key)
  {
    var lo, hi := 0, |cells|;
    while lo < hi
      invariant 0 <= lo <= hi <= |cells|
      invariant forall i :: 0 <= i < lo ==> cells[i].key < key
      invariant forall i :: hi <= i < |cells| ==> key < cells[i].key
    {
      var mid := lo + (hi - lo) / 2;
      if key < cells[mid].key {
        hi := mid;
      } else if cells[mid].key < key {
        lo := mid + 1;
      } else {
        RankUnique(cells, key, mid);
        return true, mid;
      }
    }
    RankUnique(cells, key, lo);
    return false, lo;
  }

  /** The upper-bound search that picks the child of a node to descend into. */
  method FindChildToTraverse(key: Key, seps: seq<NodeCell>) returns (idx: nat)
    requires Sorted(seps)
    ensures idx <= |seps|
    ensures forall i :: 0 <= i < idx ==> seps[i].key <= key
    ensures forall i :: idx <= i < |seps| ==> key < seps[i].key
  {
    var lo, hi := 0, |seps|;
    while lo < hi
      invariant 0 <= lo <= hi <= |seps|
      invariant forall i :: 0 <= i < lo ==> seps[i].key <= key
      invariant forall i :: hi <= i < |seps| ==> key < seps[i].key
    {
      var mid := lo + (hi - lo) / 2;
      if key < seps[mid].key {
        hi := mid;
      } else {
        lo := mid + 1;
      }
    }
    return lo;
  }

  /** Room left on a page, as kept in its header. */
  function NodeBytesFree(seps: seq<NodeCell>): int {
    PAGE_SIZE - NODE_HEADER_SIZE - |seps| * NODE_CELL_SIZE
  }

  function LeafBytesFree(cells: seq<LeafCell>): int {
    PAGE_SIZE - LEAF_HEADER_SIZE - |cells| * LEAF_CELL_SIZE
  }

  ghost predicate IsFreeList(pages: PageMap, head: PageNo, list: seq<PageNo>) {
    && head == Link(list, 0)
    && (forall i :: 0 <= i < |list| ==>
          list[i] in pages && pages[list[i]] == FreePage(Link(list, i + 1)))
    && (forall i, j :: 0 <= i < j < |list| ==> list[i] != list[j])
  }

  lemma FreeListEmpty(pages: PageMap, list: seq<PageNo>)
    requires IsFreeList(pages, NULL_PAGE, list) && NULL_PAGE !in pages
    ensures list == []
  {
  }

  lemma TakenExist(free: seq<PageNo>, total: nat, n: nat, pages: PageMap, total': nat)
    requires forall i :: 0 <= i < |free| ==> FIRST_PAGE < free[i] <= total
    requires FIRST_PAGE <= total && total' == total + n - Min(n, |free|)
    requires forall p :: p in pages <==> FIRST_PAGE < p <= total'
    ensures forall i :: 0 <= i < n ==> Taken(free, total, n)[i] in pages
  {
  }

  lemma TakenDistinct(pages: PageMap, head: PageNo, free: seq<PageNo>, total: nat, n: nat)
    requires IsFreeList(pages, head, free)
    requires forall p :: p in pages <==> FIRST_PAGE < p <= total
    ensures var taken := Taken(free, total, n);
            && (forall i, j :: 0 <= i < j < n ==> taken[i] != taken[j])
            && (forall i :: 0 <= i < n ==> taken[i] !in free[Min(n, |free|)..])
            && (forall i :: 0 <= i < n ==> taken[i] in free || taken[i] !in pages)
  {
  }

  /** The first `n` chunks are written, each page linked to the next. */
  ghost predicate Chunked(pages: PageMap, pages': PageMap, pageNums: seq<PageNo>, chunks: seq<seq<Byte>>, n: nat)
    requires n <= |pageNums| == |chunks|
  {
    && pages'.Keys == pages.Keys
    && (forall j {:trigger pageNums[j]} :: 0 <= j < n ==>
          pageNums[j] in pages && pages'[pageNums[j]] == OverflowPage(Link(pageNums, j + 1), chunks[j]))
    && (forall p :: p in pages && p !in pageNums ==> pages'[p] == pages[p])
  }

  lemma ChunkedMore(pages: PageMap, pages': PageMap, pageNums: seq<PageNo>, chunks: seq<seq<Byte>>, n: nat)
    requires n < |pageNums| == |chunks| && Chunked(pages, pages', pageNums, chunks, n)
    requires forall i :: 0 <= i < |pageNums| ==> pageNums[i] in pages
    requires forall i, j :: 0 <= i < j < |pageNums| ==> pageNums[i] != pageNums[j]
    ensures Chunked(pages, pages'[pageNums[n] := OverflowPage(Link(pageNums, n + 1), chunks[n])], pageNums, chunks,
            n + 1)
  {
    assert forall j :: 0 <= j < n ==> pageNums[j] != pageNums[n];
  }

  lemma ChunkedAll(pages: PageMap, pages': PageMap, pageNums: seq<PageNo>, chunks: seq<seq<Byte>>)
    requires |pageNums| == |chunks| && Chunked(pages, pages', pageNums, chunks, |chunks|)
    requires NULL_PAGE !in pages
    ensures IsChain(pages', Link(pageNums, 0), pageNums)
    ensures forall i :: 0 <= i < |pageNums| ==> pages'[pageNums[i]].bytes == chunks[i]
  {
    forall i | 0 <= i < |pageNums|
      ensures pageNums[i] != NULL_PAGE && pageNums[i] in pages'
      ensures pages'[pageNums[i]] == OverflowPage(Link(pageNums, i + 1), chunks[i])
    {
    }
  }

  class Pager {
    var pages: PageMap
    var total: nat
    var freeHead: PageNo
    /** The free pages, in list order. */
    ghost var free: seq<PageNo>

    ghost predicate Valid()
      reads this
    {
      && FIRST_PAGE <= total
      && (forall p :: p in pages <==> FIRST_PAGE < p <= total)
      && IsFreeList(pages, freeHead, free)
    }

    constructor ()
      ensures Valid() && pages == map[] && total == 1 && free == []
    {
      pages, total, freeHead, free := map[], 1, NULL_PAGE, [];
    }

    // ---------- pages and the list of free pages ----------

    method InsertFreelist(pgno: PageNo)
      requires Valid() && pgno in pages && pgno !in free
      modifies this
      ensures Valid()
      ensures pages == old(pages)[pgno := FreePage(old(freeHead))]
      ensures free == [pgno] + old(free) && total == old(total)
    {
      assert pgno != FIRST_PAGE;
      pages := pages[pgno := FreePage(freeHead)];
      freeHead := pgno;
      free := [pgno] + free;
    }

    /** Takes the first free page off the list; the null page when the list is empty. */
    method PopFreelist() returns (pgno: PageNo)
      requires Valid()
      modifies `freeHead, `free
      ensures Valid()
      ensures old(free) == [] ==> pgno == NULL_PAGE && free == []
      ensures old(free) != [] ==> pgno == old(free)[0] && free == old(free)[1..]
    {
      pgno := freeHead;
      if pgno == NULL_PAGE {
        FreeListEmpty(pages, free);
        return;
      }
      freeHead := pages[pgno].nextFree;
      free := free[1..];
    }

    method CreateFreePage() returns (pgno: PageNo)
      requires Valid()
      modifies this
      ensures Valid()
      ensures pgno == total == old(total) + 1
      ensures pages == old(pages)[pgno := FreePage(old(freeHead))] && free == [pgno] + old(free)
    {
      pgno := total + 1;
      total := pgno;
      pages := pages[pgno := FreePage(freeHead)];
      freeHead := pgno;
      free := [pgno] + free;
    }

    method CreateNodePage() returns (pgno: PageNo)
      requires Valid()
      modifies `pages, `total
      ensures Valid()
      ensures pgno == total == old(total) + 1
      ensures pages == old(pages)[pgno := NodePage([], NULL_PAGE)]
    {
      pgno := total + 1;
      pages := pages[pgno := NodePage([], NULL_PAGE)];
      total := pgno;
    }

    method CreateLeafPage() returns (pgno: PageNo)
      requires Valid()
      modifies `pages, `total
      ensures Valid()
      ensures pgno == total == old(total) + 1
      ensures pages == old(pages)[pgno := LeafPage([], NULL_PAGE, NULL_PAGE)]
    {
      pgno := total + 1;
      pages := pages[pgno := LeafPage([], NULL_PAGE, NULL_PAGE)];
      total := pgno;
    }

    // ---------- overflow chains ----------

    /** Cuts the payload into chunks of at most a page, stepping a 32-bit offset. */
    method CutChunks(payload: seq<Byte>) returns (chunks: seq<seq<Byte>>)
      requires OffsetsFit(payload)
      ensures |chunks| == ChunkCount(StoredSize(payload))
      ensures forall i :: 0 <= i < |chunks| ==> 0 < |chunks[i]| <= CHUNK_SIZE
      ensures Flatten(chunks) == Stored(payload)
    {
      var size := |payload| % UINT32_LIMIT;
      var offset := 0;
      chunks := [];
      while offset < size
        invariant offset == |chunks| * CHUNK_SIZE
        invariant offset < size + CHUNK_SIZE
        invariant forall i :: 0 <= i < |chunks| ==> 0 < |chunks[i]| <= CHUNK_SIZE
        invariant Flatten(chunks) == payload[..Min(offset, size)]
        decreases size - offset
      {
        var n := Min(CHUNK_SIZE, size - offset);
        ghost var before := chunks;
        chunks := chunks + [payload[offset..offset + n]];
        assert chunks[..|chunks| - 1] == before;
        assert payload[..offset] + payload[offset..offset + n] == payload[..offset + n];
        StepFits(payload, offset, |before|);
        offset := (offset + CHUNK_SIZE) % UINT32_LIMIT;
      }
      ChunkCountUnique(size, |chunks|);
    }

    /** Writes the payload to free pages first and then to new ones; returns the head. */
    method WriteOverflowChain(payload: seq<Byte>) returns (head: PageNo, ghost chain: seq<PageNo>)
      requires Valid() && OffsetsFit(payload)
      modifies this
      ensures Valid()
      ensures chain == Taken(old(free), old(total), ChunkCount(StoredSize(payload)))
      ensures free == old(free)[Min(|chain|, |old(free)|)..]
      ensures total == old(total) + |chain| - Min(|chain|, |old(free)|)
      ensures IsChain(pages, head, chain) && ChainBytes(pages, chain) == Stored(payload)
      ensures forall p :: p in old(pages) && p !in chain ==> pages[p] == old(pages)[p]
      ensures forall i, j :: 0 <= i < j < |chain| ==> chain[i] != chain[j]
    {
      var chunks := CutChunks(payload);
      chain := [];
      if chunks == [] {
        return NULL_PAGE, [];
      }
      var pageNums := TakePages(|chunks|);
      chain := pageNums;
      WriteChunks(chunks, pageNums);
      head := pageNums[0];
      FlattenIsChainBytes(pages, chain, chunks);
    }

    /** Takes the first free page, or appends a blank page to the file. */
    method TakePage() returns (pgno: PageNo)
      requires Valid()
      modifies this
      ensures Valid()
      ensures old(free) != [] ==>
                pgno == old(free)[0] && free == old(free)[1..] && total == old(total) && pages == old(pages)
      ensures old(free) == [] ==>
                && pgno == total == old(total) + 1 && free == []
                && pgno !in old(pages) && pages == old(pages)[pgno := BlankPage]
    {
      if freeHead != NULL_PAGE {
        assert free != [];
        pgno := freeHead;
        freeHead := pages[freeHead].nextFree;
        free := free[1..];
      } else {
        FreeListEmpty(pages, free);
        total := total + 1;
        pgno := total;
        pages := pages[total := BlankPage];
      }
    }

    /** The pages a chain will use: none twice, and none that is still free. */
    method TakePages(n: nat) returns (pageNums: seq<PageNo>)
      requires Valid()
      modifies this
      ensures Valid()
      ensures pageNums == Taken(old(free), old(total), n)
      ensures free == old(free)[Min(n, |old(free)|)..]
      ensures total == old(total) + n - Min(n, |old(free)|)
      ensures forall p :: p in old(pages) ==> p in pages && pages[p] == old(pages)[p]
      ensures forall i :: 0 <= i < n ==> pageNums[i] in pages && pageNums[i] !in free
      ensures forall i, j :: 0 <= i < j < n ==> pageNums[i] != pageNums[j]
    {
      ghost var pages0, head0, free0, total0 := pages, freeHead, free, total;
      pageNums := CollectPages(n);
      TakenDistinct(pages0, head0, free0, total0, n);
      TakenExist(free0, total0, n, pages, total);
    }

    method CollectPages(n: nat) returns (pageNums: seq<PageNo>)
      requires Valid()
      modifies this
      ensures Valid()
      ensures pageNums == Taken(old(free), old(total), n)
      ensures free == old(free)[Min(n, |old(free)|)..]
      ensures total == old(total) + n - Min(n, |old(free)|)
      ensures forall p :: p in old(pages) ==> p in pages && pages[p] == old(pages)[p]
    {
      ghost var free0, total0, k := free, total, 0;
      pageNums := [];
      var i := 0;
      while i < n
        invariant i <= n && Valid() && k == Min(i, |free0|)
        invariant pageNums == Taken(free0, total0, i)
        invariant free == free0[k..]
        invariant total == total0 + i - k
        invariant forall p :: p in old(pages) ==> p in pages && pages[p] == old(pages)[p]
      {
        TakenNext(free0, total0, i);
        assert k < |free0| ==> free0[k..][1..] == free0[k + 1..];
        var pgno := TakePage();
        k := if k < |free0| then k + 1 else k;
        pageNums := pageNums + [pgno];
        i := i + 1;
      }
    }

    method WriteChunks(chunks: seq<seq<Byte>>, pageNums: seq<PageNo>)
      requires Valid() && |chunks| == |pageNums|
      requires forall i :: 0 <= i < |pageNums| ==> pageNums[i] in pages && pageNums[i] !in free
      requires forall i, j :: 0 <= i < j < |pageNums| ==> pageNums[i] != pageNums[j]
      modifies `pages
      ensures Valid()
      ensures IsChain(pages, Link(pageNums, 0), pageNums)
      ensures forall i :: 0 <= i < |pageNums| ==> pages[pageNums[i]].bytes == chunks[i]
      ensures forall p :: p in old(pages) && p !in pageNums ==> pages[p] == old(pages)[p]
    {
      var i := 0;
      while i < |chunks|
        invariant i <= |chunks|
        invariant Chunked(old(pages), pages, pageNums, chunks, i)
      {
        var next := if i + 1 < |chunks| then pageNums[i + 1] else NULL_PAGE;
        ChunkedMore(old(pages), pages, pageNums, chunks, i);
        pages := pages[pageNums[i] := OverflowPage(next, chunks[i])];
        i := i + 1;
      }
      ChunkedAll(old(pages), pages, pageNums, chunks);
    }

    /** Follows the chain of the cell with this key and returns the bytes. */
    method GetPayload(p: PageNo, key: Key, ghost chain: seq<PageNo>) returns (r: Option<seq<Byte>>)
      requires p in pages && pages[p].LeafPage? && Sorted(pages[p].cells)
      requires forall c :: c in pages[p].cells && c.key == key ==>
                 IsChain(pages, c.val.page, chain) && c.val.size == |ChainBytes(pages, chain)|
      ensures r == None <==> !HasKey(pages[p].cells, key)
      ensures r.Some? ==> IsChain(pages, Link(chain, 0), chain) && r.value == ChainBytes(pages, chain)
    {
      var cells := pages[p].cells;
      var i := 0;
      while i < |cells| && cells[i].key != key
        invariant i <= |cells|
        invariant forall j :: 0 <= j < i ==> cells[j].key != key
      {
        i := i + 1;
      }
      if i == |cells| {
        return None;
      }
      assert cells[i] in cells;
      var it := cells[i].val.page;
      var payload := [];
      ghost var n := 0;
      while it != NULL_PAGE
        invariant n <= |chain| && it == Link(chain, n)
        invariant payload == ChainBytes(pages, chain[..n])
        decreases |chain| - n
      {
        ChainBytesSnoc(pages, chain, n);
        payload := payload + pages[it].bytes;
        it := pages[it].nextOverflow;
        n := n + 1;
      }
      assert chain[..n] == chain;
      assert |payload| == cells[i].val.size;
      return Some(payload);
    }

    // ---------- node pages ----------

    ghost predicate HasNode(p: PageNo)
      reads this
    {
      Valid() && p in pages && pages[p].NodePage? && Sorted(pages[p].seps)
    }

    /** Adds a cell without a left child. */
    method InsertNodeCell(p: PageNo, key: Key) returns (r: Outcome)
      requires HasNode(p)
      modifies `pages
      ensures Valid()
      ensures r == Done ==>
                pages == old(pages)[p := old(pages[p]).(seps := InsertCell(old(pages[p]).seps, Cell(key, NULL_PAGE)))]
      ensures r != Done ==> pages == old(pages)
      ensures r == PageFull <==> NODE_CAPACITY <= |old(pages[p]).seps|
      ensures r == DuplicateKey <==> r != PageFull && HasKey(old(pages[p]).seps, key)
      ensures r != KeyNotFound
    {
      var seps := pages[p].seps;
      if NODE_CELL_SIZE > NodeBytesFree(seps) {
        return PageFull;
      }
      var found, lo := SearchCells(seps, key);
      if found {
        return DuplicateKey;
      }
      seps := seps[..lo] + [Cell(key, NULL_PAGE)] + seps[lo..];
      assert NODE_HEADER_SIZE + |seps| * NODE_CELL_SIZE + NodeBytesFree(seps) == PAGE_SIZE;
      pages := pages[p := pages[p].(seps := seps)];
      return Done;
    }

    method SetCellLeftChild(p: PageNo, key: Key, child: PageNo) returns (r: Outcome)
      requires HasNode(p)
      modifies `pages
      ensures Valid()
      ensures r == Done <==> HasKey(old(pages[p]).seps, key)
      ensures r == Done ==> var i := Rank(old(pages[p]).seps, key);
                            i < |old(pages[p]).seps| && pages == old(pages)[p := SetChild(old(pages[p]), i, child)]
      ensures r != Done ==> r == KeyNotFound && pages == old(pages)
    {
      var seps := pages[p].seps;
      var found, i := SearchCells(seps, key);
      if !found {
        return KeyNotFound;
      }
      assert seps[i].key == key;
      pages := pages[p := pages[p].(seps := seps[i := Cell(key, child)])];
      return Done;
    }

    method SetNodeRightChild(p: PageNo, child: PageNo)
      requires Valid() && p in pages && pages[p].NodePage?
      modifies `pages
      ensures Valid()
      ensures pages == old(pages)[p := old(pages[p]).(right := child)]
    {
      pages := pages[p := pages[p].(right := child)];
    }

    method DeleteNodeCell(p: PageNo, key: Key) returns (r: Outcome)
      requires HasNode(p)
      modifies `pages
      ensures Valid()
      ensures r == Done <==> HasKey(old(pages[p]).seps, key)
      ensures r == Done ==> var i := Rank(old(pages[p]).seps, key);
                            i < |old(pages[p]).seps|
                              && pages == old(pages)[p := old(pages[p]).(seps := RemoveAt(old(pages[p]).seps, i))]
      ensures r != Done ==> r == KeyNotFound && pages == old(pages)
    {
      var seps := pages[p].seps;
      var found, i := SearchCells(seps, key);
      if !found {
        return KeyNotFound;
      }
      pages := pages[p := pages[p].(seps := seps[..i] + seps[i + 1..])];
      return Done;
    }

    method UpdateCellKey(p: PageNo, oldKey: Key, newKey: Key) returns (r: Outcome)
      requires HasNode(p)
      modifies `pages
      ensures Valid()
      ensures r == Done <==> HasKey(old(pages[p]).seps, oldKey)
      ensures r == Done ==> var i := Rank(old(pages[p]).seps, oldKey); var g := old(pages[p]);
                            i < |g.seps| && pages == old(pages)[p := g.(seps := g.seps[i := g.seps[i].(key := newKey)])]
      ensures r != Done ==> r == KeyNotFound && pages == old(pages)
    {
      var seps := pages[p].seps;
      var found, i := SearchCells(seps, oldKey);
      if !found {
        return KeyNotFound;
      }
      pages := pages[p := pages[p].(seps := seps[i := seps[i].(key := newKey)])];
      return Done;
    }

    // ---------- leaf pages ----------

    ghost predicate HasLeaf(p: PageNo)
      reads this
    {
      Valid() && p in pages && pages[p].LeafPage? && Sorted(pages[p].cells)
    }

    /** Adds a cell whose payload is already stored. */
    method WriteCell(p: PageNo, cell: LeafCell) returns (r: Outcome)
      requires HasLeaf(p)
      modifies `pages
      ensures Valid()
      ensures r == Done ==> pages == old(pages)[p := old(pages[p]).(cells := InsertCell(old(pages[p]).cells, cell))]
      ensures r != Done ==> pages == old(pages)
      ensures r == PageFull <==> LEAF_CAPACITY <= |old(pages[p]).cells|
      ensures r == DuplicateKey <==> r != PageFull && HasKey(old(pages[p]).cells, cell.key)
      ensures r != KeyNotFound
    {
      var cells := pages[p].cells;
      if LEAF_CELL_SIZE > LeafBytesFree(cells) {
        return PageFull;
      }
      var found, lo := SearchCells(cells, cell.key);
      if found {
        return DuplicateKey;
      }
      cells := cells[..lo] + [cell] + cells[lo..];
      assert LEAF_HEADER_SIZE + |cells| * LEAF_CELL_SIZE + LeafBytesFree(cells) == PAGE_SIZE;
      pages := pages[p := pages[p].(cells := cells)];
      return Done;
    }

    /** Stores the payload in a new overflow chain and adds its cell. */
    method InsertLeafCell(p: PageNo, key: Key, payload: seq<Byte>) returns (r: Outcome, ghost chain: seq<PageNo>)
      requires HasLeaf(p) && OffsetsFit(payload)
      modifies this
      ensures Valid()
      ensures r != Done ==> pages == old(pages) && free == old(free) && total == old(total)
      ensures r == PageFull <==> LEAF_CAPACITY <= |old(pages[p]).cells|
      ensures r == DuplicateKey <==> r != PageFull && HasKey(old(pages[p]).cells, key)
      ensures r != KeyNotFound
      ensures r == Done ==>
                && p in pages
                && pages[p]
                   == old(pages[p]).(cells := InsertCell(old(pages[p]).cells, Cell(key, RecordOf(payload, chain))))
                && NewChain(old(pages), old(free), pages, chain, payload, p)
    {
      chain := [];
      var cells := pages[p].cells;
      if LEAF_CELL_SIZE > LeafBytesFree(cells) {
        return PageFull, chain;
      }
      var found, lo := SearchCells(cells, key);
      if found {
        return DuplicateKey, chain;
      }
      var head;
      head, chain := StorePayload(payload);
      ghost var stored := pages;
      var cell := Cell(key, Record(|payload| % UINT32_LIMIT, head));
      cells := cells[..lo] + [cell] + cells[lo..];
      assert LEAF_HEADER_SIZE + |cells| * LEAF_CELL_SIZE + LeafBytesFree(cells) == PAGE_SIZE;
      pages := pages[p := pages[p].(cells := cells)];
      ChainFrame(stored, pages, head, chain);
      return Done, chain;
    }

    /** `create_page` for overflow pages. */
    method StorePayload(payload: seq<Byte>) returns (head: PageNo, ghost chain: seq<PageNo>)
      requires Valid() && OffsetsFit(payload)
      modifies this
      ensures Valid()
      ensures head == Link(chain, 0)
      ensures NewChain(old(pages), old(free), pages, chain, payload, NULL_PAGE)
      ensures forall p :: p in old(pages) && !old(pages)[p].FreePage? ==> p !in chain
    {
      head, chain := WriteOverflowChain(payload);
      TakenDistinct(old(pages), old(freeHead), old(free), old(total), |chain|);
    }

    method DeleteCell(p: PageNo, key: Key) returns (r: Outcome)
      requires HasLeaf(p)
      modifies `pages
      ensures Valid()
      ensures r == Done <==> old(pages[p]).cells == [] || HasKey(old(pages[p]).cells, key)
      ensures r == Done && old(pages[p]).cells != [] ==>
                var i := Rank(old(pages[p]).cells, key);
                i < |old(pages[p]).cells|
                  && pages == old(pages)[p := old(pages[p]).(cells := RemoveAt(old(pages[p]).cells, i))]
      ensures r == Done && old(pages[p]).cells == [] ==> pages == old(pages)
      ensures r != Done ==> r == KeyNotFound && pages == old(pages)
    {
      var cells := pages[p].cells;
      if |cells| == 0 {
        return Done;
      }
      var found, i := SearchCells(cells, key);
      if i >= |cells| || cells[i].key != key {
        return KeyNotFound;
      }
      pages := pages[p := pages[p].(cells := cells[..i] + cells[i + 1..])];
      return Done;
    }

    method SetPrevPage(p: PageNo, q: PageNo)
      requires Valid() && p in pages && pages[p].LeafPage?
      modifies `pages
      ensures Valid() && pages == old(pages)[p := old(pages[p]).(prev := q)]
    {
      pages := pages[p := pages[p].(prev := q)];
    }

    method SetNextPage(p: PageNo, q: PageNo)
      requires Valid() && p in pages && pages[p].LeafPage?
      modifies `pages
      ensures Valid() && pages == old(pages)[p := old(pages[p]).(next := q)]
    {
      pages := pages[p := pages[p].(next := q)];
    }
  }

  function RecordOf(payload: seq<Byte>, chain: seq<PageNo>): Record {
    Record(StoredSize(payload), Link(chain, 0))
  }

  /** A chain written since `pages`: it holds the payload on pages that were free or did not
      exist, and no other page but `p` changed. */
  ghost predicate NewChain(pages: PageMap, free: seq<PageNo>, pages': PageMap, chain: seq<PageNo>, payload: seq<Byte>,
                           p: PageNo) {
    && IsChain(pages', Link(chain, 0), chain)
    && ChainBytes(pages', chain) == Stored(payload)
    && (forall i :: 0 <= i < |chain| ==> chain[i] in free || chain[i] !in pages)
    && (forall i, j :: 0 <= i < j < |chain| ==> chain[i] != chain[j])
    && (forall q :: q in pages ==> q in pages')
    && (forall q :: q in pages && q !in chain && q != p ==> pages'[q] == pages[q])
  }

  lemma StepFits(payload: seq<Byte>, offset: nat, n: nat)
    requires OffsetsFit(payload) && offset == n * CHUNK_SIZE && offset < StoredSize(payload)
    ensures offset + CHUNK_SIZE < UINT32_LIMIT
  {
    assert n + 1 <= ChunkCount(StoredSize(payload));
  }

  lemma ChunkCountUnique(size: nat, n: nat)
    requires size <= n * CHUNK_SIZE < size + CHUNK_SIZE
    ensures n == ChunkCount(size)
  {
  }
}
