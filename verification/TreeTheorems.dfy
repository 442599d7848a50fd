/**
 What the page-by-page definition of TreeShape amounts to: the textbook recursive
 definition of a B+tree, an in-order walk that lists every cell once in key order, and a
 doubly linked list through exactly the leaves.
 */
module TreeTheorems {
  import opened Pages
  import opened PagerModel
  import opened TreeShape
  import opened TreeSteps
  import opened TreeStore

  // ---------- the textbook definition ----------

  ghost predicate WithinBounds(n: nat, min: nat, max: nat) {
    min <= n <= max
  }

  /** A B+tree of height `h` below page `p`, for the keys of [lo, hi): every leaf is at the same
      depth, keys are in order, and every page but the root is within its occupancy bounds. */
  ghost predicate IsSubtree(pages: PageMap, cfg: Config, p: PageNo, h: nat, lo: nat, hi: nat, isRoot: bool)
    decreases h
  {
    && p in pages
    && if h == 0 then
         && pages[p].LeafPage?
         && Sorted(pages[p].cells)
         && (forall i :: 0 <= i < |pages[p].cells| ==> lo <= pages[p].cells[i].key < hi)
         && WithinBounds(|pages[p].cells|, if isRoot then 0 else cfg.leafMin, cfg.leafMax)
       else
         && pages[p].NodePage?
         && SepsOk(pages[p].seps, lo, hi)
         && WithinBounds(|pages[p].seps|, if isRoot then 1 else cfg.nodeMin, cfg.nodeMax)
         && forall i :: 0 <= i <= |pages[p].seps| ==>
              IsSubtree(pages, cfg, Child(pages[p], i), h - 1, SepLo(pages[p], lo, i), SepHi(pages[p], hi, i), false)
  }

  ghost predicate IsBPlusTree(pages: PageMap, cfg: Config, root: PageNo, h: nat) {
    IsSubtree(pages, cfg, root, h, 0, KEY_LIMIT, true)
  }

  lemma {:induction false} SubtreeOf(t: Tree, cfg: Config, p: PageNo)
    requires WellFormed(t, cfg) && p in t.span
    ensures IsSubtree(t.pages, cfg, p, t.span[p].level, t.span[p].lo, t.span[p].hi, p == t.root)
    decreases t.span[p].level
  {
    assert PageOk(t, p) && Occupied(t, cfg, p);
    if t.span[p].level > 0 {
      var g := t.pages[p];
      forall i | 0 <= i <= |g.seps|
        ensures IsSubtree(t.pages, cfg, Child(g, i), t.span[p].level - 1, SepLo(g, t.span[p].lo, i),
                SepHi(g, t.span[p].hi, i), false)
      {
        assert ChildOk(t, p, i);
        SubtreeOf(t, cfg, Child(g, i));
      }
    }
  }

  lemma WellFormedIsBPlusTree(t: Tree, cfg: Config)
    requires WellFormed(t, cfg)
    ensures IsBPlusTree(t.pages, cfg, t.root, t.span[t.root].level)
  {
    SubtreeOf(t, cfg, t.root);
  }

  // ---------- the leaves from left to right ----------

  /** A tree without what its leaves hold and how they are linked. */
  ghost predicate BonesOk(t: Tree, p: PageNo)
    requires p in t.span && t.root in t.span
  {
    && FIRST_PAGE < p && t.span[p].lo < t.span[p].hi <= KEY_LIMIT
    && t.span[p].level <= t.span[t.root].level
    && (t.span[p].level > 0 ==> NodeOk(t, p))
  }

  ghost predicate Skeleton(t: Tree) {
    && t.root in t.span && Typed(t)
    && t.span[t.root].lo == 0 && t.span[t.root].hi == KEY_LIMIT
    && (forall p {:trigger BonesOk(t, p)} :: p in t.span ==> BonesOk(t, p))
    && AllApart(t.span)
  }

  lemma ShapeHasSkeleton(t: Tree)
    requires Shape(t)
    ensures Skeleton(t)
  {
    forall p | p in t.span
      ensures BonesOk(t, p)
    {
      assert PageOk(t, p);
    }
  }

  ghost function Leaves(pages: PageMap, p: PageNo, h: nat): seq<PageNo>
    decreases h, 1, 0
  {
    if h == 0 then [p]
    else if p in pages && pages[p].NodePage? then LeavesFrom(pages, p, h, 0)
    else []
  }

  /** The leaves below child `i` and the children behind it. */
  ghost function LeavesFrom(pages: PageMap, p: PageNo, h: nat, i: nat): seq<PageNo>
    requires h > 0 && p in pages && pages[p].NodePage? && i <= |pages[p].seps|
    decreases h, 0, |pages[p].seps| - i
  {
    Leaves(pages, Child(pages[p], i), h - 1)
    + if i < |pages[p].seps| then LeavesFrom(pages, p, h, i + 1) else []
  }

  /** Leaves whose ranges lie end to end from `lo` to `hi`. */
  ghost predicate Tiles(t: Tree, leaves: seq<PageNo>, lo: nat, hi: nat) {
    && |leaves| > 0
    && (forall i :: 0 <= i < |leaves| ==> IsLeaf(t, leaves[i]))
    && t.span[leaves[0]].lo == lo
    && t.span[leaves[|leaves| - 1]].hi == hi
    && forall i :: 0 <= i < |leaves| - 1 ==> t.span[leaves[i]].hi == t.span[leaves[i + 1]].lo
  }

  lemma TilesJoin(t: Tree, a: seq<PageNo>, b: seq<PageNo>, lo: nat, mid: nat, hi: nat)
    requires Tiles(t, a, lo, mid) && Tiles(t, b, mid, hi)
    ensures Tiles(t, a + b, lo, hi)
  {
    var c := a + b;
    forall i | 0 <= i < |c| - 1
      ensures t.span[c[i]].hi == t.span[c[i + 1]].lo
    {
      if i == |a| - 1 { assert c[i + 1] == b[0]; }
      if i >= |a| { assert c[i] == b[i - |a|] && c[i + 1] == b[i - |a| + 1]; }
    }
  }

  lemma {:induction false} LeavesTile(t: Tree, p: PageNo)
    requires Skeleton(t) && p in t.span
    ensures Tiles(t, Leaves(t.pages, p, t.span[p].level), t.span[p].lo, t.span[p].hi)
    decreases t.span[p].level, 1, 0
  {
    assert BonesOk(t, p);
    if t.span[p].level > 0 {
      LeavesFromTile(t, p, 0);
    }
  }

  lemma {:induction false} LeavesFromTile(t: Tree, p: PageNo, i: nat)
    requires Skeleton(t) && IsNode(t, p) && i <= |t.pages[p].seps|
    ensures Tiles(t, LeavesFrom(t.pages, p, t.span[p].level, i), SepLo(t.pages[p], t.span[p].lo, i), t.span[p].hi)
    decreases t.span[p].level, 0, |t.pages[p].seps| - i
  {
    assert BonesOk(t, p);
    assert ChildOk(t, p, i);
    var g := t.pages[p];
    LeavesTile(t, Child(g, i));
    if i < |g.seps| {
      LeavesFromTile(t, p, i + 1);
      TilesJoin(t, Leaves(t.pages, Child(g, i), t.span[p].level - 1), LeavesFrom(t.pages, p, t.span[p].level, i + 1),
                SepLo(g, t.span[p].lo, i), SepLo(g, t.span[p].lo, i + 1), t.span[p].hi);
    }
  }

  lemma {:induction false} TilesIncrease(t: Tree, leaves: seq<PageNo>, lo: nat, hi: nat, i: nat, j: nat)
    requires Skeleton(t) && Tiles(t, leaves, lo, hi) && i < j < |leaves|
    ensures t.span[leaves[i]].hi <= t.span[leaves[j]].lo
    decreases j
  {
    if i < j - 1 {
      TilesIncrease(t, leaves, lo, hi, i, j - 1);
      assert BonesOk(t, leaves[j - 1]);
    }
  }

  /** Ranges end to end miss no key between them. */
  lemma {:induction false} TilesCover(t: Tree, leaves: seq<PageNo>, lo: nat, hi: nat, k: nat) returns (i: nat)
    requires Skeleton(t) && Tiles(t, leaves, lo, hi) && lo <= k < hi
    ensures i < |leaves| && t.span[leaves[i]].lo <= k < t.span[leaves[i]].hi
    decreases |leaves|
  {
    if k < t.span[leaves[0]].hi {
      return 0;
    }
    var rest := leaves[1..];
    i := TilesCover(t, rest, t.span[leaves[0]].hi, hi, k);
    assert rest[i] == leaves[i + 1];
    i := i + 1;
  }

  /** Each leaf of the list names the one in front of it and the one behind it. */
  ghost predicate Linked(pages: PageMap, leaves: seq<PageNo>) {
    && (forall i :: 0 <= i < |leaves| ==> leaves[i] in pages && pages[leaves[i]].LeafPage?)
    && (forall i :: 0 <= i < |leaves| ==> pages[leaves[i]].next == Link(leaves, i + 1))
    && (forall i :: 0 <= i < |leaves| ==> pages[leaves[i]].prev == if i == 0 then NULL_PAGE else leaves[i - 1])
  }

  ghost predicate Distinct<T>(s: seq<T>) {
    forall i, j :: 0 <= i < j < |s| ==> s[i] != s[j]
  }

  /** Following `next` from the leftmost leaf visits the leaves of the tree from left to right,
      each of them once, and ends; `prev` leads back the same way. */
  lemma LeafListIsInOrder(t: Tree)
    requires Shape(t)
    ensures var leaves := Leaves(t.pages, t.root, t.span[t.root].level);
            && Linked(t.pages, leaves) && Distinct(leaves)
            && (forall p :: p in leaves <==> IsLeaf(t, p))
  {
    ShapeHasSkeleton(t);
    LeavesTile(t, t.root);
    TiledListIsInOrder(t, Leaves(t.pages, t.root, t.span[t.root].level));
  }

  lemma TiledListIsInOrder(t: Tree, leaves: seq<PageNo>)
    requires Shape(t) && Tiles(t, leaves, 0, KEY_LIMIT)
    ensures Linked(t.pages, leaves) && Distinct(leaves)
    ensures forall p :: p in leaves <==> IsLeaf(t, p)
  {
    ShapeHasSkeleton(t);
    forall i | 0 <= i < |leaves|
      ensures t.pages[leaves[i]].next == Link(leaves, i + 1)
      ensures t.pages[leaves[i]].prev == if i == 0 then NULL_PAGE else leaves[i - 1]
    {
      ListedNeighbours(t, leaves, i);
    }
    forall i, j | 0 <= i < j < |leaves|
      ensures leaves[i] != leaves[j]
    {
      TilesIncrease(t, leaves, 0, KEY_LIMIT, i, j);
      assert PageOk(t, leaves[i]);
    }
    forall p | IsLeaf(t, p)
      ensures p in leaves
    {
      LeafIsListed(t, leaves, p);
    }
  }

  lemma LeafIsListed(t: Tree, leaves: seq<PageNo>, p: PageNo)
    requires Skeleton(t) && Tiles(t, leaves, 0, KEY_LIMIT) && IsLeaf(t, p)
    ensures p in leaves
  {
    assert BonesOk(t, p);
    var i := TilesCover(t, leaves, 0, KEY_LIMIT, t.span[p].lo);
    assert Apart(t.span, p, leaves[i]);
  }

  lemma ListedNeighbours(t: Tree, leaves: seq<PageNo>, i: nat)
    requires Shape(t) && Tiles(t, leaves, 0, KEY_LIMIT) && i < |leaves|
    ensures t.pages[leaves[i]].next == Link(leaves, i + 1)
    ensures t.pages[leaves[i]].prev == if i == 0 then NULL_PAGE else leaves[i - 1]
  {
    var p := leaves[i];
    assert PageOk(t, p);
    var n, b := t.pages[p].next, t.pages[p].prev;
    if i + 1 < |leaves| {
      assert PageOk(t, leaves[i + 1]);
      assert PageOk(t, n);
      assert Apart(t.span, n, leaves[i + 1]);
    }
    if i > 0 {
      assert PageOk(t, leaves[i - 1]);
      assert PageOk(t, b);
      assert Apart(t.span, b, leaves[i - 1]);
    }
  }

  // ---------- the cells from left to right ----------

  /** The cells of the leaves, one leaf after the other. */
  ghost function Listed(pages: PageMap, leaves: seq<PageNo>): seq<LeafCell> {
    if leaves == [] then []
    else (if leaves[0] in pages && pages[leaves[0]].LeafPage? then pages[leaves[0]].cells else [])
         + Listed(pages, leaves[1..])
  }

  lemma {:induction false} TilesList(t: Tree, leaves: seq<PageNo>, lo: nat, hi: nat)
    requires Shape(t) && Tiles(t, leaves, lo, hi)
    ensures CellsOk(Listed(t.pages, leaves), t.cells, lo, hi)
    decreases |leaves|
  {
    var p, rest := leaves[0], leaves[1..];
    assert PageOk(t, p);
    var mid := t.span[p].hi;
    assert Listed(t.pages, leaves) == t.pages[p].cells + Listed(t.pages, rest);
    if rest == [] {
      assert Listed(t.pages, rest) == [];
      assert Listed(t.pages, leaves) == t.pages[p].cells;
    } else {
      assert rest[0] == leaves[1];
      assert Tiles(t, rest, mid, hi);
      TilesList(t, rest, mid, hi);
      assert PageOk(t, rest[0]);
      ShapeHasSkeleton(t);
      TilesNonempty(t, rest, mid, hi);
      JoinCellsOk(t.pages[p].cells, Listed(t.pages, rest), t.cells, lo, mid, hi);
    }
  }

  lemma TilesNonempty(t: Tree, leaves: seq<PageNo>, lo: nat, hi: nat)
    requires Skeleton(t) && Tiles(t, leaves, lo, hi)
    ensures lo < hi
  {
    assert BonesOk(t, leaves[0]) && BonesOk(t, leaves[|leaves| - 1]);
    if |leaves| > 1 { TilesIncrease(t, leaves, lo, hi, 0, |leaves| - 1); }
  }

  /** The in-order walk lists exactly the cells of the tree, in strictly ascending key order. */
  lemma WalkListsTheCells(t: Tree)
    requires Shape(t)
    ensures var walk := Listed(t.pages, Leaves(t.pages, t.root, t.span[t.root].level));
            && Sorted(walk)
            && (forall c :: c in walk <==> c.key in t.cells && t.cells[c.key] == c)
            && |walk| == |t.cells|
  {
    var walk := Listed(t.pages, Leaves(t.pages, t.root, t.span[t.root].level));
    ShapeHasSkeleton(t);
    LeavesTile(t, t.root);
    TilesList(t, Leaves(t.pages, t.root, t.span[t.root].level), 0, KEY_LIMIT);
    SortedCount(walk, t.cells);
  }

  lemma {:induction false} SortedCount(walk: seq<LeafCell>, all: map<Key, LeafCell>)
    requires Sorted(walk)
    requires forall i :: 0 <= i < |walk| ==> walk[i].key in all && all[walk[i].key] == walk[i]
    requires forall k :: k in all ==> all[k].key == k && all[k] in walk
    ensures |walk| == |all|
    decreases |walk|
  {
    if walk == [] {
      assert all == map[];
    } else {
      var n := |walk| - 1;
      var k := walk[n].key;
      var rest := all - {k};
      assert all == rest[k := walk[n]];
      SortedCount(walk[..n], rest);
    }
  }

  // ---------- every page of the tree hangs from the root ----------

  /** Page `p` is `d` child links below `from`. */
  ghost predicate Below(pages: PageMap, from: PageNo, p: PageNo, d: nat)
    decreases d
  {
    if d == 0 then p == from
    else
      && from in pages && pages[from].NodePage?
      && exists i :: 0 <= i <= |pages[from].seps| && Below(pages, Child(pages[from], i), p, d - 1)
  }

  lemma {:induction false} DescendTo(t: Tree, from: PageNo, p: PageNo)
    requires Shape(t) && from in t.span && p in t.span
    requires t.span[p].level <= t.span[from].level
    requires t.span[from].lo <= t.span[p].lo < t.span[from].hi
    ensures Below(t.pages, from, p, t.span[from].level - t.span[p].level)
    decreases t.span[from].level
  {
    assert PageOk(t, from) && PageOk(t, p);
    var d := t.span[from].level - t.span[p].level;
    if d == 0 {
      assert Apart(t.span, from, p);
    } else {
      var g, s := t.pages[from], t.span[from];
      var i := SlotOf(g, s.lo, s.hi, t.span[p].lo);
      assert ChildOk(t, from, i);
      DescendTo(t, Child(g, i), p);
      assert Below(t.pages, Child(g, i), p, d - 1);
    }
  }

  lemma {:induction false} SlotOf(g: Page, lo: nat, hi: nat, k: nat) returns (i: nat)
    requires g.NodePage? && SepsOk(g.seps, lo, hi) && lo <= k < hi
    ensures i <= |g.seps| && SepLo(g, lo, i) <= k < SepHi(g, hi, i)
  {
    i := 0;
    while i < |g.seps| && g.seps[i].key <= k
      invariant i <= |g.seps| && SepLo(g, lo, i) <= k
    {
      i := i + 1;
    }
  }

  /** The pages of the tree are exactly those that child links lead to from the root, and the
      leaves are those at the depth of the tree. */
  lemma PagesAreReachable(t: Tree, p: PageNo)
    requires Shape(t)
    ensures p in t.span <==> exists d: nat :: Below(t.pages, t.root, p, d)
    ensures IsLeaf(t, p) <==> Below(t.pages, t.root, p, t.span[t.root].level)
  {
    if p in t.span {
      assert PageOk(t, p);
      DescendTo(t, t.root, p);
      var d: nat := t.span[t.root].level - t.span[p].level;
      assert Below(t.pages, t.root, p, d);
    }
    if d: nat :| Below(t.pages, t.root, p, d) {
      BelowInTree(t, t.root, p, d);
    }
    if Below(t.pages, t.root, p, t.span[t.root].level) {
      BelowInTree(t, t.root, p, t.span[t.root].level);
    }
  }

  lemma {:induction false} BelowInTree(t: Tree, from: PageNo, p: PageNo, d: nat)
    requires Shape(t) && from in t.span && Below(t.pages, from, p, d)
    ensures p in t.span && t.span[p].level + d == t.span[from].level
    decreases d
  {
    assert PageOk(t, from);
    if d > 0 {
      var i :| 0 <= i <= |t.pages[from].seps| && Below(t.pages, Child(t.pages[from], i), p, d - 1);
      assert ChildOk(t, from, i);
      BelowInTree(t, Child(t.pages[from], i), p, d - 1);
    }
  }

  // ---------- one use for each page ----------

  /** A place in the file that names a page: the tree's root, a child slot, a position in a key's
      overflow chain, or a position in the list of free pages. */
  datatype Ref = RootRef | ChildRef(page: PageNo, slot: nat) | ChainRef(key: Key, i: nat) | FreeRef(j: nat)

  ghost predicate Names(t: Tree, chains: Chains, free: seq<PageNo>, r: Ref, p: PageNo) {
    match r
    case RootRef => p == t.root
    case ChildRef(q, i) => IsNode(t, q) && i <= |t.pages[q].seps| && Child(t.pages[q], i) == p
    case ChainRef(k, i) => k in chains && i < |chains[k]| && chains[k][i] == p
    case FreeRef(j) => j < |free| && free[j] == p
  }

  /** Tree pages, the chains of the keys and the free pages are disjoint, and none of them is
      linked from two places. */
  lemma NamedOnce(t: Tree, chains: Chains, free: seq<PageNo>, head: PageNo, r: Ref, r': Ref, p: PageNo)
    requires Shape(t) && StoreOk(t.pages, t.cells, chains) && IsFreeList(t.pages, head, free)
    requires Names(t, chains, free, r, p) && Names(t, chains, free, r', p)
    ensures r == r'
  {
    NamedPage(t, chains, free, head, r, p);
    NamedPage(t, chains, free, head, r', p);
    if r.ChildRef? && r'.ChildRef? {
      ChildUnique(t, r.page, r.slot, r'.page, r'.slot);
    } else if r.ChainRef? && r'.ChainRef? {
      assert OwnPages(chains, r.key, r.i, r'.key, r'.i);
    }
  }

  /** The kind of a page tells what names it. */
  lemma NamedPage(t: Tree, chains: Chains, free: seq<PageNo>, head: PageNo, r: Ref, p: PageNo)
    requires Shape(t) && StoreOk(t.pages, t.cells, chains) && IsFreeList(t.pages, head, free)
    requires Names(t, chains, free, r, p)
    ensures p in t.pages
    ensures (r.RootRef? || r.ChildRef?) <==> t.pages[p].LeafPage? || t.pages[p].NodePage?
    ensures r.ChainRef? <==> t.pages[p].OverflowPage?
    ensures r.FreeRef? <==> t.pages[p].FreePage?
    ensures r.ChildRef? ==> p != t.root
  {
    match r
    case RootRef => assert PageOk(t, p);
    case ChildRef(q, i) =>
      assert PageOk(t, q);
      assert ChildOk(t, q, i);
      assert PageOk(t, p);
    case ChainRef(k, i) => assert CellStored(t.pages, t.cells[k], chains[k]);
    case FreeRef(_) =>
  }
}
