/**
 The B+tree cursor: search and stepping, insertion with cascades of splits, removal with
 borrowing, merging and rebalancing (lib/btree/btree.cpp, lib/btree/utils.cpp).
 */
module BTreeModel {
  import opened Pages
  import opened PagerModel
  import opened TreeShape
  import opened TreeSteps
  import opened TreePaths
  import opened TreeSplits
  import opened TreeAside
  import opened TreeMerges
  import opened TreeScan
  import opened TreeStore
  import opened SplitCells

  datatype InsertResult = Inserted | DuplicateKeyError

  /** A removal can end in a failed assertion; see `Remove`. */
  datatype RemoveResult = Removed | AssertFailed

  datatype BorrowResult = Borrowed | NotBorrowed | BorrowAssertFailed

  class BTreeCursor {
    const pager: Pager
    const cfg: Config
    /** Whether the program's assertions are compiled in. */
    const asserts: bool
    var cursor: Stack
    var root: PageNo
    ghost var span: map<PageNo, Span>
    ghost var cells: map<Key, LeafCell>
    ghost var chains: Chains

    ghost function T(): Tree
      reads this`span, this`cells, this`root, pager`pages
    {
      Tree(pager.pages, span, root, cells)
    }

    /** The pages below the root form a tree in key order. */
    ghost predicate Ready()
      reads this`span, this`cells, this`root, pager
    {
      pager.Valid() && cfg.Sound() && Shape(T())
    }

    ghost predicate Valid()
      reads this, pager
    {
      Ready() && WellFormed(T(), cfg) && StoreOk(pager.pages, cells, chains)
    }

    ghost function Map(): map<Key, seq<Byte>>
      reads this, pager
      requires Valid()
    {
      Contents(pager.pages, cells, chains)
    }

    /** A cursor on a tree that is in the file; the ghost arguments say what is in it. */
    constructor (pager: Pager, root: PageNo, cfg: Config, asserts: bool,
                 ghost span: map<PageNo, Span>, ghost cells: map<Key, LeafCell>, ghost chains: Chains)
      requires pager.Valid() && cfg.Sound()
      requires WellFormed(Tree(pager.pages, span, root, cells), cfg)
      requires StoreOk(pager.pages, cells, chains)
      ensures Valid() && this.pager == pager && this.cfg == cfg && this.asserts == asserts && this.root == root
              && cursor == []
      ensures T() == Tree(pager.pages, span, root, cells) && this.chains == chains
    {
      assert PageOk(Tree(pager.pages, span, root, cells), root);
      assert pager.pages[root].NodePage? || pager.pages[root].LeafPage?;
      this.pager, this.cfg, this.asserts, this.root, this.cursor := pager, cfg, asserts, root, [];
      this.span, this.cells, this.chains := span, cells, chains;
    }

    // ---------- search ----------

    /** Moves to the leaf that owns the key's range, at the key's place in it. */
    method MoveToKey(key: Key) returns (found: bool)
      requires Ready() && key < KEY_LIMIT
      modifies `cursor
      ensures IsLeafPath(T(), cursor)
      ensures found <==> key in cells
      ensures var (p, i) := Top(cursor);
              && span[p].lo <= key < span[p].hi
              && i == Rank(pager.pages[p].cells, key)
              && (found <==> i < |pager.pages[p].cells| && pager.pages[p].cells[i].key == key)
    {
      ghost var t := T();
      var candidate: Stack := [];
      var p := root;
      assert PageOk(t, p);
      while pager.pages[p].NodePage?
        invariant p in t.span && (IsLeaf(t, p) || IsNode(t, p))
        invariant IsPath(t, candidate + [(p, 0)])
        invariant span[p].lo <= key < span[p].hi
        decreases span[p].level
      {
        assert PageOk(t, p);
        var g := pager.pages[p];
        var i := FindChildToTraverse(key, g.seps);
        assert Pop(candidate + [(p, 0)]) == candidate;
        Choose(t, candidate + [(p, 0)], i);
        candidate := candidate + [(p, i)];
        p := Child(g, i);
      }
      assert PageOk(t, p);
      var found', i := SearchCells(pager.pages[p].cells, key);
      PathMove(t, candidate + [(p, 0)], i);
      assert Pop(candidate + [(p, 0)]) == candidate;
      cursor := candidate + [(p, i)];
      found := found';
      LeafHas(pager.pages[p].cells, cells, span[p].lo, span[p].hi, key);
    }

    // ---------- stepping through the keys ----------

    method IsEmpty() returns (r: bool)
      requires Valid()
      ensures r <==> Map() == map[]
    {
      assert PageOk(T(), root);
      if pager.pages[root].NodePage? {
        NodeRootHasCells(T(), cfg);
        return false;
      }
      LeafHasCells(T(), cfg, root);
      return |pager.pages[root].cells| == 0;
    }

    /** The key under the cursor; nothing behind the last cell of a leaf, where the program throws. */
    method CurrentKey() returns (r: Option<Key>)
      requires Valid() && IsLeafPath(T(), cursor)
      ensures r == if OnCell(T(), cursor) then Some(KeyAt(T(), cursor)) else None
      ensures r.Some? ==> r.value in Map()
    {
      var (p, i) := Top(cursor);
      if i < |pager.pages[p].cells| {
        KeyIsIn(T(), cursor);
        return Some(pager.pages[p].cells[i].key);
      }
      return None;
    }

    method CurrentValue() returns (value: seq<Byte>)
      requires Valid() && OnCell(T(), cursor)
      ensures KeyAt(T(), cursor) in Map() && value == Map()[KeyAt(T(), cursor)]
    {
      var (p, i) := Top(cursor);
      var key := pager.pages[p].cells[i].key;
      KeyIsIn(T(), cursor);
      assert PageOk(T(), p) && CellStored(pager.pages, cells[key], chains[key]);
      var payload := pager.GetPayload(p, key, chains[key]);
      assert HasKey(pager.pages[p].cells, key);
      return payload.value;
    }

    /** Moves to the first key of a tree that has one. */
    method MoveToFirst()
      requires Valid() && Map() != map[]
      modifies `cursor
      ensures OnCell(T(), cursor) && IsFirstKey(Map().Keys, KeyAt(T(), cursor))
    {
      ghost var t := T();
      var c: Stack := [];
      var p := root;
      assert PageOk(t, p);
      while pager.pages[p].NodePage?
        invariant IsPath(t, c + [(p, 0)]) && (IsLeaf(t, p) || IsNode(t, p)) && span[p].lo == 0
        decreases span[p].level
      {
        assert Occupied(t, cfg, p) && |pager.pages[p].seps| > 0;
        assert Pop(c + [(p, 0)]) == c;
        Choose(t, c + [(p, 0)], 0);
        c := c + [(p, 0)];
        p := pager.pages[p].seps[0].val;
      }
      LeafHasCells(t, cfg, p);
      assert |pager.pages[p].cells| > 0;
      cursor := c + [(p, 0)];
      FirstCellIsFirst(t, cursor);
    }

    /** Moves to the last key; the root has to be a node. */
    method MoveToLast()
      requires Valid() && pager.pages[root].NodePage?
      modifies `cursor
      ensures OnCell(T(), cursor) && IsLastKey(Map().Keys, KeyAt(T(), cursor))
    {
      ghost var t := T();
      var c: Stack := [];
      var p := root;
      assert PageOk(t, p);
      NodeRootHasCells(t, cfg);
      while pager.pages[p].NodePage?
        invariant IsPath(t, c + [(p, 0)]) && (IsLeaf(t, p) || IsNode(t, p)) && span[p].hi == KEY_LIMIT
        decreases span[p].level
      {
        var n := |pager.pages[p].seps|;
        assert Occupied(t, cfg, p) && n > 0;
        assert Pop(c + [(p, 0)]) == c;
        Choose(t, c + [(p, 0)], n);
        c := c + [(p, n)];
        p := pager.pages[p].right;
      }
      LeafHasCells(t, cfg, p);
      var n := |pager.pages[p].cells|;
      assert n > 0;
      PathMove(t, c + [(p, 0)], n - 1);
      assert Pop(c + [(p, 0)]) == c;
      cursor := c + [(p, n - 1)];
      LastCellIsLast(t, cursor);
    }

    /** Moves to the next key; without one, the cursor is left empty. */
    method Next() returns (moved: bool)
      requires Valid() && OnCell(T(), cursor)
      modifies `cursor
      ensures moved ==> StepsTo(T(), old(cursor), cursor)
      ensures !moved ==> cursor == [] && IsLastKey(Map().Keys, old(KeyAt(T(), cursor)))
    {
      ghost var t, start := T(), cursor;
      var curr := Top(cursor);
      if curr.1 < |pager.pages[curr.0].cells| - 1 {
        SameLeaf(t, cursor, curr.1 + 1);
        cursor := Pop(cursor) + [(curr.0, curr.1 + 1)];
        return true;
      }
      PopEnds(t, cursor);
      cursor := Pop(cursor);
      ClimbForNext(t, span[curr.0].hi);
      if |cursor| == 0 {
        LastCellIsLast(t, start);
        return false;
      }
      curr := Top(cursor);
      Choose(t, cursor, curr.1 + 1);
      cursor := Pop(cursor) + [(curr.0, curr.1 + 1)];
      DescendToFirst(Child(pager.pages[curr.0], curr.1 + 1), t);
      assert T() == t;
      NextLeaf(t, cfg, start, cursor);
      return true;
    }

    /** Goes up to a node with a child behind the one on the stack: the first half of `next`. */
    method ClimbForNext(ghost t: Tree, ghost hi: nat)
      requires Valid() && t == T() && EndsAt(t, cursor, hi)
      modifies `cursor
      ensures EndsAt(t, cursor, hi)
      ensures cursor != [] ==> Top(cursor).1 < |t.pages[Top(cursor).0].seps|
    {
      while |cursor| > 0
        invariant EndsAt(t, cursor, hi)
      {
        var curr := Top(cursor);
        if curr.1 < |pager.pages[curr.0].seps| {
          break;
        }
        PopEnds(t, cursor);
        cursor := Pop(cursor);
      }
    }

    /** Goes down to the first cell below a page: the second half of `next`. */
    method DescendToFirst(page: PageNo, ghost t: Tree)
      requires Valid() && t == T()
      requires IsPath(t, cursor + [(page, 0)]) && (IsLeaf(t, page) || IsNode(t, page)) && page != t.root
      modifies `cursor
      ensures OnCell(t, cursor) && Top(cursor).1 == 0 && Top(cursor).0 != t.root
      ensures t.span[Top(cursor).0].lo == t.span[page].lo
    {
      var child := page;
      while pager.pages[child].NodePage?
        invariant IsPath(t, cursor + [(child, 0)]) && (IsLeaf(t, child) || IsNode(t, child))
        invariant child != root && span[child].lo == span[page].lo
        decreases span[child].level
      {
        assert Occupied(t, cfg, child);
        assert Pop(cursor + [(child, 0)]) == cursor;
        Choose(t, cursor + [(child, 0)], 0);
        cursor := cursor + [(child, 0)];
        child := pager.pages[child].seps[0].val;
      }
      LeafHasCells(t, cfg, child);
      cursor := cursor + [(child, 0)];
    }

    /** Moves to the previous key; without one, the cursor is left empty. */
    method Prev() returns (moved: bool)
      requires Valid() && OnCell(T(), cursor)
      modifies `cursor
      ensures moved ==> StepsTo(T(), cursor, old(cursor))
      ensures !moved ==> cursor == [] && IsFirstKey(Map().Keys, old(KeyAt(T(), cursor)))
    {
      ghost var t, start := T(), cursor;
      var curr := Top(cursor);
      if curr.1 > 0 {
        SameLeaf(t, cursor, curr.1 - 1);
        cursor := Pop(cursor) + [(curr.0, curr.1 - 1)];
        return true;
      }
      PopEnds(t, cursor);
      cursor := Pop(cursor);
      ClimbForPrev(t, span[curr.0].lo);
      if |cursor| == 0 {
        FirstCellIsFirst(t, start);
        return false;
      }
      curr := Top(cursor);
      Choose(t, cursor, curr.1 - 1);
      cursor := Pop(cursor) + [(curr.0, curr.1 - 1)];
      DescendToLast(pager.pages[curr.0].seps[curr.1 - 1].val, t);
      assert T() == t;
      PrevLeaf(t, cfg, start, cursor);
      return true;
    }

    /** Goes up to a node with a child in front of the one on the stack: the first half of `prev`. */
    method ClimbForPrev(ghost t: Tree, ghost lo: nat)
      requires Valid() && t == T() && StartsAt(t, cursor, lo)
      modifies `cursor
      ensures StartsAt(t, cursor, lo)
      ensures cursor != [] ==> Top(cursor).1 > 0
    {
      while |cursor| > 0
        invariant StartsAt(t, cursor, lo)
      {
        var curr := Top(cursor);
        if curr.1 > 0 {
          break;
        }
        PopEnds(t, cursor);
        cursor := Pop(cursor);
      }
    }

    /** Goes down to the last cell below a page: the second half of `prev`. */
    method DescendToLast(page: PageNo, ghost t: Tree)
      requires Valid() && t == T()
      requires IsPath(t, cursor + [(page, 0)]) && (IsLeaf(t, page) || IsNode(t, page)) && page != t.root
      modifies `cursor
      ensures OnCell(t, cursor) && Top(cursor).1 + 1 == |t.pages[Top(cursor).0].cells|
      ensures t.span[Top(cursor).0].hi == t.span[page].hi
    {
      var child := page;
      while pager.pages[child].NodePage?
        invariant IsPath(t, cursor + [(child, 0)]) && (IsLeaf(t, child) || IsNode(t, child))
        invariant child != root && span[child].hi == span[page].hi
        decreases span[child].level
      {
        var n := |pager.pages[child].seps|;
        assert Pop(cursor + [(child, 0)]) == cursor;
        Choose(t, cursor + [(child, 0)], n);
        cursor := cursor + [(child, n)];
        child := pager.pages[child].right;
      }
      LeafHasCells(t, cfg, child);
      var n := |pager.pages[child].cells|;
      assert Pop(cursor + [(child, 0)]) == cursor;
      PathMove(t, cursor + [(child, 0)], n - 1);
      cursor := cursor + [(child, n - 1)];
    }

    /** Reads the whole tree: `move_to_first`, then `next` until it returns false. */
    method ReadAll() returns (rows: seq<(Key, seq<Byte>)>)
      requires Valid() && Map() != map[]
      modifies `cursor
      ensures cursor == [] && ListsBelow(rows, Map(), KEY_LIMIT)
    {
      MoveToFirst();
      rows := [];
      var more := true;
      ghost var at := KeyAt(T(), cursor);
      while more
        invariant more ==> OnCell(T(), cursor) && at == KeyAt(T(), cursor)
        invariant !more ==> cursor == [] && at == KEY_LIMIT
        invariant ListsBelow(rows, Map(), at)
        decreases more, KEY_LIMIT - at
      {
        var k := CurrentKey();
        var value := CurrentValue();
        rows := rows + [(k.value, value)];
        more := Next();
        ghost var next := if more then KeyAt(T(), cursor) else KEY_LIMIT;
        if more { KeyIsIn(T(), cursor); }
        ListsMore(rows[..|rows| - 1], Map(), at, next);
        assert rows == rows[..|rows| - 1] + [(at, value)];
        at := next;
      }
    }

    // ---------- copying cells to new pages ----------

    method CopyLeafCells(p: PageNo, keys: seq<Key>, cellMap: map<Key, LeafCell>, ghost cs: seq<LeafCell>)
      requires pager.Valid() && p in pager.pages && pager.pages[p].LeafPage? && pager.pages[p].cells == []
      requires CopyReady(keys, cellMap, cs, LEAF_CAPACITY)
      modifies pager`pages
      ensures pager.Valid()
      ensures pager.pages == old(pager.pages)[p := old(pager.pages[p]).(cells := cs)]
    {
      var i := 0;
      while i < |keys|
        invariant i <= |keys| && pager.Valid()
        invariant pager.pages == old(pager.pages)[p := old(pager.pages[p]).(cells := cs[..i])]
      {
        AppendIsInsert(cs, i);
        var r := pager.WriteCell(p, cellMap[keys[i]]);
        assert r == Done;
        i := i + 1;
      }
      assert cs[..i] == cs;
    }

    /** Adds a cell together with its left child: `insert_node_cell`, then `set_cell_left_child`. */
    method AddNodeCell(p: PageNo, c: NodeCell)
      requires pager.HasNode(p) && |pager.pages[p].seps| < NODE_CAPACITY && !HasKey(pager.pages[p].seps, c.key)
      modifies pager`pages
      ensures pager.Valid()
      ensures pager.pages
              == old(pager.pages)[p := old(pager.pages[p]).(seps := InsertCell(old(pager.pages[p]).seps, c))]
    {
      ghost var g := pager.pages[p];
      ghost var i := Rank(g.seps, c.key);
      InsertSorted(g.seps, Cell(c.key, NULL_PAGE));
      var r := pager.InsertNodeCell(p, c.key);
      assert r == Done;
      ghost var h := pager.pages[p];
      assert h.seps[i] == Cell(c.key, NULL_PAGE);
      RankUnique(h.seps, c.key, i);
      r := pager.SetCellLeftChild(p, c.key, c.val);
      assert r == Done;
      assert pager.pages[p].seps == InsertAt(g.seps, i, c);
    }

    method CopyNodeCells(p: PageNo, keys: seq<Key>, cellMap: map<Key, NodeCell>, ghost cs: seq<NodeCell>)
      requires pager.Valid() && p in pager.pages && pager.pages[p].NodePage? && pager.pages[p].seps == []
      requires CopyReady(keys, cellMap, cs, NODE_CAPACITY)
      modifies pager`pages
      ensures pager.Valid()
      ensures pager.pages == old(pager.pages)[p := old(pager.pages[p]).(seps := cs)]
    {
      var i := 0;
      while i < |keys|
        invariant i <= |keys| && pager.Valid()
        invariant pager.pages == old(pager.pages)[p := old(pager.pages[p]).(seps := cs[..i])]
      {
        AppendIsInsert(cs, i);
        AddNodeCell(p, cellMap[keys[i]]);
        i := i + 1;
      }
      assert cs[..i] == cs;
    }

    /** A root with one cell and two children. */
    method NewRoot(sep: Key, left: PageNo, right: PageNo) returns (g: PageNo)
      requires pager.Valid()
      modifies pager`pages, pager`total
      ensures pager.Valid()
      ensures g == pager.total == old(pager.total) + 1
      ensures pager.pages == old(pager.pages)[g := NodePage([Cell(sep, left)], right)]
    {
      g := pager.CreateNodePage();
      assert pager.pages[g].seps == [] && InsertCell(pager.pages[g].seps, Cell(sep, left)) == [Cell(sep, left)];
      AddNodeCell(g, Cell(sep, left));
      assert pager.pages == old(pager.pages)[g := NodePage([Cell(sep, left)], NULL_PAGE)];
      pager.SetNodeRightChild(g, right);
    }

    /** Makes `right` the child at the parent's slot; the returned cell is to be put in front of it. */
    method AssignChildrenNodes(left: PageNo, right: PageNo, parent: (PageNo, nat), sep: Key) returns (c: NodeCell)
      requires pager.Valid() && parent.0 in pager.pages && pager.pages[parent.0].NodePage?
      requires Sorted(pager.pages[parent.0].seps) && pager.pages[parent.0].seps != []
      requires parent.1 <= |pager.pages[parent.0].seps|
      requires parent.1 > 0 ==> pager.pages[parent.0].seps[parent.1 - 1].key < sep
      requires parent.1 < |pager.pages[parent.0].seps| ==> sep < pager.pages[parent.0].seps[parent.1].key
      modifies pager`pages
      ensures pager.Valid() && c == Cell(sep, left)
      ensures pager.pages == old(pager.pages)[parent.0 := SetChild(old(pager.pages)[parent.0], parent.1, right)]
    {
      var g := pager.pages[parent.0];
      if parent.1 == |g.seps| {
        assert g.seps[|g.seps| - 1].key < sep;
        pager.SetNodeRightChild(parent.0, right);
      } else {
        var oldKey := g.seps[parent.1].key;
        assert sep < oldKey;
        RankUnique(g.seps, oldKey, parent.1);
        var r := pager.SetCellLeftChild(parent.0, oldKey, right);
        assert r == Done;
      }
      return Cell(sep, left);
    }

    // ---------- splitting ----------

    /** Two new leaves with the cells of a full leaf and one more. */
    method CopyLeafHalves(p: PageNo, c: LeafCell) returns (left: PageNo, right: PageNo, sep: Key)
      requires pager.Valid() && cfg.Sound() && p in pager.pages && pager.pages[p].LeafPage?
      requires Sorted(pager.pages[p].cells) && !HasKey(pager.pages[p].cells, c.key)
      requires |pager.pages[p].cells| == cfg.leafMax
      modifies pager`pages, pager`total
      ensures pager.Valid()
      ensures left == old(pager.total) + 1 && right == pager.total == left + 1
      ensures var v := InsertCell(old(pager.pages[p]).cells, c);
              && sep == v[LeafHalf(cfg)].key
              && pager.pages == old(pager.pages)[left := LeafPage(v[..LeafHalf(cfg)], NULL_PAGE, NULL_PAGE)]
                                                [right := LeafPage(v[LeafHalf(cfg)..], NULL_PAGE, NULL_PAGE)]
    {
      ghost var v, m := InsertCell(pager.pages[p].cells, c), LeafHalf(cfg);
      ghost var a, b := v[..m], v[m..];
      var leftKeys, rightKeys, cellMap := SplitCell(pager.pages[p].cells, c, true);
      HalvesSorted(pager.pages[p].cells, c, m);
      sep := rightKeys[0];
      assert CopyReady(leftKeys, cellMap, a, LEAF_CAPACITY) && CopyReady(rightKeys, cellMap, b, LEAF_CAPACITY);
      left, right := WriteLeafHalves(leftKeys, rightKeys, cellMap, a, b);
    }

    method WriteLeafHalves(leftKeys: seq<Key>, rightKeys: seq<Key>, cellMap: map<Key, LeafCell>,
                           ghost a: seq<LeafCell>, ghost b: seq<LeafCell>)
      returns (left: PageNo, right: PageNo)
      requires pager.Valid() && CopyReady(leftKeys, cellMap, a, LEAF_CAPACITY)
               && CopyReady(rightKeys, cellMap, b, LEAF_CAPACITY)
      modifies pager`pages, pager`total
      ensures pager.Valid()
      ensures left == old(pager.total) + 1 && right == pager.total == left + 1
      ensures pager.pages == old(pager.pages)[left := LeafPage(a, NULL_PAGE, NULL_PAGE)]
                                             [right := LeafPage(b, NULL_PAGE, NULL_PAGE)]
    {
      left := pager.CreateLeafPage();
      right := pager.CreateLeafPage();
      CopyLeafCells(left, leftKeys, cellMap, a);
      CopyLeafCells(right, rightKeys, cellMap, b);
    }

    /** Links two new leaves between the neighbours of the leaf they replace. */
    method LinkHalves(left: PageNo, right: PageNo, prev: PageNo, next: PageNo)
      requires pager.Valid() && left != right
      requires left in pager.pages && pager.pages[left].LeafPage?
      requires right in pager.pages && pager.pages[right].LeafPage?
      requires prev != NULL_PAGE ==> prev in pager.pages && pager.pages[prev].LeafPage?
      requires next != NULL_PAGE ==> next in pager.pages && pager.pages[next].LeafPage?
      requires prev != left && prev != right && next != left && next != right && (prev != next || prev == NULL_PAGE)
      modifies pager`pages
      ensures pager.Valid() && pager.pages.Keys == old(pager.pages).Keys
      ensures pager.pages[left] == old(pager.pages[left]).(prev := prev, next := right)
      ensures pager.pages[right] == old(pager.pages[right]).(prev := left, next := next)
      ensures prev != NULL_PAGE ==> pager.pages[prev] == old(pager.pages[prev]).(next := left)
      ensures next != NULL_PAGE ==> pager.pages[next] == old(pager.pages[next]).(prev := right)
      ensures forall q :: q in old(pager.pages) && q != left && q != right && q != prev && q != next ==>
              pager.pages[q] == old(pager.pages)[q]
    {
      LinkForward(left, right, prev, next);
      if next != NULL_PAGE {
        pager.SetPrevPage(next, right);
      }
      pager.SetPrevPage(right, left);
      pager.SetPrevPage(left, prev);
    }

    method LinkForward(left: PageNo, right: PageNo, prev: PageNo, next: PageNo)
      requires pager.Valid() && left != right && prev != left && prev != right
      requires left in pager.pages && pager.pages[left].LeafPage?
      requires right in pager.pages && pager.pages[right].LeafPage?
      requires prev != NULL_PAGE ==> prev in pager.pages && pager.pages[prev].LeafPage?
      modifies pager`pages
      ensures pager.Valid() && pager.pages.Keys == old(pager.pages).Keys
      ensures pager.pages[left] == old(pager.pages[left]).(next := right)
      ensures pager.pages[right] == old(pager.pages[right]).(next := next)
      ensures prev != NULL_PAGE ==> pager.pages[prev] == old(pager.pages[prev]).(next := left)
      ensures forall q :: q in old(pager.pages) && q != left && q != right && q != prev ==>
              pager.pages[q] == old(pager.pages)[q]
    {
      if prev != NULL_PAGE {
        pager.SetNextPage(prev, left);
      }
      pager.SetNextPage(left, right);
      pager.SetNextPage(right, next);
    }

    /** Replaces a full leaf that gains a cell by two leaves, up to the parent's child. */
    method SplitLeafPages(p: PageNo, c: LeafCell) returns (left: PageNo, right: PageNo, sep: Key)
      requires Ready() && LinksTyped(T(), p)
      requires Sorted(pager.pages[p].cells) && !HasKey(pager.pages[p].cells, c.key)
      requires |pager.pages[p].cells| == cfg.leafMax
      modifies pager`pages, pager`total
      ensures pager.Valid()
      ensures left == old(pager.total) + 1 && right == pager.total == left + 1
      ensures var g := old(pager.pages[p]); var v := InsertCell(g.cells, c);
              sep == v[LeafHalf(cfg)].key
                && LeavesSplit(old(pager.pages), pager.pages, g, v, LeafHalf(cfg), left, right)
    {
      var g := pager.pages[p];
      ghost var v := InsertCell(g.cells, c);
      left, right, sep := CopyLeafHalves(p, c);
      LinkHalves(left, right, g.prev, g.next);
    }

    /** Puts the cell into the node on top of the stack, which is split when it is full. */
    method PushUp(stack: Stack, c: NodeCell)
      requires pager.Valid() && cfg.Sound() && Pending(T(), cfg, stack, c)
      modifies this, pager`pages, pager`total
      ensures Ready() && WellFormed(T(), cfg)
      ensures cells == old(cells) && chains == old(chains)
      ensures AsideKept(old(T()), T())
      decreases |stack|, 3
    {
      var (p, i) := Top(stack);
      PendingRank(T(), cfg, stack, c);
      if |pager.pages[p].seps| == cfg.nodeMax {
        cursor := stack;
        SplitCursorNode(c);
      } else {
        ghost var t, v := T(), WithPending(T(), stack, c);
        AddNodeCell(p, c);
        assert T() == v;
        AsideWithin(t, v);
        ParentFits(v, cfg, p);
      }
    }

    /** Hangs two halves in place of the page on top of the stack: under a new root, or under
        the parent, which gains the separator. The tree that results is `u`. */
    method AttachHalves(left: PageNo, right: PageNo, sep: Key, ghost g: PageNo, ghost t: Tree, ghost u: Tree)
      requires pager.Valid() && cfg.Sound() && t.root == root && g == pager.total + 1
      requires Attachable(t, cfg, cursor, pager.pages, left, right, sep, g, u)
      requires AsideKept(Less(t, Top(cursor).0), u)
      modifies this, pager`pages, pager`total
      ensures Ready() && WellFormed(T(), cfg)
      ensures cells == u.cells && chains == old(chains)
      ensures AsideKept(Less(t, Top(old(cursor)).0), T())
      decreases |cursor|, 0
    {
      if |cursor| == 1 {
        GrowRoot(left, right, sep, u);
        return;
      }
      ghost var p := Top(cursor).0;
      var stack := Pop(cursor);
      var up := AssignChildrenNodes(left, right, Top(stack), sep);
      span, cells := u.span, u.cells;
      ghost var v := T();
      assert WithPending(v, stack, up) == u;
      AsideWithin(u, v);
      PushUp(stack, up);
      AsideTrans(Less(t, p), u, v);
      AsideTrans(Less(t, p), v, T());
    }

    method GrowRoot(left: PageNo, right: PageNo, sep: Key, ghost u: Tree)
      requires pager.Valid() && cfg.Sound() && WellFormed(u, cfg)
      requires u.root == pager.total + 1 && u.pages == pager.pages[u.root := NodePage([Cell(sep, left)], right)]
      modifies this, pager`pages, pager`total
      ensures Ready() && T() == u && chains == old(chains)
    {
      var newRoot := NewRoot(sep, left, right);
      span, cells, root := u.span, u.cells, newRoot;
      assert T() == u;
    }

    method SplitCursorNode(c: NodeCell)
      requires pager.Valid() && cfg.Sound() && Pending(T(), cfg, cursor, c)
      requires |pager.pages[Top(cursor).0].seps| == cfg.nodeMax
      modifies this, pager`pages, pager`total
      ensures Ready() && WellFormed(T(), cfg)
      ensures cells == old(cells) && chains == old(chains)
      ensures AsideKept(old(T()), T())
      decreases |cursor|, 2
    {
      PendingRank(T(), cfg, cursor, c);
      ghost var t, total := T(), pager.total;
      var left, right, sep := SplitNodePages(Top(cursor).0, c);
      ghost var p := Top(cursor).0;
      FinishNodeSplit(left, right, sep, t, c, total);
      LessKept(t, p, T());
    }

    /** The second half of `split_cursor_node`, once the halves are written. */
    method FinishNodeSplit(left: PageNo, right: PageNo, sep: Key, ghost t: Tree, c: NodeCell, ghost total: nat)
      requires pager.Valid() && cfg.Sound() && Pending(t, cfg, cursor, c)
      requires t.root == root && t.cells == cells && (forall q :: q in t.pages ==> FIRST_PAGE < q <= total)
      requires FIRST_PAGE <= total && left == total + 1 && right == total + 2 == pager.total
      requires |t.pages[Top(cursor).0].seps| == cfg.nodeMax
      requires var g := t.pages[Top(cursor).0]; var v := InsertCell(g.seps, c);
               sep == v[NodeHalf(cfg)].key && NodesSplit(t.pages, pager.pages, g, v, NodeHalf(cfg), left, right)
      modifies this, pager`pages, pager`total
      ensures Ready() && WellFormed(T(), cfg)
      ensures cells == old(cells) && chains == old(chains)
      ensures AsideKept(Less(t, Top(old(cursor)).0), T())
      decreases |cursor|, 1
    {
      ghost var u := NodeHung(t, cfg, cursor, c, pager.pages, total, left, right, sep);
      AttachHalves(left, right, sep, total + 3, t, u);
    }

    /** Two new nodes with the cells of a full node and one more, less the one that goes up. */
    method SplitNodePages(p: PageNo, c: NodeCell) returns (left: PageNo, right: PageNo, sep: Key)
      requires pager.Valid() && cfg.Sound() && p in pager.pages && pager.pages[p].NodePage?
      requires Sorted(pager.pages[p].seps) && !HasKey(pager.pages[p].seps, c.key)
      requires |pager.pages[p].seps| == cfg.nodeMax
      modifies pager`pages, pager`total
      ensures pager.Valid()
      ensures left == old(pager.total) + 1 && right == pager.total == left + 1
      ensures var g := old(pager.pages[p]); var v := InsertCell(g.seps, c);
              sep == v[NodeHalf(cfg)].key && NodesSplit(old(pager.pages), pager.pages, g, v, NodeHalf(cfg), left, right)
    {
      var g := pager.pages[p];
      ghost var v, m := InsertCell(g.seps, c), NodeHalf(cfg);
      var leftKeys, rightKeys, cellMap;
      leftKeys, rightKeys, sep, cellMap := CutNode(g.seps, c);
      left, right := WriteNodeHalves(leftKeys, rightKeys, cellMap, cellMap[sep].val, g.right, v[..m], v[m + 1..]);
    }

    /** The keys of the two halves and the one between them. */
    method CutNode(seps: seq<NodeCell>, c: NodeCell)
      returns (leftKeys: seq<Key>, rightKeys: seq<Key>, sep: Key, cellMap: map<Key, NodeCell>)
      requires cfg.Sound() && Sorted(seps) && !HasKey(seps, c.key) && |seps| == cfg.nodeMax
      ensures var v, m := InsertCell(seps, c), NodeHalf(cfg);
              && m < |v| && sep == v[m].key && sep in cellMap && cellMap[sep] == v[m]
              && CopyReady(leftKeys, cellMap, v[..m], NODE_CAPACITY)
              && CopyReady(rightKeys, cellMap, v[m + 1..], NODE_CAPACITY)
    {
      leftKeys, rightKeys, cellMap := SplitCell(seps, c, false);
      HalvesSorted(seps, c, NodeHalf(cfg));
      sep := rightKeys[0];
      rightKeys := rightKeys[1..];
    }

    method WriteNodeHalves(leftKeys: seq<Key>, rightKeys: seq<Key>, cellMap: map<Key, NodeCell>,
                           leftLast: PageNo, rightLast: PageNo, ghost a: seq<NodeCell>, ghost b: seq<NodeCell>)
      returns (left: PageNo, right: PageNo)
      requires pager.Valid() && CopyReady(leftKeys, cellMap, a, NODE_CAPACITY)
               && CopyReady(rightKeys, cellMap, b, NODE_CAPACITY)
      modifies pager`pages, pager`total
      ensures pager.Valid()
      ensures left == old(pager.total) + 1 && right == pager.total == left + 1
      ensures pager.pages == old(pager.pages)[left := NodePage(a, leftLast)][right := NodePage(b, rightLast)]
    {
      left := pager.CreateNodePage();
      right := pager.CreateNodePage();
      FillNode(left, leftKeys, cellMap, leftLast, a);
      FillNode(right, rightKeys, cellMap, rightLast, b);
    }

    method FillNode(p: PageNo, keys: seq<Key>, cellMap: map<Key, NodeCell>, rightChild: PageNo, ghost cs: seq<NodeCell>)
      requires pager.Valid() && p in pager.pages && pager.pages[p] == NodePage([], NULL_PAGE)
      requires CopyReady(keys, cellMap, cs, NODE_CAPACITY)
      modifies pager`pages
      ensures pager.Valid()
      ensures pager.pages == old(pager.pages)[p := NodePage(cs, rightChild)]
    {
      CopyNodeCells(p, keys, cellMap, cs);
      pager.SetNodeRightChild(p, rightChild);
    }

    method SplitCursorLeaf(c: LeafCell)
      requires Ready() && IsLeafPath(T(), cursor) && FullLeaf(T(), cfg, Top(cursor).0, c)
      modifies this, pager`pages, pager`total
      ensures Ready() && WellFormed(T(), cfg)
      ensures cells == old(cells)[c.key := c] && chains == old(chains)
      ensures AsideKept(Less(old(T()), Top(old(cursor)).0), T())
    {
      FullLeafFacts(T(), cfg, cursor, c);
      ghost var t, total := T(), pager.total;
      var left, right, sep := SplitLeafPages(Top(cursor).0, c);
      FinishLeafSplit(left, right, sep, t, c, total);
    }

    /** The second half of `split_cursor_leaf`, once the halves are written and linked. */
    method FinishLeafSplit(left: PageNo, right: PageNo, sep: Key, ghost t: Tree, c: LeafCell, ghost total: nat)
      requires pager.Valid() && cfg.Sound() && IsLeafPath(t, cursor) && FullLeaf(t, cfg, Top(cursor).0, c)
      requires t.root == root && t.cells == cells && (forall q :: q in t.pages ==> FIRST_PAGE < q <= total)
      requires FIRST_PAGE <= total && left == total + 1 && right == total + 2 == pager.total
      requires var g := t.pages[Top(cursor).0]; var v := InsertCell(g.cells, c);
               sep == v[LeafHalf(cfg)].key && LeavesSplit(t.pages, pager.pages, g, v, LeafHalf(cfg), left, right)
      modifies this, pager`pages, pager`total
      ensures Ready() && WellFormed(T(), cfg)
      ensures cells == old(cells)[c.key := c] && chains == old(chains)
      ensures AsideKept(Less(t, Top(old(cursor)).0), T())
    {
      ghost var stack, pages := cursor, pager.pages;
      ghost var p := t.pages[Top(stack).0];
      assert LeavesSplit(t.pages, pages, p, InsertCell(p.cells, c), LeafHalf(cfg), left, right);
      ghost var u := LeafHung(t, cfg, stack, c, pages, total, left, right, sep);
      AttachHalves(left, right, sep, total + 3, t, u);
    }

    // ---------- insert ----------

    /** Adds a key that is not there, through any cascade of splits; the cursor is left on it. */
    method Insert(key: Key, value: seq<Byte>) returns (r: InsertResult)
      requires Valid() && key < KEY_LIMIT && OffsetsFit(value)
      modifies this, pager
      ensures Valid()
      ensures r == DuplicateKeyError <==> key in old(Map())
      ensures r == DuplicateKeyError ==> Map() == old(Map()) && pager.pages == old(pager.pages)
      ensures r == Inserted ==> Map() == old(Map())[key := Stored(value)]
      ensures AsideKept(old(T()), T())
      ensures RootLeafAfter(old(T()), T(), r == Inserted && CellsIn(old(pager.pages), old(root)) == cfg.leafMax)
      ensures IsLeafPath(T(), cursor)
      ensures var (p, i) := Top(cursor); i < |pager.pages[p].cells| && pager.pages[p].cells[i].key == key
    {
      ghost var t := T();
      var found := MoveToKey(key);
      RootIsTop(t, cursor);
      if found {
        RootStays(t, T());
        return DuplicateKeyError;
      }
      var p := Top(cursor).0;
      assert Occupied(t, cfg, p);
      if |pager.pages[p].cells| < cfg.leafMax {
        InsertIntoLeaf(key, value);
      } else {
        InsertAndSplit(key, value);
        found := MoveToKey(key);
        assert found;
      }
      return Inserted;
    }

    /** The leaf under the cursor has room. */
    method InsertIntoLeaf(key: Key, value: seq<Byte>)
      requires Valid() && OffsetsFit(value) && IsLeafPath(T(), cursor) && key !in cells
      requires var (p, i) := Top(cursor);
               span[p].lo <= key < span[p].hi && i == Rank(pager.pages[p].cells, key)
                 && |pager.pages[p].cells| < cfg.leafMax
      modifies this`cells, this`chains, pager
      ensures Valid()
      ensures Map() == old(Map())[key := Stored(value)]
      ensures IsLeafPath(T(), cursor)
      ensures AsideKept(old(T()), T()) && RootLeafAfter(old(T()), T(), false)
      ensures var (p, i) := Top(cursor); i < |pager.pages[p].cells| && pager.pages[p].cells[i].key == key
    {
      var p := Top(cursor).0;
      ghost var t, stack, free := T(), cursor, pager.free;
      LeafLacks(t, p, key);
      var r, chain := pager.InsertLeafCell(p, key, value);
      assert r == Done;
      ghost var c := Cell(key, RecordOf(value, chain));
      AddedInLeaf(t, cfg, stack, key, free, pager.pages, chain, value, chains);
      cells, chains := cells[key := c], chains[key := chain];
    }

    /** The leaf under the cursor is full. */
    method InsertAndSplit(key: Key, value: seq<Byte>)
      requires Valid() && OffsetsFit(value) && IsLeafPath(T(), cursor) && key !in cells
      requires var p := Top(cursor).0;
               span[p].lo <= key < span[p].hi && |pager.pages[p].cells| >= cfg.leafMax
      modifies this, pager
      ensures Valid()
      ensures AsideKept(old(T()), T()) && RootLeafAfter(old(T()), T(), true)
      ensures Map() == old(Map())[key := Stored(value)] && key in cells
    {
      ghost var t, stack, free := T(), cursor, pager.free;
      var head, chain := pager.StorePayload(value);
      ghost var pages := pager.pages;
      var c := Cell(key, Record(|value| % UINT32_LIMIT, head));
      StoreAdd(t.pages, free, pages, cells, chains, key, chain, value, NULL_PAGE);
      StoredAside(t, cfg, stack, c, free, pages, chain, value);
      ghost var u := T();
      SplitCursorLeaf(c);
      chains := chains[key := chain];
      SplitBeside(t, stack, free, u, chain, value, T(), chains);
    }

    // ---------- borrowing from a sibling ----------

    method BorrowLeafSiblingCell(curr: PageNo, sibling: PageNo, sep: (PageNo, nat), isLeft: bool, ghost stack: Stack)
      returns (borrowed: bool)
      requires Ready()
      requires sibling != NULL_PAGE ==> BorrowSite(T(), cfg, stack, curr, sibling, sep, isLeft) && IsLeaf(T(), curr)
      modifies this`span, pager`pages
      ensures Ready()
      ensures borrowed <==> sibling != NULL_PAGE && cfg.leafMin < CellsIn(old(pager.pages), sibling)
      ensures borrowed ==> WellFormed(T(), cfg)
      ensures !borrowed ==> pager.pages == old(pager.pages) && span == old(span)
      ensures AsideKept(old(T()), T())
    {
      if sibling == NULL_PAGE {
        return false;
      }
      SiblingsAlike(T(), sep.0, sep.1, sep.1 + 1);
      if |pager.pages[sibling].cells| <= cfg.leafMin {
        return false;
      }
      LeafPairSorted(T(), sep.0, sep.1);
      assert pager.pages[curr].prev == sibling || pager.pages[curr].next == sibling;
      if isLeft {
        BorrowLastCell(sibling, curr, sep);
      } else {
        BorrowFirstCell(sibling, curr, sep);
      }
      return true;
    }

    method BorrowLastCell(a: PageNo, b: PageNo, sep: (PageNo, nat))
      requires Ready() && SiblingLeaves(T(), sep.0, sep.1) && OccupiedBut(T(), cfg, {b})
      requires a == Child(pager.pages[sep.0], sep.1) && b == Child(pager.pages[sep.0], sep.1 + 1)
      requires |pager.pages[b].cells| + 1 == cfg.leafMin < |pager.pages[a].cells|
      modifies this`span, pager`pages
      ensures Ready() && WellFormed(T(), cfg)
      ensures AsideKept(old(T()), T())
    {
      var oldKey := pager.pages[sep.0].seps[sep.1].key;
      ghost var t := T();
      ghost var u := LeafShiftRight(t, cfg, sep.0, sep.1);
      MoveLastCell(a, b, sep, oldKey);
      assert pager.pages == u.pages;
      span := u.span;
      assert T() == u;
    }

    method BorrowFirstCell(b: PageNo, a: PageNo, sep: (PageNo, nat))
      requires Ready() && SiblingLeaves(T(), sep.0, sep.1) && OccupiedBut(T(), cfg, {a})
      requires a == Child(pager.pages[sep.0], sep.1) && b == Child(pager.pages[sep.0], sep.1 + 1)
      requires |pager.pages[a].cells| + 1 == cfg.leafMin < |pager.pages[b].cells|
      modifies this`span, pager`pages
      ensures Ready() && WellFormed(T(), cfg)
      ensures AsideKept(old(T()), T())
    {
      var oldKey := pager.pages[sep.0].seps[sep.1].key;
      ghost var t := T();
      ghost var u := LeafShiftLeft(t, cfg, sep.0, sep.1);
      MoveFirstCell(b, a, sep, oldKey);
      assert pager.pages == u.pages;
      span := u.span;
      assert T() == u;
    }

    /** The last cell of leaf `a` moves to leaf `b` behind it. */
    method MoveLastCell(a: PageNo, b: PageNo, sep: (PageNo, nat), oldKey: Key)
      requires pager.HasLeaf(a) && pager.HasLeaf(b) && pager.HasNode(sep.0) && a != b
      requires sep.1 < |pager.pages[sep.0].seps| && pager.pages[sep.0].seps[sep.1].key == oldKey
      requires Rank(pager.pages[sep.0].seps, oldKey) == sep.1
      requires |pager.pages[a].cells| > cfg.leafMin && |pager.pages[b].cells| < LEAF_CAPACITY
      requires var n := |pager.pages[a].cells| - 1; var c := pager.pages[a].cells[n];
               Rank(pager.pages[a].cells, c.key) == n && !HasKey(pager.pages[b].cells, c.key)
      modifies pager`pages
      ensures pager.Valid()
      ensures var A, B, g := old(pager.pages[a]), old(pager.pages[b]), old(pager.pages[sep.0]);
              var n := |A.cells| - 1;
              pager.pages == old(pager.pages)[a := A.(cells := RemoveAt(A.cells, n))]
                                             [b := B.(cells := InsertCell(B.cells, A.cells[n]))]
                                             [sep.0 := SetKey(g, sep.1, A.cells[n].key)]
    {
      var borrowed := pager.pages[a].cells[|pager.pages[a].cells| - 1];
      var r := pager.DeleteCell(a, borrowed.key);
      assert r == Done && |pager.pages[a].cells| >= cfg.leafMin;
      r := pager.WriteCell(b, borrowed);
      assert r == Done;
      r := pager.UpdateCellKey(sep.0, oldKey, borrowed.key);
      assert r == Done;
    }

    /** The first cell of leaf `b` moves to leaf `a` in front of it. */
    method MoveFirstCell(b: PageNo, a: PageNo, sep: (PageNo, nat), oldKey: Key)
      requires pager.HasLeaf(a) && pager.HasLeaf(b) && pager.HasNode(sep.0) && a != b
      requires sep.1 < |pager.pages[sep.0].seps| && pager.pages[sep.0].seps[sep.1].key == oldKey
      requires Rank(pager.pages[sep.0].seps, oldKey) == sep.1
      requires 1 <= cfg.leafMin < |pager.pages[b].cells| && |pager.pages[a].cells| < LEAF_CAPACITY
      requires var c := pager.pages[b].cells[0];
               Rank(pager.pages[b].cells, c.key) == 0 && !HasKey(pager.pages[a].cells, c.key)
      modifies pager`pages
      ensures pager.Valid()
      ensures var A, B, g := old(pager.pages[a]), old(pager.pages[b]), old(pager.pages[sep.0]);
              pager.pages == old(pager.pages)[b := B.(cells := RemoveAt(B.cells, 0))]
                                             [a := A.(cells := InsertCell(A.cells, B.cells[0]))]
                                             [sep.0 := SetKey(g, sep.1, B.cells[1].key)]
    {
      var borrowed := pager.pages[b].cells[0];
      var r := pager.DeleteCell(b, borrowed.key);
      assert r == Done && |pager.pages[b].cells| >= cfg.leafMin;
      r := pager.WriteCell(a, borrowed);
      assert r == Done;
      var newKey := pager.pages[b].cells[0].key;
      assert borrowed.key < newKey;
      r := pager.UpdateCellKey(sep.0, oldKey, newKey);
      assert r == Done;
    }

    /** The pages on the left and on the right of a page below the same parent, where there are
        such, and the parent's cell in front of the page. */
    method FindSiblings(parent: (PageNo, nat), ghost curr: PageNo, ghost stack: Stack)
      returns (left: PageNo, leftSep: (PageNo, nat), right: PageNo)
      requires Ready() && (UnderfullLeaf(T(), cfg, stack, curr) || UnderfullNode(T(), cfg, stack, curr))
      requires parent == Top(stack)
      ensures left != NULL_PAGE ==> BorrowSite(T(), cfg, stack, curr, left, leftSep, true)
      ensures right != NULL_PAGE ==> BorrowSite(T(), cfg, stack, curr, right, parent, false)
      ensures NextTo(pager.pages, parent, left, right)
    {
      var g := pager.pages[parent.0];
      left, leftSep, right := NULL_PAGE, parent, NULL_PAGE;
      if parent.1 > 0 {
        left := g.seps[parent.1 - 1].val;
        leftSep := (parent.0, parent.1 - 1);
        SiblingsAlike(T(), parent.0, parent.1 - 1, parent.1);
      }
      if parent.1 + 1 < |g.seps| {
        right := g.seps[parent.1 + 1].val;
        SiblingsAlike(T(), parent.0, parent.1 + 1, parent.1);
      } else if parent.1 + 1 == |g.seps| {
        right := g.right;
        SiblingsAlike(T(), parent.0, parent.1 + 1, parent.1);
      }
    }

    /** The assertion that excludes the last child aborts the program where it is compiled in. */
    method BorrowFromLeafSibling(parent: (PageNo, nat), curr: PageNo, ghost stack: Stack) returns (r: BorrowResult)
      requires Ready() && UnderfullLeaf(T(), cfg, stack, curr) && parent == Top(stack)
      modifies this`span, pager`pages
      ensures Ready()
      ensures r == BorrowAssertFailed <==> asserts && parent.1 == SepsIn(old(pager.pages), parent.0)
      ensures r == Borrowed ==> WellFormed(T(), cfg)
      ensures r != Borrowed ==> pager.pages == old(pager.pages) && span == old(span)
      ensures r == Borrowed ==> !old(LeafSiblingsMinimal(T(), cfg, parent))
      ensures r == NotBorrowed ==> LeafSiblingsMinimal(T(), cfg, parent)
      ensures AsideKept(old(T()), T())
    {
      var g := pager.pages[parent.0];
      if asserts && !(parent.1 < |g.seps|) {
        return BorrowAssertFailed;
      }
      var prevSibling, leftSep, nextSibling := FindSiblings(parent, curr, stack);
      var ok := BorrowLeafSiblingCell(curr, prevSibling, leftSep, true, stack);
      if ok {
        return Borrowed;
      }
      ok := BorrowLeafSiblingCell(curr, nextSibling, parent, false, stack);
      return if ok then Borrowed else NotBorrowed;
    }

    method BorrowNodeSiblingCell(curr: PageNo, sibling: PageNo, sep: (PageNo, nat), isLeft: bool, ghost stack: Stack)
      returns (borrowed: bool)
      requires Ready()
      requires sibling != NULL_PAGE ==> BorrowSite(T(), cfg, stack, curr, sibling, sep, isLeft) && IsNode(T(), curr)
      modifies this`span, pager`pages
      ensures Ready()
      ensures borrowed <==> sibling != NULL_PAGE && cfg.nodeMin < SepsIn(old(pager.pages), sibling)
      ensures borrowed ==> WellFormed(T(), cfg)
      ensures !borrowed ==> pager.pages == old(pager.pages) && span == old(span)
      ensures AsideKept(old(T()), T())
    {
      if sibling == NULL_PAGE {
        return false;
      }
      SiblingsAlike(T(), sep.0, sep.1, sep.1 + 1);
      assert |pager.pages[sibling].seps| >= cfg.nodeMin by { assert Occupied(T(), cfg, sibling); }
      if |pager.pages[sibling].seps| == cfg.nodeMin {
        return false;
      }
      if isLeft {
        BorrowLastChild(sibling, curr, sep);
      } else {
        BorrowFirstChild(sibling, curr, sep);
      }
      return true;
    }

    method BorrowLastChild(a: PageNo, b: PageNo, sep: (PageNo, nat))
      requires Ready() && SiblingNodes(T(), sep.0, sep.1) && OccupiedBut(T(), cfg, {b})
      requires a == Child(pager.pages[sep.0], sep.1) && b == Child(pager.pages[sep.0], sep.1 + 1)
      requires |pager.pages[b].seps| + 1 == cfg.nodeMin < |pager.pages[a].seps|
      modifies this`span, pager`pages
      ensures Ready() && WellFormed(T(), cfg)
      ensures AsideKept(old(T()), T())
    {
      var sepKey := pager.pages[sep.0].seps[sep.1].key;
      ghost var t := T();
      ghost var u := NodeShiftRight(t, cfg, sep.0, sep.1);
      MoveLastChild(a, b, sep, sepKey);
      assert pager.pages == u.pages;
      span := u.span;
      assert T() == u;
    }

    method BorrowFirstChild(b: PageNo, a: PageNo, sep: (PageNo, nat))
      requires Ready() && SiblingNodes(T(), sep.0, sep.1) && OccupiedBut(T(), cfg, {a})
      requires a == Child(pager.pages[sep.0], sep.1) && b == Child(pager.pages[sep.0], sep.1 + 1)
      requires |pager.pages[a].seps| + 1 == cfg.nodeMin < |pager.pages[b].seps|
      modifies this`span, pager`pages
      ensures Ready() && WellFormed(T(), cfg)
      ensures AsideKept(old(T()), T())
    {
      var sepKey := pager.pages[sep.0].seps[sep.1].key;
      ghost var t := T();
      ghost var u := NodeShiftLeft(t, cfg, sep.0, sep.1);
      MoveFirstChild(b, a, sep, sepKey);
      assert pager.pages == u.pages;
      span := u.span;
      assert T() == u;
    }

    /** The last child of node `a` moves to node `b` behind it, and a cell through the parent. */
    method MoveLastChild(a: PageNo, b: PageNo, sep: (PageNo, nat), sepKey: Key)
      requires pager.HasNode(a) && pager.HasNode(b) && pager.HasNode(sep.0) && a != b && a != sep.0 && b != sep.0
      requires sep.1 < |pager.pages[sep.0].seps| && pager.pages[sep.0].seps[sep.1].key == sepKey
      requires Rank(pager.pages[sep.0].seps, sepKey) == sep.1
      requires 0 < |pager.pages[a].seps| && |pager.pages[b].seps| < NODE_CAPACITY
      requires var n := |pager.pages[a].seps| - 1;
               Rank(pager.pages[a].seps, pager.pages[a].seps[n].key) == n && !HasKey(pager.pages[b].seps, sepKey)
      modifies pager`pages
      ensures pager.Valid()
      ensures var A, B, g := old(pager.pages[a]), old(pager.pages[b]), old(pager.pages[sep.0]);
              var n := |A.seps| - 1;
              pager.pages == old(pager.pages)[a := NodePage(RemoveAt(A.seps, n), A.seps[n].val)]
                                             [sep.0 := SetKey(g, sep.1, A.seps[n].key)]
                                             [b := NodePage(InsertCell(B.seps, Cell(sepKey, A.right)), B.right)]
    {
      var g := pager.pages[a];
      var last := g.seps[|g.seps| - 1];
      pager.SetNodeRightChild(a, last.val);
      var r := pager.DeleteNodeCell(a, last.key);
      assert r == Done;
      r := pager.UpdateCellKey(sep.0, sepKey, last.key);
      assert r == Done;
      AddNodeCell(b, Cell(sepKey, g.right));
    }

    /** The first child of node `b` moves to node `a` in front of it, and a cell through the parent. */
    method MoveFirstChild(b: PageNo, a: PageNo, sep: (PageNo, nat), sepKey: Key)
      requires pager.HasNode(a) && pager.HasNode(b) && pager.HasNode(sep.0) && a != b && a != sep.0 && b != sep.0
      requires sep.1 < |pager.pages[sep.0].seps| && pager.pages[sep.0].seps[sep.1] == Cell(sepKey, a)
      requires Rank(pager.pages[sep.0].seps, sepKey) == sep.1
      requires 0 < |pager.pages[b].seps| && |pager.pages[a].seps| < NODE_CAPACITY
      requires Rank(pager.pages[b].seps, pager.pages[b].seps[0].key) == 0 && !HasKey(pager.pages[a].seps, sepKey)
      modifies pager`pages
      ensures pager.Valid()
      ensures var A, B, g := old(pager.pages[a]), old(pager.pages[b]), old(pager.pages[sep.0]);
              pager.pages == old(pager.pages)[b := NodePage(RemoveAt(B.seps, 0), B.right)]
                                             [sep.0 := SetKey(g, sep.1, B.seps[0].key)]
                                             [a := NodePage(InsertCell(A.seps, Cell(sepKey, A.right)), B.seps[0].val)]
    {
      var first := pager.pages[b].seps[0];
      var r := pager.DeleteNodeCell(b, first.key);
      assert r == Done;
      assert pager.pages[sep.0].seps[sep.1].val == a;
      r := pager.UpdateCellKey(sep.0, sepKey, first.key);
      assert r == Done;
      AddNodeCell(a, Cell(sepKey, pager.pages[a].right));
      pager.SetNodeRightChild(a, first.val);
    }

    method BorrowFromNodeSibling(parent: (PageNo, nat), curr: PageNo, ghost stack: Stack) returns (borrowed: bool)
      requires Ready() && UnderfullNode(T(), cfg, stack, curr) && parent == Top(stack)
      modifies this`span, pager`pages
      ensures Ready()
      ensures borrowed ==> WellFormed(T(), cfg) && !old(NodeSiblingsMinimal(T(), cfg, parent))
      ensures !borrowed ==>
                pager.pages == old(pager.pages) && span == old(span)
                && NodeSiblingsMinimal(T(), cfg, parent)
      ensures AsideKept(old(T()), T())
    {
      var leftSibling, leftSep, rightSibling := FindSiblings(parent, curr, stack);
      borrowed := BorrowNodeSiblingCell(curr, leftSibling, leftSep, true, stack);
      if borrowed {
        return;
      }
      borrowed := BorrowNodeSiblingCell(curr, rightSibling, parent, false, stack);
    }

    // ---------- merging with a sibling ----------

    /** Writes the cells of leaf `a` into leaf `b` behind it. */
    method PrependLeafCells(a: PageNo, b: PageNo)
      requires pager.HasLeaf(a) && pager.HasLeaf(b) && a != b
      requires Sorted(pager.pages[a].cells + pager.pages[b].cells)
      requires |pager.pages[a].cells| + |pager.pages[b].cells| <= LEAF_CAPACITY
      modifies pager`pages
      ensures pager.Valid()
      ensures var A, B := old(pager.pages[a]), old(pager.pages[b]);
              pager.pages == old(pager.pages)[b := B.(cells := A.cells + B.cells)]
    {
      var cells := pager.pages[a].cells;
      ghost var B := pager.pages[b];
      ghost var now := B.cells;
      var n := 0;
      assert cells[..0] + B.cells == B.cells;
      while n < |cells|
        invariant n <= |cells| && pager.Valid() && now == cells[..n] + B.cells
        invariant pager.pages == old(pager.pages)[b := B.(cells := now)]
      {
        PrependNext(cells, B.cells, n);
        var r := pager.WriteCell(b, cells[n]);
        assert r == Done;
        now := InsertCell(now, cells[n]);
        n := n + 1;
      }
      assert cells[..n] == cells;
    }

    /** Inserts the cells of node `a` and the pulled-down cell into node `b` behind it. */
    method PrependNodeCells(a: PageNo, b: PageNo, down: NodeCell)
      requires pager.HasNode(a) && pager.HasNode(b) && a != b
      requires Sorted(JoinSeps(pager.pages[a], down.key, pager.pages[b]))
      requires |pager.pages[a].seps| + 1 + |pager.pages[b].seps| <= NODE_CAPACITY
      modifies pager`pages
      ensures pager.Valid()
      ensures var A, B := old(pager.pages[a]), old(pager.pages[b]);
              pager.pages == old(pager.pages)[b := NodePage(JoinSeps(A, down.key, B), B.right)]
    {
      var g := pager.pages[a];
      ghost var B := pager.pages[b];
      ghost var all := g.seps + [Cell(down.key, g.right)];
      assert all + B.seps == JoinSeps(g, down.key, B);
      PrependSeps(b, g.seps, all);
      PrependNext(all, B.seps, |g.seps|);
      AddNodeCell(b, Cell(down.key, g.right));
      assert all[..|all|] == all;
    }

    method PrependSeps(b: PageNo, seps: seq<NodeCell>, ghost all: seq<NodeCell>)
      requires pager.HasNode(b) && seps <= all && Sorted(all + pager.pages[b].seps)
      requires |all| + |pager.pages[b].seps| <= NODE_CAPACITY
      modifies pager`pages
      ensures pager.Valid()
      ensures pager.pages
              == old(pager.pages)[b := old(pager.pages[b]).(seps := all[..|seps|] + old(pager.pages[b]).seps)]
    {
      ghost var B := pager.pages[b];
      ghost var now := B.seps;
      var n := 0;
      assert all[..0] + B.seps == B.seps;
      while n < |seps|
        invariant n <= |seps| && pager.Valid() && now == all[..n] + B.seps
        invariant pager.pages == old(pager.pages)[b := B.(seps := now)]
      {
        PrependNext(all, B.seps, n);
        AddNodeCell(b, seps[n]);
        now := InsertCell(now, seps[n]);
        n := n + 1;
      }
    }

    /** After a merge the parent may be an empty root or hold too few cells. */
    method SettleParent(par: PageNo, merged: PageNo, ghost stack: Stack)
      requires pager.Valid() && cfg.Sound() && Merged(T(), cfg, stack)
      requires Top(stack).0 == par && Pop(stack) == cursor
      requires pager.pages[par].seps == [] ==> pager.pages[par].right == merged
      modifies this, pager
      ensures Ready() && WellFormed(T(), cfg)
      ensures Extends(pager.free, old(pager.free))
      ensures cells == old(cells) && chains == old(chains)
      ensures AsideKept(old(T()), T())
      decreases |cursor|, 1
    {
      if root == par && |pager.pages[par].seps| == 0 {
        CollapseOccupied(T(), cfg);
        ghost var t, u := T(), Collapse(T());
        pager.InsertFreelist(root);
        span := u.span;
        root := merged;
        FrameTree(u, cfg, {}, pager.pages);
        AsideWithin(t, T());
      } else if root != par && |pager.pages[par].seps| < cfg.nodeMin {
        MergedUnderfull(T(), cfg, stack);
        BalanceNode(par);
      } else {
        MergedDone(T(), cfg, stack);
      }
    }

    /** Repairs a node with one cell too few; the cursor leads to its parent. */
    method BalanceNode(p: PageNo)
      requires Ready() && |cursor| > 0 && UnderfullNode(T(), cfg, cursor, p)
      modifies this, pager
      ensures Ready() && WellFormed(T(), cfg)
      ensures Extends(pager.free, old(pager.free))
      ensures cells == old(cells) && chains == old(chains)
      ensures AsideKept(old(T()), T())
      decreases |cursor|, 0
    {
      assert |pager.pages[p].seps| < cfg.nodeMin;
      ghost var stack := cursor;
      var parent := Top(cursor);
      cursor := Pop(cursor);
      var borrowed := BorrowFromNodeSibling(parent, p, stack);
      if borrowed {
        return;
      }
      ghost var t, pages, free := T(), pager.pages, pager.free;
      var merged := MergeWithNodeSibling(p, parent, stack);
      ghost var u, freed := T(), pager.free;
      SettleParent(parent.0, merged, Pop(stack) + [(parent.0, MergeIndex(pages[parent.0], parent.1))]);
      AsideTrans(t, u, T());
      ExtendsMerged(pages, free, parent, merged, freed, pager.free);
    }

    /** Merges the node with a sibling that is at its minimum; the left one of the two is freed. */
    method MergeWithNodeSibling(p: PageNo, parent: (PageNo, nat), ghost stack: Stack) returns (merged: PageNo)
      requires Ready() && UnderfullNode(T(), cfg, stack, p) && NodeSiblingsMinimal(T(), cfg, Top(stack))
      requires parent == Top(stack)
      modifies this`span, pager
      ensures pager.Valid()
      ensures PairMerged(old(pager.pages), old(pager.free), parent, merged, pager.free)
      ensures Merged(T(), cfg, Pop(stack) + [(parent.0, MergeIndex(old(pager.pages)[parent.0], parent.1))])
      ensures pager.pages[parent.0].seps == [] ==> pager.pages[parent.0].right == merged
      ensures AsideKept(old(T()), T())
    {
      ParentHasCells(T(), cfg, stack, p);
      var i := MergeIndex(pager.pages[parent.0], parent.1);
      merged := MergeNodesAt(parent.0, i, p, stack);
    }

    method MergeNodesAt(par: PageNo, i: nat, ghost p: PageNo, ghost stack: Stack) returns (merged: PageNo)
      requires Ready() && UnderfullNode(T(), cfg, stack, p) && NodeSiblingsMinimal(T(), cfg, Top(stack))
      requires par == Top(stack).0 && i < |pager.pages[par].seps| && (i == Top(stack).1 || i + 1 == Top(stack).1)
      modifies this`span, pager
      ensures pager.Valid() && Merged(T(), cfg, Pop(stack) + [(par, i)])
      ensures pager.free == [old(pager.pages)[par].seps[i].val] + old(pager.free)
              && merged == Child(old(pager.pages)[par], i + 1)
      ensures pager.pages[par].seps == [] ==> pager.pages[par].right == merged
      ensures AsideKept(old(T()), T())
    {
      ghost var t := T();
      var left := pager.pages[par].seps[i].val;
      merged := Child(pager.pages[par], i + 1);
      ghost var u := NodeMergeSteps(t, cfg, stack, i, p);
      assert |pager.pages[left].seps| + |pager.pages[merged].seps| + 1 <= cfg.nodeMax;
      MergeNodePages(left, merged, par, i);
      FreeLeft(left, par, t, u, Pop(stack) + [(par, i)]);
    }

    /** Gives the left page of a merge back. */
    method FreeLeft(left: PageNo, par: PageNo, ghost t: Tree, ghost u: Tree, ghost stack: Stack)
      requires pager.Valid() && pager.pages == u.pages && root == u.root && cells == u.cells
      requires Merged(u, cfg, stack) && Top(stack).0 == par && left !in u.span && left in t.span && AsideKept(t, u)
      requires left in pager.pages && !pager.pages[left].FreePage? && !pager.pages[left].OverflowPage?
      modifies this`span, pager
      ensures pager.Valid() && Merged(T(), cfg, stack)
      ensures par in old(pager.pages) && par in pager.pages && pager.pages[par] == old(pager.pages)[par]
      ensures pager.free == [left] + old(pager.free)
      ensures AsideKept(t, T())
    {
      MergedFreed(u, cfg, stack, left, FreePage(pager.freeHead));
      FreedAside(t, u, left, FreePage(pager.freeHead));
      pager.InsertFreelist(left);
      span := u.span;
      assert T() == u.(pages := u.pages[left := pager.pages[left]]);
    }

    method MergeNodePages(left: PageNo, right: PageNo, par: PageNo, i: nat)
      requires pager.HasNode(left) && pager.HasNode(right) && pager.HasNode(par)
      requires left != right && left != par && right != par
      requires i < |pager.pages[par].seps| && Rank(pager.pages[par].seps, pager.pages[par].seps[i].key) == i
      requires left == Child(pager.pages[par], i) && right == Child(pager.pages[par], i + 1)
      requires Sorted(JoinSeps(pager.pages[left], pager.pages[par].seps[i].key, pager.pages[right]))
      requires |pager.pages[left].seps| + 1 + |pager.pages[right].seps| <= NODE_CAPACITY
      modifies pager`pages
      ensures pager.Valid()
      ensures var A, B, g := old(pager.pages[left]), old(pager.pages[right]), old(pager.pages[par]);
              pager.pages == old(pager.pages)[right := NodePage(JoinSeps(A, g.seps[i].key, B), B.right)]
                                             [par := MergeSlot(g, i)]
    {
      var down := pager.pages[par].seps[i];
      var fixRightChild := i + 1 == |pager.pages[par].seps|;
      PrependNodeCells(left, right, down);
      var r := pager.DeleteNodeCell(par, down.key);
      assert r == Done;
      if fixRightChild {
        pager.SetNodeRightChild(par, right);
      }
    }

    /** Merges the leaf with a sibling that is at its minimum, and settles the parent. */
    method MergeWithLeafSibling(parent: (PageNo, nat), p: PageNo, ghost stack: Stack)
      requires Ready() && UnderfullLeaf(T(), cfg, stack, p) && LeafSiblingsMinimal(T(), cfg, parent)
      requires parent == Top(stack) && cursor == Pop(stack)
      modifies this, pager
      ensures Ready() && WellFormed(T(), cfg)
      ensures exists merged, free ::
                PairMerged(old(pager.pages), old(pager.free), parent, merged, free) && Extends(pager.free, free)
      ensures cells == old(cells) && chains == old(chains)
      ensures AsideKept(old(T()), T())
    {
      ghost var t, pages := T(), pager.pages;
      var merged := JoinLeafSiblings(p, parent, stack);
      ghost var u := T();
      SettleParent(parent.0, merged, Pop(stack) + [(parent.0, MergeIndex(pages[parent.0], parent.1))]);
      AsideTrans(t, u, T());
    }

    /** The left one of the two leaves leaves the leaf list and is freed. */
    method JoinLeafSiblings(p: PageNo, parent: (PageNo, nat), ghost stack: Stack) returns (merged: PageNo)
      requires Ready() && UnderfullLeaf(T(), cfg, stack, p) && LeafSiblingsMinimal(T(), cfg, parent)
      requires parent == Top(stack)
      modifies this`span, pager
      ensures pager.Valid()
      ensures PairMerged(old(pager.pages), old(pager.free), parent, merged, pager.free)
      ensures Merged(T(), cfg, Pop(stack) + [(parent.0, MergeIndex(old(pager.pages)[parent.0], parent.1))])
      ensures pager.pages[parent.0].seps == [] ==> pager.pages[parent.0].right == merged
      ensures AsideKept(old(T()), T())
    {
      ParentHasCells(T(), cfg, stack, p);
      var i := MergeIndex(pager.pages[parent.0], parent.1);
      merged := MergeLeavesAt(parent.0, i, p, stack);
    }

    method MergeLeavesAt(par: PageNo, i: nat, ghost p: PageNo, ghost stack: Stack) returns (merged: PageNo)
      requires Ready() && UnderfullLeaf(T(), cfg, stack, p) && LeafSiblingsMinimal(T(), cfg, Top(stack))
      requires par == Top(stack).0 && i < |pager.pages[par].seps| && (i == Top(stack).1 || i + 1 == Top(stack).1)
      modifies this`span, pager
      ensures pager.Valid() && Merged(T(), cfg, Pop(stack) + [(par, i)])
      ensures pager.free == [old(pager.pages)[par].seps[i].val] + old(pager.free)
              && merged == Child(old(pager.pages)[par], i + 1)
      ensures pager.pages[par].seps == [] ==> pager.pages[par].right == merged
      ensures AsideKept(old(T()), T())
    {
      ghost var t := T();
      var left := pager.pages[par].seps[i].val;
      merged := Child(pager.pages[par], i + 1);
      ghost var u := LeafMergeSteps(t, cfg, stack, i, p);
      assert |pager.pages[left].cells| + |pager.pages[merged].cells| <= cfg.leafMax;
      MergeLeafPages(left, merged, par, i);
      FreeLeft(left, par, t, u, Pop(stack) + [(par, i)]);
    }

    method MergeLeafPages(left: PageNo, right: PageNo, par: PageNo, i: nat)
      requires pager.HasLeaf(left) && pager.HasLeaf(right) && pager.HasNode(par) && left != right
      requires i < |pager.pages[par].seps| && Rank(pager.pages[par].seps, pager.pages[par].seps[i].key) == i
      requires Sorted(pager.pages[left].cells + pager.pages[right].cells)
      requires |pager.pages[left].cells| + |pager.pages[right].cells| <= LEAF_CAPACITY
      requires var prev := pager.pages[left].prev;
               prev != NULL_PAGE ==>
                 prev in pager.pages && pager.pages[prev].LeafPage? && pager.pages[prev].next == left
                 && prev != left && prev != right
      modifies pager`pages
      ensures pager.Valid()
      ensures var A, B, g := old(pager.pages[left]), old(pager.pages[right]), old(pager.pages[par]);
              pager.pages == Relink(old(pager.pages), A.prev, NULL_PAGE, right, NULL_PAGE)
                               [right := LeafPage(A.cells + B.cells, A.prev, B.next)]
                               [par := MergeSlot(g, i)]
    {
      ghost var pages, prev := pager.pages, pager.pages[left].prev;
      ghost var A, B, g := pages[left], pages[right], pages[par];
      var key := pager.pages[par].seps[i].key;
      PrependLeafCells(left, right);
      var r := pager.DeleteNodeCell(par, key);
      assert r == Done;
      assert pager.pages == pages[right := B.(cells := A.cells + B.cells)][par := MergeSlot(g, i)];
      Unlink(left, right);
      RelinkedPages(pages, prev, right, B.(cells := A.cells + B.cells), par, MergeSlot(g, i));
    }

    /** Takes a leaf out of the leaf list, in front of the one behind it. */
    method Unlink(left: PageNo, right: PageNo)
      requires pager.Valid() && left in pager.pages && pager.pages[left].LeafPage?
      requires right in pager.pages && pager.pages[right].LeafPage? && left != right
      requires var prev := pager.pages[left].prev;
               prev != NULL_PAGE ==>
                 prev in pager.pages && pager.pages[prev].LeafPage? && pager.pages[prev].next == left
                 && prev != right
      modifies pager`pages
      ensures pager.Valid()
      ensures var prev := old(pager.pages)[left].prev;
              var linked := old(pager.pages)[right := old(pager.pages)[right].(prev := prev)];
              pager.pages == if prev == NULL_PAGE then linked
                else linked[prev := old(pager.pages)[prev].(next := right)]
    {
      var prev := pager.pages[left].prev;
      pager.SetPrevPage(right, prev);
      if prev != NULL_PAGE {
        assert pager.pages[prev].next == left;
        pager.SetNextPage(prev, right);
      }
    }

    // ---------- remove ----------

    /** Removes the key under the cursor, through any borrowing, merging and collapse of the
        root. Where assertions are compiled in, it aborts exactly when the leaf underflows as
        the last child of its parent. Otherwise the cursor is left where the key would be, or
        empty when the tree is. */
    method Remove() returns (r: RemoveResult)
      requires Valid() && IsLeafPath(T(), cursor)
      requires Top(cursor).1 < |pager.pages[Top(cursor).0].cells|
      modifies this, pager
      ensures r == AssertFailed <==> asserts && old(UnderflowsAsLast(T(), cfg, cursor))
      ensures Ready() && StoreOk(pager.pages, cells, chains)
      ensures AsideKept(old(T()), T()) && RootLeafAfter(old(T()), T(), false)
      ensures var key := old(pager.pages[Top(cursor).0].cells[Top(cursor).1].key);
              && key in old(Map())
              && Contents(pager.pages, cells, chains) == old(Map()) - {key}
              && (r == Removed ==> Valid() && CursorAfterRemove(key))
    {
      ghost var t := T();
      RootIsTop(t, cursor);
      var p, key := DropCurrent();
      ghost var u := T();
      if |pager.pages[p].cells| >= cfg.leafMin {
        var found := MoveToKey(key);
        assert !found;
        return Removed;
      }
      if p == root {
        assert cursor == [];
        if |pager.pages[p].cells| == 0 {
          return Removed;
        }
      } else {
        r := RepairStored(p);
        AsideTrans(t, u, T());
        if r == AssertFailed {
          return;
        }
      }
      var found := MoveToKey(key);
      assert !found;
      return Removed;
    }

    /** Takes the cell under the cursor out of its leaf, and the leaf off the stack. */
    method DropCurrent() returns (p: PageNo, key: Key)
      requires Valid() && IsLeafPath(T(), cursor)
      requires Top(cursor).1 < |pager.pages[Top(cursor).0].cells|
      modifies this`cursor, this`cells, this`chains, pager`pages
      ensures p == old(Top(cursor)).0 && key == old(pager.pages[Top(cursor).0].cells[Top(cursor).1].key)
      ensures cursor == Pop(old(cursor)) && (cursor == [] <==> p == root)
      ensures Ready() && StoreOk(pager.pages, cells, chains) && AsideKept(old(T()), T())
      ensures key in old(Map()) && key < KEY_LIMIT
      ensures Contents(pager.pages, cells, chains) == old(Map()) - {key}
      ensures IsLeaf(T(), p) && |pager.pages[p].cells| == |old(pager.pages)[p].cells| - 1
      ensures |pager.pages[p].cells| >= cfg.leafMin || p == root ==> WellFormed(T(), cfg)
      ensures |pager.pages[p].cells| < cfg.leafMin && p != root ==> UnderfullLeaf(T(), cfg, cursor, p)
      ensures p != root ==> SepsIn(pager.pages, Top(cursor).0) == SepsIn(old(pager.pages), Top(cursor).0)
      ensures p == root ==> (cells == map[] <==> |pager.pages[p].cells| == 0)
      ensures p != root ==> cells != map[]
    {
      DropTree(T(), cfg, cursor);
      DropStored(T(), cursor, chains);
      var curr := Top(cursor);
      cursor := Pop(cursor);
      p, key := curr.0, pager.pages[curr.0].cells[curr.1].key;
      DropAt(p, curr.1, key);
    }

    method DropAt(p: PageNo, i: nat, key: Key)
      requires pager.HasLeaf(p) && IsLeaf(T(), p) && i < |pager.pages[p].cells|
      requires pager.pages[p].cells[i].key == key && Rank(pager.pages[p].cells, key) == i
      modifies this`cells, this`chains, pager`pages
      ensures pager.Valid() && T() == DropCell(old(T()), p, i) && chains == old(chains) - {key}
    {
      var d := pager.DeleteCell(p, key);
      assert d == Done;
      cells, chains := cells - {key}, chains - {key};
    }

    method RepairStored(p: PageNo) returns (r: RemoveResult)
      requires Ready() && |cursor| > 0 && UnderfullLeaf(T(), cfg, cursor, p) && StoreOk(pager.pages, cells, chains)
      modifies this, pager
      ensures Ready() && StoreOk(pager.pages, cells, chains) && AsideKept(old(T()), T())
      ensures r == AssertFailed <==> asserts && old(Top(cursor)).1 == SepsIn(old(pager.pages), old(Top(cursor)).0)
      ensures r == Removed ==> WellFormed(T(), cfg)
      ensures cells == old(cells) && Contents(pager.pages, cells, chains) == old(Contents(pager.pages, cells, chains))
    {
      ghost var t := T();
      r := RepairLeaf(p);
      AsideOverflow(t, T());
      StoreKept(t.pages, pager.pages, cells, chains);
    }

    /** Where a removal leaves the cursor. */
    ghost predicate CursorAfterRemove(key: Key)
      reads this, pager
      requires Valid()
    {
      if cells == map[] then cursor == []
      else
        && IsLeafPath(T(), cursor)
        && var (p, i) := Top(cursor);
        && span[p].lo <= key < span[p].hi && i == Rank(pager.pages[p].cells, key)
    }

    /** Repairs a leaf with one cell too few; the cursor leads to its parent. */
    method RepairLeaf(p: PageNo) returns (r: RemoveResult)
      requires Ready() && |cursor| > 0 && UnderfullLeaf(T(), cfg, cursor, p)
      modifies this, pager
      ensures Ready()
      ensures r == AssertFailed <==> asserts && old(Top(cursor)).1 == SepsIn(old(pager.pages), old(Top(cursor)).0)
      ensures r == Removed ==> WellFormed(T(), cfg)
      ensures cells == old(cells) && chains == old(chains)
      ensures AsideKept(old(T()), T())
    {
      ghost var stack := cursor;
      var parent := Top(cursor);
      cursor := Pop(cursor);
      var b := BorrowFromLeafSibling(parent, p, stack);
      if b == BorrowAssertFailed {
        return AssertFailed;
      }
      if b == NotBorrowed {
        MergeWithLeafSibling(parent, p, stack);
      }
      return Removed;
    }
  }

  // ---------- what the methods rely on ----------

  /** The rows are those of the map with keys below `bound`, in ascending key order. */
  ghost predicate ListsBelow(rows: seq<(Key, seq<Byte>)>, m: map<Key, seq<Byte>>, bound: nat) {
    && (forall i, j :: 0 <= i < j < |rows| ==> rows[i].0 < rows[j].0)
    && (forall i :: 0 <= i < |rows| ==> rows[i].0 in m && m[rows[i].0] == rows[i].1 && rows[i].0 < bound)
    && (forall k :: k in m && k < bound ==> (k, m[k]) in rows)
  }

  lemma ListsMore(rows: seq<(Key, seq<Byte>)>, m: map<Key, seq<Byte>>, k: Key, next: nat)
    requires ListsBelow(rows, m, k) && k in m && k < next
    requires forall x :: x in m ==> x <= k || next <= x
    ensures ListsBelow(rows + [(k, m[k])], m, next)
  {
    var more := rows + [(k, m[k])];
    assert more[|rows|] == (k, m[k]);
    forall x | x in m && x < next
      ensures (x, m[x]) in more
    {
      if x != k { assert (x, m[x]) in rows; }
    }
  }

  /** The children next to a slot, or null pages where there are none. */
  ghost predicate NextTo(pages: PageMap, parent: (PageNo, nat), left: PageNo, right: PageNo) {
    && parent.0 in pages && pages[parent.0].NodePage? && parent.1 <= |pages[parent.0].seps|
    && left == (if parent.1 > 0 then Child(pages[parent.0], parent.1 - 1) else NULL_PAGE)
    && right == (if parent.1 < |pages[parent.0].seps| then Child(pages[parent.0], parent.1 + 1) else NULL_PAGE)
    && (parent.1 > 0 ==> left != NULL_PAGE) && (parent.1 < |pages[parent.0].seps| ==> right != NULL_PAGE)
  }

  /** Of two children of the parent, the left one went to the front of the free list and the
      right one remains. */
  ghost predicate PairMerged(pages: PageMap, free: seq<PageNo>, parent: (PageNo, nat), merged: PageNo,
                             free': seq<PageNo>) {
    && parent.0 in pages && pages[parent.0].NodePage?
    && var g := pages[parent.0];
    var i := MergeIndex(g, parent.1);
    i < |g.seps| && free' == [g.seps[i].val] + free && merged == Child(g, i + 1)
  }

  /** More pages were put in front of the free list. */
  ghost predicate Extends(longer: seq<PageNo>, free: seq<PageNo>) {
    |free| <= |longer| && longer[|longer| - |free|..] == free
  }

  lemma ExtendsMerged(pages: PageMap, free: seq<PageNo>, parent: (PageNo, nat), merged: PageNo,
                      freed: seq<PageNo>, longer: seq<PageNo>)
    requires PairMerged(pages, free, parent, merged, freed) && Extends(longer, freed)
    ensures Extends(longer, free)
  {
    assert free == longer[|longer| - |freed|..][1..];
  }

  /** The left one of the two slots that are merged: the page's own, but for the last child. */
  function MergeIndex(g: Page, slot: nat): nat
    requires g.NodePage?
  {
    if slot == |g.seps| && slot > 0 then slot - 1 else slot
  }

  /** The cells `cs` fit a page and are found in the map by their keys. */
  ghost predicate CopyReady<V>(keys: seq<Key>, cellMap: map<Key, Cell<V>>, cs: seq<Cell<V>>, capacity: nat) {
    && Sorted(cs) && |cs| <= capacity && AreKeys(keys, cs)
    && forall i :: 0 <= i < |cs| ==> cs[i].key in cellMap && cellMap[cs[i].key] == cs[i]
  }

  /** The halves of a full leaf can be hung in its place, and leave it behind. */
  lemma LeafHung(t: Tree, cfg: Config, stack: Stack, c: LeafCell, pages': PageMap, total: nat,
                 left: PageNo, right: PageNo, sep: Key) returns (u: Tree)
    requires cfg.Sound() && IsLeafPath(t, stack) && FullLeaf(t, cfg, Top(stack).0, c)
    requires FIRST_PAGE <= total && forall q :: q in t.pages ==> FIRST_PAGE < q <= total
    requires left == total + 1 && right == total + 2
    requires var p := t.pages[Top(stack).0];
             && LeavesSplit(t.pages, pages', p, InsertCell(p.cells, c), LeafHalf(cfg), left, right)
             && sep == InsertCell(p.cells, c)[LeafHalf(cfg)].key
    ensures Attachable(t, cfg, stack, pages', left, right, sep, total + 3, u)
    ensures u.cells == t.cells[c.key := c] && AsideKept(Less(t, Top(stack).0), u)
  {
    u := LeafWritten(t, cfg, stack, c, pages', total, left, right, sep);
    var p := Top(stack).0;
    LinksAreTyped(t, p);
    if |stack| > 1 {
      PathPop(t, stack);
      NotRoot(t, Top(Pop(stack)).0, Top(Pop(stack)).1);
    }
    var at := if |stack| == 1 then total + 3 else Top(Pop(stack)).0;
    var v := InsertCell(t.pages[p].cells, c);
    LeafSplitAside(t, p, pages', v, LeafHalf(cfg), left, right, total + 3, at, u);
  }

  lemma NodeHung(t: Tree, cfg: Config, stack: Stack, c: NodeCell, pages': PageMap, total: nat,
                 left: PageNo, right: PageNo, sep: Key) returns (u: Tree)
    requires cfg.Sound() && Pending(t, cfg, stack, c) && |t.pages[Top(stack).0].seps| == cfg.nodeMax
    requires FIRST_PAGE <= total && forall q :: q in t.pages ==> FIRST_PAGE < q <= total
    requires left == total + 1 && right == total + 2
    requires var p := t.pages[Top(stack).0];
             && NodesSplit(t.pages, pages', p, InsertCell(p.seps, c), NodeHalf(cfg), left, right)
             && sep == InsertCell(p.seps, c)[NodeHalf(cfg)].key
    ensures Attachable(t, cfg, stack, pages', left, right, sep, total + 3, u)
    ensures u.cells == t.cells && AsideKept(Less(t, Top(stack).0), u)
  {
    u := NodeWritten(t, cfg, stack, c, pages', total, left, right, sep);
    var p := Top(stack).0;
    var w := WithPending(t, stack, c);
    if |stack| > 1 {
      PathPop(w, stack);
      NotRoot(w, Top(Pop(stack)).0, Top(Pop(stack)).1);
    }
    var at := if |stack| == 1 then total + 3 else Top(Pop(stack)).0;
    var v := InsertCell(t.pages[p].seps, c);
    NodeSplitAside(t, p, pages', v, NodeHalf(cfg), left, right, total + 3, at, u);
  }

  /** Where the root is a leaf, it is the leaf under any cursor. */
  lemma RootIsTop(t: Tree, c: Stack)
    requires Shape(t) && IsLeafPath(t, c)
    ensures IsLeaf(t, t.root) ==> Top(c).0 == t.root
  {
    if |c| > 1 { assert StepOk(t, c, 0); }
  }

  lemma RootStays(t: Tree, u: Tree)
    requires Shape(u) && u.span == t.span && u.root == t.root
    ensures RootLeafAfter(t, u, false)
  {
    assert IsLeaf(u, u.root) || IsNode(u, u.root);
  }

  /** A payload was stored and then the leaf on top of the stack split. */
  lemma SplitBeside(t: Tree, stack: Stack, free: seq<PageNo>, u: Tree, chain: seq<PageNo>, payload: seq<Byte>, v: Tree,
                    chains: Chains)
    requires Shape(t) && IsLeafPath(t, stack) && v.root in v.span
    requires u == t.(pages := u.pages) && Typed(u) && NewChain(t.pages, free, u.pages, chain, payload, NULL_PAGE)
    requires NULL_PAGE !in t.pages && forall q :: q in free ==> q in t.pages && t.pages[q].FreePage?
    requires AsideKept(Less(u, Top(stack).0), v) && StoreOk(u.pages, v.cells, chains)
    ensures AsideKept(t, v) && RootLeafAfter(t, v, true)
    ensures StoreOk(v.pages, v.cells, chains)
            && Contents(v.pages, v.cells, chains) == Contents(u.pages, v.cells, chains)
  {
    var p := Top(stack).0;
    ChainAside(Less(t, p), free, u.pages, chain, payload, NULL_PAGE);
    assert Less(t, p).(pages := u.pages) == Less(u, p);
    AsideTrans(Less(t, p), Less(u, p), v);
    LessKept(t, p, v);
    RootIsTop(t, stack);
    assert IsLeaf(t, t.root) ==> Aside(Less(t, t.root), t.root);
    LessKept(u, p, v);
    AsideOverflow(u, v);
    StoreKept(u.pages, v.pages, v.cells, chains);
  }

  /** What dropping the cell under a cursor makes of the tree. */
  lemma DropTree(t: Tree, cfg: Config, stack: Stack)
    requires cfg.Sound() && WellFormed(t, cfg) && IsLeafPath(t, stack) && Top(stack).1 < |t.pages[Top(stack).0].cells|
    ensures var (p, i) := Top(stack);
            var cells := t.pages[p].cells;
            var v := DropCell(t, p, i);
            && Sorted(cells) && Rank(cells, cells[i].key) == i && cells[i].key < KEY_LIMIT
            && Shape(v) && IsLeaf(v, p) && AsideKept(t, v)
            && (Pop(stack) == [] <==> p == t.root)
            && (|cells| > cfg.leafMin || p == t.root ==> WellFormed(v, cfg))
            && (|cells| <= cfg.leafMin && p != t.root ==> UnderfullLeaf(v, cfg, Pop(stack), p))
            && (p != t.root ==> SepsIn(v.pages, Top(Pop(stack)).0) == SepsIn(t.pages, Top(Pop(stack)).0))
            && (p == t.root ==> (v.cells == map[] <==> |cells| == 1))
            && (p != t.root ==> v.cells != map[])
  {
    var (p, i) := Top(stack);
    var v := DropCell(t, p, i);
    DropFacts(t, cfg, stack);
    AsideWithin(t, v);
    if p == t.root || |t.pages[p].cells| > cfg.leafMin {
      DropStays(t, cfg, stack);
    }
    if p == t.root {
      EmptyRoot(v);
    } else {
      OtherCells(t, cfg, stack);
    }
  }

  /** What it makes of the payloads. */
  lemma DropStored(t: Tree, stack: Stack, chains: Chains)
    requires Shape(t) && IsLeafPath(t, stack) && Top(stack).1 < |t.pages[Top(stack).0].cells|
    requires StoreOk(t.pages, t.cells, chains)
    ensures var (p, i) := Top(stack);
            var k, v := t.pages[p].cells[i].key, DropCell(t, p, i);
            && k in t.cells && StoreOk(v.pages, v.cells, chains - {k})
            && Contents(v.pages, v.cells, chains - {k}) == Contents(t.pages, t.cells, chains) - {k}
  {
    var (p, i) := Top(stack);
    var v := DropCell(t, p, i);
    assert PageOk(t, p);
    StoreKept(t.pages, v.pages, t.cells, chains);
    StoreDrop(v.pages, t.cells, chains, t.pages[p].cells[i].key);
  }

  /** A leaf is taken out of the leaf list in front of `right`, which was rewritten before. */
  lemma RelinkedPages(pages: PageMap, prev: PageNo, right: PageNo, R: Page, par: PageNo, G: Page)
    requires prev != NULL_PAGE ==> prev in pages && pages[prev].LeafPage? && prev != right && prev != par
    requires right in pages && par in pages && right != par && R.LeafPage?
    ensures var written := pages[right := R][par := G];
            var linked := written[right := R.(prev := prev)];
            (if prev == NULL_PAGE then linked else linked[prev := written[prev].(next := right)])
            == Relink(pages, prev, NULL_PAGE, right, NULL_PAGE)[right := R.(prev := prev)][par := G]
  {
  }

  lemma LeafLacks(t: Tree, p: PageNo, k: Key)
    requires Shape(t) && IsLeaf(t, p) && k !in t.cells
    ensures Sorted(t.pages[p].cells) && !HasKey(t.pages[p].cells, k)
  {
    assert PageOk(t, p);
  }

  /** New chains take no page of the tree. */
  lemma ChainOutside(t: Tree, free: seq<PageNo>, pages': PageMap, chain: seq<PageNo>, payload: seq<Byte>, p: PageNo)
    requires Typed(t) && NewChain(t.pages, free, pages', chain, payload, p)
    requires forall q :: q in free ==> q in t.pages && t.pages[q].FreePage?
    ensures forall q :: q in t.span && q != p ==> q in pages' && pages'[q] == t.pages[q]
  {
    forall q | q in t.span && q != p
      ensures q in pages' && pages'[q] == t.pages[q]
    {
      assert q !in chain;
    }
  }

  lemma RoomInLeaf(t: Tree, cfg: Config, stack: Stack, c: LeafCell, free: seq<PageNo>, pages': PageMap,
                   chain: seq<PageNo>, payload: seq<Byte>)
    requires WellFormed(t, cfg) && IsLeafPath(t, stack)
    requires var p := Top(stack).0;
             && t.span[p].lo <= c.key < t.span[p].hi && c.key !in t.cells
             && |t.pages[p].cells| < cfg.leafMax
             && NewChain(t.pages, free, pages', chain, payload, p)
             && p in pages' && pages'[p] == t.pages[p].(cells := InsertCell(t.pages[p].cells, c))
    requires forall q :: q in free ==> q in t.pages && t.pages[q].FreePage?
    ensures var u := Tree(pages', t.span, t.root, t.cells[c.key := c]);
            WellFormed(u, cfg) && IsPath(u, stack) && IsLeaf(u, Top(stack).0)
  {
    var p := Top(stack).0;
    AddCellShape(t, p, c);
    var v := AddCell(t, p, c);
    OccupiedFrame(t, v, cfg, {}, {p});
    assert Occupied(t, cfg, p);
    assert Occupied(v, cfg, p);
    OccupiedAdd(v, cfg, {p}, p);
    OccupiedMore(v, cfg, {p} - {p}, {});
    ChainOutside(t, free, pages', chain, payload, p);
    FrameTree(v, cfg, {}, pages');
    SamePath(t, v.(pages := pages'), stack);
  }

  /** A key and its payload are in a leaf that had room: what became of tree and payloads. */
  lemma AddedInLeaf(t: Tree, cfg: Config, stack: Stack, key: Key, free: seq<PageNo>, pages': PageMap,
                    chain: seq<PageNo>, payload: seq<Byte>, chains: Chains)
    requires WellFormed(t, cfg) && IsLeafPath(t, stack) && StoreOk(t.pages, t.cells, chains)
    requires var (p, i) := Top(stack);
             var c := Cell(key, RecordOf(payload, chain));
             && t.span[p].lo <= key < t.span[p].hi && key !in t.cells && i == Rank(t.pages[p].cells, key)
             && |t.pages[p].cells| < cfg.leafMax
             && NewChain(t.pages, free, pages', chain, payload, p)
             && p in pages' && pages'[p] == t.pages[p].(cells := InsertCell(t.pages[p].cells, c))
    requires forall q :: q in free ==> q in t.pages && t.pages[q].FreePage?
    ensures var (p, i) := Top(stack);
            var u := Tree(pages', t.span, t.root, t.cells[key := Cell(key, RecordOf(payload, chain))]);
            && WellFormed(u, cfg) && IsLeafPath(u, stack)
            && i < |pages'[p].cells| && pages'[p].cells[i].key == key
            && AsideKept(t, u) && RootLeafAfter(t, u, false)
            && StoreOk(u.pages, u.cells, chains[key := chain])
            && Contents(u.pages, u.cells, chains[key := chain])
               == Contents(t.pages, t.cells, chains)[key := Stored(payload)]
  {
    var p := Top(stack).0;
    var c := Cell(key, RecordOf(payload, chain));
    var u := Tree(pages', t.span, t.root, t.cells[key := c]);
    RoomInLeaf(t, cfg, stack, c, free, pages', chain, payload);
    StoreAdd(t.pages, free, pages', t.cells, chains, key, chain, payload, p);
    ChainAside(t, free, pages', chain, payload, p);
    AsideTrans(t, t.(pages := pages'), u);
    RootStays(t, u);
  }

  /** Storing a payload leaves the tree as it is. */
  lemma StoredAside(t: Tree, cfg: Config, stack: Stack, c: LeafCell, free: seq<PageNo>, pages': PageMap,
                    chain: seq<PageNo>, payload: seq<Byte>)
    requires WellFormed(t, cfg) && IsLeafPath(t, stack)
    requires var p := Top(stack).0;
             && t.span[p].lo <= c.key < t.span[p].hi && c.key !in t.cells
             && |t.pages[p].cells| >= cfg.leafMax
    requires NewChain(t.pages, free, pages', chain, payload, NULL_PAGE)
    requires forall q :: q in free ==> q in t.pages && t.pages[q].FreePage?
    ensures var u := t.(pages := pages');
            Shape(u) && IsLeafPath(u, stack) && FullLeaf(u, cfg, Top(stack).0, c)
  {
    assert Occupied(t, cfg, Top(stack).0);
    ChainOutside(t, free, pages', chain, payload, NULL_PAGE);
    FrameTree(t, cfg, {}, pages');
    SamePath(t, t.(pages := pages'), stack);
  }

  lemma FullLeafFacts(t: Tree, cfg: Config, stack: Stack, c: LeafCell)
    requires IsLeafPath(t, stack) && FullLeaf(t, cfg, Top(stack).0, c)
    ensures |stack| > 0
    ensures var p := Top(stack).0;
            && p in t.pages && t.pages[p].LeafPage? && LinksTyped(t, p)
            && Sorted(t.pages[p].cells) && !HasKey(t.pages[p].cells, c.key)
            && |t.pages[p].cells| == cfg.leafMax
  {
    LinksAreTyped(t, Top(stack).0);
    assert PageOk(t, Top(stack).0);
  }

  lemma LeafHas(cells: seq<LeafCell>, all: map<Key, LeafCell>, lo: nat, hi: nat, k: Key)
    requires CellsOk(cells, all, lo, hi) && lo <= k < hi
    requires forall x :: x in all ==> all[x].key == x
    ensures k in all <==> HasKey(cells, k)
  {
    if k in all {
      assert all[k] in cells;
    }
  }

  lemma HalvesSorted<V>(cells: seq<Cell<V>>, c: Cell<V>, m: nat)
    requires Sorted(cells) && !HasKey(cells, c.key) && m <= |cells|
    ensures var v := InsertCell(cells, c); Sorted(v[..m]) && Sorted(v[m..]) && Sorted(v[m + 1..])
  {
    InsertSorted(cells, c);
  }

  lemma AppendIsInsert<V>(cs: seq<Cell<V>>, i: nat)
    requires Sorted(cs) && i < |cs|
    ensures InsertCell(cs[..i], cs[i]) == cs[..i + 1] && !HasKey(cs[..i], cs[i].key)
    ensures Sorted(cs[..i])
  {
    RankUnique(cs[..i], cs[i].key, i);
  }
}
