/**
 The split of a full page that gains one more cell, below its parent or at the root, with
 what it does to occupancy.
 */
module TreeSplits {
  import opened Pages
  import opened TreeShape
  import opened TreeSteps
  import opened TreePaths

  /** The page at slot `i` of `par` holds one cell too many. */
  ghost predicate OverfullLeaf(t: Tree, cfg: Config, par: PageNo, i: nat, left: PageNo, right: PageNo) {
    && CanSplit(t, par, i, left, right)
    && IsLeaf(t, Child(t.pages[par], i))
    && |t.pages[Child(t.pages[par], i)].cells| == cfg.leafMax + 1
    && OccupiedBut(t, cfg, {par, Child(t.pages[par], i)})
  }

  ghost predicate OverfullNode(t: Tree, cfg: Config, par: PageNo, i: nat, left: PageNo, right: PageNo) {
    && CanSplit(t, par, i, left, right)
    && IsNode(t, Child(t.pages[par], i))
    && |t.pages[Child(t.pages[par], i)].seps| == cfg.nodeMax + 1
    && OccupiedBut(t, cfg, {par, Child(t.pages[par], i)})
  }

  /** Leaves are split with the larger half on the left, nodes with the middle cell going up. */
  function LeafHalf(cfg: Config): nat {
    (cfg.leafMax + 2) / 2
  }

  function NodeHalf(cfg: Config): nat {
    (cfg.nodeMax + 1) / 2
  }

  lemma OccupiedHalves(u: Tree, cfg: Config, par: PageNo, left: PageNo, right: PageNo)
    requires Typed(u) && OccupiedBut(u, cfg, {par, left, right})
    requires left in u.span ==> Occupied(u, cfg, left)
    requires right in u.span ==> Occupied(u, cfg, right)
    ensures OccupiedBut(u, cfg, {par})
  {
    forall p | p in u.span && p != par
      ensures Occupied(u, cfg, p)
    {
    }
  }

  lemma SplitFullLeaf(t: Tree, cfg: Config, par: PageNo, i: nat, left: PageNo, right: PageNo)
    requires cfg.Sound() && OverfullLeaf(t, cfg, par, i, left, right)
    requires LinksTyped(t, Child(t.pages[par], i))
    ensures var u := SplitLeaf(t, par, i, LeafHalf(cfg), left, right);
            Shape(u) && OccupiedBut(u, cfg, {par})
  {
    var u := SplitLeaf(t, par, i, LeafHalf(cfg), left, right);
    SplitLeafShape(t, par, i, LeafHalf(cfg), left, right);
    NotRoot(t, par, i);
    OthersOccupied(t, cfg, par, i, left, right);
    assert Occupied(u, cfg, left) && Occupied(u, cfg, right);
    OccupiedHalves(u, cfg, par, left, right);
  }

  lemma OthersOccupied(t: Tree, cfg: Config, par: PageNo, i: nat, left: PageNo, right: PageNo)
    requires cfg.Sound() && OverfullLeaf(t, cfg, par, i, left, right)
    requires LinksTyped(t, Child(t.pages[par], i)) && Typed(SplitLeaf(t, par, i, LeafHalf(cfg), left, right))
    ensures OccupiedBut(SplitLeaf(t, par, i, LeafHalf(cfg), left, right), cfg, {par, left, right})
  {
    var p, u := Child(t.pages[par], i), SplitLeaf(t, par, i, LeafHalf(cfg), left, right);
    OccupiedFrame(t, u, cfg, {par, p}, {par, left, right});
  }

  lemma SplitFullNode(t: Tree, cfg: Config, par: PageNo, i: nat, left: PageNo, right: PageNo)
    requires cfg.Sound() && OverfullNode(t, cfg, par, i, left, right)
    ensures var u := SplitNode(t, par, i, NodeHalf(cfg), left, right);
            Shape(u) && OccupiedBut(u, cfg, {par})
  {
    var p := Child(t.pages[par], i);
    var u := SplitNode(t, par, i, NodeHalf(cfg), left, right);
    SplitNodeShape(t, par, i, NodeHalf(cfg), left, right);
    NotRoot(t, par, i);
    assert OccupiedBut(u, cfg, {par, left, right}) by { OccupiedFrame(t, u, cfg, {par, p}, {par, left, right}); }
    assert Occupied(u, cfg, left) && Occupied(u, cfg, right);
    OccupiedHalves(u, cfg, par, left, right);
  }

  lemma OccupiedMore(t: Tree, cfg: Config, xs: set<PageNo>, ys: set<PageNo>)
    requires Typed(t) && OccupiedBut(t, cfg, xs) && xs <= ys
    ensures OccupiedBut(t, cfg, ys)
  {
  }

  /** A child is not the root, and lies below its parent. */
  lemma NotRoot(t: Tree, par: PageNo, i: nat)
    requires Shape(t) && IsNode(t, par) && i <= |t.pages[par].seps|
    ensures Child(t.pages[par], i) != t.root && Child(t.pages[par], i) != par
    ensures Child(t.pages[par], i) in t.span && t.span[Child(t.pages[par], i)].level + 1 == t.span[par].level
  {
    assert PageOk(t, par);
    assert ChildOk(t, par, i);
  }

  // ---------- what the cursor's split methods rely on ----------

  /** The file's pages and the tree's pages are the same where the tree is. */
  ghost predicate SameOn(t: Tree, pages: PageMap) {
    forall q :: q in t.span ==> q in t.pages && q in pages && pages[q] == t.pages[q]
  }

  lemma FrameTree(t: Tree, cfg: Config, xs: set<PageNo>, pages: PageMap)
    requires Shape(t) && OccupiedBut(t, cfg, xs) && SameOn(t, pages)
    ensures Shape(t.(pages := pages)) && OccupiedBut(t.(pages := pages), cfg, xs)
  {
    ShapeFrame(t, pages);
    OccupiedFrame(t, t.(pages := pages), cfg, xs, xs);
  }

  ghost predicate FreshPair(t: Tree, left: PageNo, right: PageNo) {
    left !in t.span && right !in t.span && left != right && FIRST_PAGE < left && FIRST_PAGE < right
  }

  /** A full leaf `p` and a cell that belongs in it. */
  ghost predicate FullLeaf(t: Tree, cfg: Config, p: PageNo, c: LeafCell) {
    && WellFormed(t, cfg)
    && IsLeaf(t, p) && |t.pages[p].cells| == cfg.leafMax
    && t.span[p].lo <= c.key < t.span[p].hi && c.key !in t.cells
  }

  /** The leaf with the cell it has no room for. */
  lemma AddToFull(t: Tree, cfg: Config, stack: Stack, c: LeafCell)
    requires IsLeafPath(t, stack) && FullLeaf(t, cfg, Top(stack).0, c)
    ensures var p := Top(stack).0;
            var v := AddCell(t, p, c);
            && Shape(v) && OccupiedBut(v, cfg, {p}) && IsPath(v, stack)
            && IsLeaf(v, p) && |v.pages[p].cells| == cfg.leafMax + 1
  {
    var p := Top(stack).0;
    AddCellShape(t, p, c);
    var v := AddCell(t, p, c);
    OccupiedFrame(t, v, cfg, {}, {p});
    forall j | 0 <= j < |stack| - 1
      ensures stack[j].0 in t.pages && stack[j].0 in v.pages && v.pages[stack[j].0] == t.pages[stack[j].0]
    {
      assert StepOk(t, stack, j);
    }
    forall j | 0 <= j < |stack|
      ensures SameSpan(t, v, stack[j].0)
    {
      assert LevelOk(t, stack, j);
    }
    PathFrame(t, v, stack);
  }

  /** A leaf with one cell too many is split below a new root. */
  lemma LeafSplitAtRoot(t: Tree, cfg: Config, left: PageNo, right: PageNo, g: PageNo)
    requires cfg.Sound() && Shape(t) && OccupiedBut(t, cfg, {t.root})
    requires IsLeaf(t, t.root) && |t.pages[t.root].cells| == cfg.leafMax + 1
    requires FreshPair(t, left, right) && g !in t.span && g != left && g != right && FIRST_PAGE < g
    ensures var v := Grow(t, g);
            && IsNode(v, g) && LinksTyped(v, t.root)
            && WellFormed(SplitLeaf(v, g, 0, LeafHalf(cfg), left, right), cfg)
  {
    var p := t.root;
    var v := Grow(t, g);
    GrowShape(t, g);
    GrowOccupied(t, cfg, g, {p});
    LinksAreTyped(v, p);
    SplitFullLeaf(v, cfg, g, 0, left, right);
    var u := SplitLeaf(v, g, 0, LeafHalf(cfg), left, right);
    assert Occupied(u, cfg, g);
    OccupiedAdd(u, cfg, {g}, g);
    OccupiedMore(u, cfg, {g} - {g}, {});
  }

  /** A leaf with one cell too many is split below its parent, which gains a cell. */
  lemma LeafSplitBelow(t: Tree, cfg: Config, stack: Stack, left: PageNo, right: PageNo)
    requires cfg.Sound() && Shape(t) && IsPath(t, stack) && |stack| > 1
    requires IsLeaf(t, Top(stack).0) && OccupiedBut(t, cfg, {Top(stack).0})
    requires |t.pages[Top(stack).0].cells| == cfg.leafMax + 1
    requires FreshPair(t, left, right)
    ensures var (par, i) := Top(Pop(stack));
            && IsNode(t, par) && i <= |t.pages[par].seps| && Child(t.pages[par], i) == Top(stack).0
            && LinksTyped(t, Top(stack).0)
            && var u := SplitLeaf(t, par, i, LeafHalf(cfg), left, right);
            && Shape(u) && OccupiedBut(u, cfg, {par}) && IsPath(u, Pop(stack))
            && IsNode(u, par)
            && 1 <= (if par == t.root then 1 else cfg.nodeMin) <= |t.pages[par].seps| <= cfg.nodeMax
  {
    var p := Top(stack).0;
    PathPop(t, stack);
    var (par, i) := Top(Pop(stack));
    NotRoot(t, par, i);
    assert Occupied(t, cfg, par);
    LinksAreTyped(t, p);
    OccupiedMore(t, cfg, {p}, {par, p});
    SplitFullLeaf(t, cfg, par, i, left, right);
    var u := SplitLeaf(t, par, i, LeafHalf(cfg), left, right);
    PathKept(t, u, Pop(stack));
  }

  /** A node with one cell too many is split below a new root. */
  lemma NodeSplitAtRoot(t: Tree, cfg: Config, left: PageNo, right: PageNo, g: PageNo)
    requires cfg.Sound() && Shape(t) && OccupiedBut(t, cfg, {t.root})
    requires IsNode(t, t.root) && |t.pages[t.root].seps| == cfg.nodeMax + 1
    requires FreshPair(t, left, right) && g !in t.span && g != left && g != right && FIRST_PAGE < g
    ensures var v := Grow(t, g);
            && IsNode(v, g) && IsNode(v, t.root)
            && WellFormed(SplitNode(v, g, 0, NodeHalf(cfg), left, right), cfg)
  {
    var p := t.root;
    var v := Grow(t, g);
    GrowShape(t, g);
    GrowOccupied(t, cfg, g, {p});
    SplitFullNode(v, cfg, g, 0, left, right);
    var u := SplitNode(v, g, 0, NodeHalf(cfg), left, right);
    assert Occupied(u, cfg, g);
    OccupiedAdd(u, cfg, {g}, g);
    OccupiedMore(u, cfg, {g} - {g}, {});
  }

  /** A node with one cell too many is split below its parent, which gains a cell. */
  lemma NodeSplitBelow(t: Tree, cfg: Config, stack: Stack, left: PageNo, right: PageNo)
    requires cfg.Sound() && Shape(t) && IsPath(t, stack) && |stack| > 1
    requires IsNode(t, Top(stack).0) && OccupiedBut(t, cfg, {Top(stack).0})
    requires |t.pages[Top(stack).0].seps| == cfg.nodeMax + 1
    requires FreshPair(t, left, right)
    ensures var (par, i) := Top(Pop(stack));
            && IsNode(t, par) && i <= |t.pages[par].seps| && Child(t.pages[par], i) == Top(stack).0
            && var u := SplitNode(t, par, i, NodeHalf(cfg), left, right);
            && Shape(u) && OccupiedBut(u, cfg, {par}) && IsPath(u, Pop(stack))
            && IsNode(u, par)
            && 1 <= (if par == t.root then 1 else cfg.nodeMin) <= |t.pages[par].seps| <= cfg.nodeMax
  {
    var p := Top(stack).0;
    PathPop(t, stack);
    var (par, i) := Top(Pop(stack));
    NotRoot(t, par, i);
    assert Occupied(t, cfg, par);
    OccupiedMore(t, cfg, {p}, {par, p});
    SplitFullNode(t, cfg, par, i, left, right);
    var u := SplitNode(t, par, i, NodeHalf(cfg), left, right);
    PathKept(t, u, Pop(stack));
  }

  // ---------- from the pages that were written to the tree ----------

  /** Two new leaves hold the cells `v` and are linked between the neighbours of `g`. */
  ghost predicate LeavesSplit(pages: PageMap, pages': PageMap, g: Page, v: seq<LeafCell>, m: nat, left: PageNo,
                              right: PageNo)
    requires g.LeafPage? && m <= |v|
  {
    && left in pages' && pages'[left] == LeafPage(v[..m], g.prev, right)
    && right in pages' && pages'[right] == LeafPage(v[m..], left, g.next)
    && (g.prev != NULL_PAGE ==> g.prev in pages && pages[g.prev].LeafPage? && g.prev in pages'
                                && pages'[g.prev] == pages[g.prev].(next := left))
    && (g.next != NULL_PAGE ==> g.next in pages && pages[g.next].LeafPage? && g.next in pages'
                                && pages'[g.next] == pages[g.next].(prev := right))
    && (forall q :: q in pages && q != left && q != right && q != g.prev && q != g.next ==>
       q in pages' && pages'[q] == pages[q])
  }

  ghost predicate NodesSplit(pages: PageMap, pages': PageMap, g: Page, v: seq<NodeCell>, m: nat, left: PageNo,
                             right: PageNo)
    requires g.NodePage? && m < |v|
  {
    && left in pages' && pages'[left] == NodePage(v[..m], v[m].val)
    && right in pages' && pages'[right] == NodePage(v[m + 1..], g.right)
    && (forall q :: q in pages && q != left && q != right ==> q in pages' && pages'[q] == pages[q])
  }

  /** The halves, and a new root where there is one, take the place of page `p` in the tree. */
  ghost predicate Replaces(span: map<PageNo, Span>, span': map<PageNo, Span>, p: PageNo, left: PageNo, right: PageNo,
                           g: PageNo) {
    && p !in span'
    && forall q :: q in span' ==> q in span || q == left || q == right || q == g
  }

  /** The leaf split at the root: new leaves, then a new root. `t` has the overfull leaf. */
  lemma LeafRootWritten(t: Tree, cfg: Config, pages: PageMap, pages': PageMap, left: PageNo, right: PageNo, g: PageNo)
    returns (u: Tree)
    requires cfg.Sound() && Shape(t) && OccupiedBut(t, cfg, {t.root})
    requires IsLeaf(t, t.root) && |t.pages[t.root].cells| == cfg.leafMax + 1
    requires FreshPair(t, left, right) && g !in t.span && g != left && g != right && FIRST_PAGE < g
    requires forall q :: q in t.span && q != t.root ==> q in pages && pages[q] == t.pages[q]
    requires var p := t.pages[t.root]; var m := LeafHalf(cfg);
             LeavesSplit(pages, pages', p, p.cells, m, left, right)
    ensures var sep := t.pages[t.root].cells[LeafHalf(cfg)].key;
            && u.root == g && u.cells == t.cells
            && u.pages == pages'[g := NodePage([Cell(sep, left)], right)]
            && WellFormed(u, cfg) && Replaces(t.span, u.span, t.root, left, right, g)
  {
    LeafSplitAtRoot(t, cfg, left, right, g);
    LinksAreTyped(t, t.root);
    var v := SplitLeaf(Grow(t, g), g, 0, LeafHalf(cfg), left, right);
    var sep := t.pages[t.root].cells[LeafHalf(cfg)].key;
    var all := pages'[g := NodePage([Cell(sep, left)], right)];
    assert t.pages[t.root].prev == t.pages[t.root].next == NULL_PAGE by { assert PageOk(t, t.root); }
    assert v.pages[g].seps == [Cell(sep, left)];
    assert SameOn(v, all);
    FrameTree(v, cfg, {}, all);
    u := v.(pages := all);
  }

  /** The leaf split below a parent: new leaves, then the parent's child; the cell `up` is
      still to be put into the parent. */
  lemma LeafBelowWritten(t: Tree, cfg: Config, stack: Stack, pages: PageMap, pages': PageMap, left: PageNo,
                         right: PageNo) returns (u: Tree)
    requires cfg.Sound() && Shape(t) && IsPath(t, stack) && |stack| > 1
    requires IsLeaf(t, Top(stack).0) && OccupiedBut(t, cfg, {Top(stack).0})
    requires |t.pages[Top(stack).0].cells| == cfg.leafMax + 1
    requires FreshPair(t, left, right)
    requires forall q :: q in t.span && q != Top(stack).0 ==> q in pages && pages[q] == t.pages[q]
    requires var p := t.pages[Top(stack).0]; LeavesSplit(pages, pages', p, p.cells, LeafHalf(cfg), left, right)
    ensures var sep := t.pages[Top(stack).0].cells[LeafHalf(cfg)].key;
            ParentWritten(t, cfg, stack, pages', left, right, sep, u)
    ensures u.cells == t.cells && forall g :: Replaces(t.span, u.span, Top(stack).0, left, right, g)
  {
    LeafSplitBelow(t, cfg, stack, left, right);
    var (par, i) := Top(Pop(stack));
    var v := SplitLeaf(t, par, i, LeafHalf(cfg), left, right);
    var sep := t.pages[Top(stack).0].cells[LeafHalf(cfg)].key;
    var g := t.pages[Top(stack).0];
    LinksAreTyped(t, Top(stack).0);
    assert par != g.prev && par != g.next;
    var all := pages'[par := SplitSlot(pages'[par], i, sep, left, right)];
    forall q | q in v.span
      ensures q in v.pages && q in all && all[q] == v.pages[q]
    {
      if q != left && q != right && q != par {
        assert q in t.span && q != Top(stack).0;
      }
    }
    u := FinishBelow(t, cfg, stack, pages', left, right, sep, v);
  }

  /** The state after a split below a parent: the parent's child is `right`, and the tree `u`
      has the separator cell in front of it. */
  ghost predicate ParentWritten(t: Tree, cfg: Config, stack: Stack, pages': PageMap, left: PageNo, right: PageNo,
                                sep: Key, u: Tree)
    requires |stack| > 1
  {
    var (par, i) := Top(Pop(stack));
    && par in pages' && par in t.pages && pages'[par] == t.pages[par]
    && pages'[par].NodePage? && i <= |pages'[par].seps|
    && 1 <= (if par == t.root then 1 else cfg.nodeMin) <= |pages'[par].seps| <= cfg.nodeMax
    && Sorted(pages'[par].seps)
    && (i > 0 ==> pages'[par].seps[i - 1].key < sep)
    && (i < |pages'[par].seps| ==> sep < pages'[par].seps[i].key)
    && u.root == t.root
    && u.pages == pages'[par := WithCell(SetChild(pages'[par], i, right), i, Cell(sep, left))]
    && Shape(u) && OccupiedBut(u, cfg, {par}) && IsPath(u, Pop(stack)) && IsNode(u, par)
  }

  lemma FinishBelow(t: Tree, cfg: Config, stack: Stack, pages': PageMap, left: PageNo, right: PageNo, sep: Key, v: Tree)
    returns (u: Tree)
    requires Shape(t) && |stack| > 1
    requires var (par, i) := Top(Pop(stack));
             && IsNode(t, par) && i <= |t.pages[par].seps|
             && 1 <= (if par == t.root then 1 else cfg.nodeMin) <= |t.pages[par].seps| <= cfg.nodeMax
             && par in pages' && pages'[par] == t.pages[par]
             && Shape(v) && OccupiedBut(v, cfg, {par}) && IsPath(v, Pop(stack)) && IsNode(v, par)
             && v.root == t.root && v.cells == t.cells
             && v.pages[par] == SplitSlot(t.pages[par], i, sep, left, right)
             && SameOn(v, pages'[par := SplitSlot(pages'[par], i, sep, left, right)])
    ensures ParentWritten(t, cfg, stack, pages', left, right, sep, u)
    ensures u.cells == t.cells && u.span == v.span
  {
    var (par, i) := Top(Pop(stack));
    var all := pages'[par := SplitSlot(pages'[par], i, sep, left, right)];
    FrameTree(v, cfg, {par}, all);
    u := v.(pages := all);
    SlotBounds(t.pages[par], i, sep, left, right, v, par);
    assert PageOk(t, par);
    forall j | 0 <= j < |Pop(stack)|
      ensures SameSpan(v, u, Pop(stack)[j].0)
      ensures Pop(stack)[j].0 in v.pages && Pop(stack)[j].0 in u.pages
              && u.pages[Pop(stack)[j].0] == v.pages[Pop(stack)[j].0]
    {
      assert LevelOk(v, Pop(stack), j);
    }
    PathFrame(v, u, Pop(stack));
  }

  /** The separator of a split lies between its neighbours in the parent. */
  lemma SlotBounds(g: Page, i: nat, sep: Key, left: PageNo, right: PageNo, u: Tree, par: PageNo)
    requires g.NodePage? && i <= |g.seps|
    requires Shape(u) && IsNode(u, par) && u.pages[par] == SplitSlot(g, i, sep, left, right)
    ensures i > 0 ==> g.seps[i - 1].key < sep
    ensures i < |g.seps| ==> sep < g.seps[i].key
  {
    assert PageOk(u, par);
    var h := u.pages[par].seps;
    assert i > 0 ==> h[i - 1].key < h[i].key;
    assert i < |g.seps| ==> h[i].key < h[i + 1].key;
  }

  lemma NodeRootWritten(t: Tree, cfg: Config, pages: PageMap, pages': PageMap, left: PageNo, right: PageNo, g: PageNo)
    returns (u: Tree)
    requires cfg.Sound() && Shape(t) && OccupiedBut(t, cfg, {t.root})
    requires IsNode(t, t.root) && |t.pages[t.root].seps| == cfg.nodeMax + 1
    requires FreshPair(t, left, right) && g !in t.span && g != left && g != right && FIRST_PAGE < g
    requires forall q :: q in t.span && q != t.root ==> q in pages && pages[q] == t.pages[q]
    requires var p := t.pages[t.root]; NodesSplit(pages, pages', p, p.seps, NodeHalf(cfg), left, right)
    ensures var sep := t.pages[t.root].seps[NodeHalf(cfg)].key;
            && u.root == g && u.cells == t.cells
            && u.pages == pages'[g := NodePage([Cell(sep, left)], right)]
            && WellFormed(u, cfg) && Replaces(t.span, u.span, t.root, left, right, g)
  {
    NodeSplitAtRoot(t, cfg, left, right, g);
    var v := SplitNode(Grow(t, g), g, 0, NodeHalf(cfg), left, right);
    var sep := t.pages[t.root].seps[NodeHalf(cfg)].key;
    var all := pages'[g := NodePage([Cell(sep, left)], right)];
    assert SameOn(v, all);
    FrameTree(v, cfg, {}, all);
    u := v.(pages := all);
  }

  lemma NodeBelowWritten(t: Tree, cfg: Config, stack: Stack, pages: PageMap, pages': PageMap, left: PageNo,
                         right: PageNo) returns (u: Tree)
    requires cfg.Sound() && Shape(t) && IsPath(t, stack) && |stack| > 1
    requires IsNode(t, Top(stack).0) && OccupiedBut(t, cfg, {Top(stack).0})
    requires |t.pages[Top(stack).0].seps| == cfg.nodeMax + 1
    requires FreshPair(t, left, right)
    requires forall q :: q in t.span && q != Top(stack).0 ==> q in pages && pages[q] == t.pages[q]
    requires var p := t.pages[Top(stack).0]; NodesSplit(pages, pages', p, p.seps, NodeHalf(cfg), left, right)
    ensures var sep := t.pages[Top(stack).0].seps[NodeHalf(cfg)].key;
            ParentWritten(t, cfg, stack, pages', left, right, sep, u)
    ensures u.cells == t.cells && forall g :: Replaces(t.span, u.span, Top(stack).0, left, right, g)
  {
    NodeSplitBelow(t, cfg, stack, left, right);
    var (par, i) := Top(Pop(stack));
    NotRoot(t, par, i);
    var v := SplitNode(t, par, i, NodeHalf(cfg), left, right);
    var sep := t.pages[Top(stack).0].seps[NodeHalf(cfg)].key;
    assert par in pages' && pages'[par] == t.pages[par];
    assert SameOn(v, pages'[par := SplitSlot(pages'[par], i, sep, left, right)]);
    u := FinishBelow(t, cfg, stack, pages', left, right, sep, v);
  }

  /** Two halves are written and the tree `u` is what comes of hanging them in place of the
      page on top of the stack: under the new page `g` at the root, else under the parent. */
  ghost predicate Attachable(t: Tree, cfg: Config, stack: Stack, pages': PageMap, left: PageNo, right: PageNo, sep: Key,
                             g: PageNo, u: Tree) {
    && |stack| > 0
    && (|stack| == 1 ==>
          u.root == g && WellFormed(u, cfg)
          && u.pages == pages'[g := NodePage([Cell(sep, left)], right)])
    && (|stack| > 1 ==> ParentWritten(t, cfg, stack, pages', left, right, sep, u))
  }

  /** The halves of a full leaf are on the next two pages of the file. */
  lemma LeafWritten(t: Tree, cfg: Config, stack: Stack, c: LeafCell, pages': PageMap, total: nat,
                    left: PageNo, right: PageNo, sep: Key) returns (u: Tree)
    requires cfg.Sound() && IsLeafPath(t, stack) && FullLeaf(t, cfg, Top(stack).0, c)
    requires FIRST_PAGE <= total && forall q :: q in t.pages ==> q <= total
    requires left == total + 1 && right == total + 2
    requires var p := t.pages[Top(stack).0];
             && LeavesSplit(t.pages, pages', p, InsertCell(p.cells, c), LeafHalf(cfg), left, right)
             && sep == InsertCell(p.cells, c)[LeafHalf(cfg)].key
    ensures Attachable(t, cfg, stack, pages', left, right, sep, total + 3, u)
    ensures u.cells == t.cells[c.key := c] && Replaces(t.span, u.span, Top(stack).0, left, right, total + 3)
  {
    var g := total + 3;
    assert FreshPair(t, left, right) && g !in t.span;
    AddToFull(t, cfg, stack, c);
    var v := AddCell(t, Top(stack).0, c);
    if |stack| == 1 {
      u := LeafRootWritten(v, cfg, t.pages, pages', left, right, g);
    } else {
      u := LeafBelowWritten(v, cfg, stack, t.pages, pages', left, right);
      PathPop(t, stack);
      var par := Top(Pop(stack)).0;
      assert t.pages[par] == v.pages[par];
    }
  }

  /** The tree once cell `c` is put at the slot of the node on top of the stack. */
  ghost function WithPending(t: Tree, stack: Stack, c: NodeCell): Tree
    requires |stack| > 0 && Top(stack).0 in t.pages
    requires var g := t.pages[Top(stack).0]; g.NodePage? && Top(stack).1 <= |g.seps|
  {
    var (p, i) := Top(stack);
    t.(pages := t.pages[p := WithCell(t.pages[p], i, c)])
  }

  /** Only this one cell is missing, and the node on top of the stack may be full. */
  ghost predicate Pending(t: Tree, cfg: Config, stack: Stack, c: NodeCell) {
    && |stack| > 0 && Top(stack).0 in t.pages
    && var (p, i) := Top(stack);
    && var g := t.pages[p];
    && g.NodePage? && i <= |g.seps|
    && (if p == t.root then 1 else cfg.nodeMin) <= |g.seps| <= cfg.nodeMax
    && var v := WithPending(t, stack, c);
    && Shape(v) && OccupiedBut(v, cfg, {p}) && IsPath(v, stack) && IsNode(v, p)
  }

  lemma PendingRank(t: Tree, cfg: Config, stack: Stack, c: NodeCell)
    requires Pending(t, cfg, stack, c)
    ensures |stack| > 0 && Top(stack).0 in t.pages && t.pages[Top(stack).0].NodePage?
    ensures var (p, i) := Top(stack);
            && Sorted(t.pages[p].seps) && !HasKey(t.pages[p].seps, c.key)
            && Rank(t.pages[p].seps, c.key) == i
            && Sorted(InsertCell(t.pages[p].seps, c))
  {
    var (p, i) := Top(stack);
    var seps := t.pages[p].seps;
    assert PageOk(WithPending(t, stack, c), p);
    SortedWithout(seps, i, c);
    RankUnique(seps, c.key, i);
  }

  /** The next page numbers of the file are not part of the tree. */
  lemma PendingFresh(t: Tree, cfg: Config, stack: Stack, c: NodeCell, total: nat)
    requires Pending(t, cfg, stack, c) && FIRST_PAGE <= total
    requires forall q :: q in t.pages ==> q <= total
    ensures FreshPair(t, total + 1, total + 2) && total + 3 !in t.span
  {
    var v := WithPending(t, stack, c);
    assert Typed(v);
  }

  lemma SortedWithout<V>(s: seq<Cell<V>>, i: nat, c: Cell<V>)
    requires i <= |s| && Sorted(InsertAt(s, i, c))
    ensures Sorted(s) && !HasKey(s, c.key)
    ensures forall j :: 0 <= j < i ==> s[j].key < c.key
    ensures i < |s| ==> c.key < s[i].key
  {
    var t := InsertAt(s, i, c);
    forall a, b | 0 <= a < b < |s|
      ensures s[a].key < s[b].key
    {
      assert t[if a < i then a else a + 1].key < t[if b < i then b else b + 1].key;
    }
    forall j | 0 <= j < |s|
      ensures s[j].key < c.key <==> j < i
      ensures s[j].key != c.key
    {
      assert s[j] == t[if j < i then j else j + 1];
    }
  }

  lemma NodeWritten(t: Tree, cfg: Config, stack: Stack, c: NodeCell, pages': PageMap, total: nat,
                    left: PageNo, right: PageNo, sep: Key) returns (u: Tree)
    requires cfg.Sound() && Pending(t, cfg, stack, c) && |t.pages[Top(stack).0].seps| == cfg.nodeMax
    requires FIRST_PAGE <= total && forall q :: q in t.pages ==> q <= total
    requires left == total + 1 && right == total + 2
    requires var p := t.pages[Top(stack).0];
             && NodesSplit(t.pages, pages', p, InsertCell(p.seps, c), NodeHalf(cfg), left, right)
             && sep == InsertCell(p.seps, c)[NodeHalf(cfg)].key
    ensures Attachable(t, cfg, stack, pages', left, right, sep, total + 3, u)
    ensures u.cells == t.cells && Replaces(t.span, u.span, Top(stack).0, left, right, total + 3)
  {
    var g := total + 3;
    PendingFresh(t, cfg, stack, c, total);
    PendingRank(t, cfg, stack, c);
    var v := WithPending(t, stack, c);
    if |stack| == 1 {
      u := NodeRootWritten(v, cfg, t.pages, pages', left, right, g);
    } else {
      u := NodeBelowWritten(v, cfg, stack, t.pages, pages', left, right);
      PathPop(v, stack);
      var (par, i) := Top(Pop(stack));
      NotRoot(v, par, i);
      assert t.pages[par] == v.pages[par];
    }
  }

  /** The parent has room for the cell it gained. */
  lemma ParentFits(u: Tree, cfg: Config, par: PageNo)
    requires cfg.Sound() && Shape(u) && OccupiedBut(u, cfg, {par}) && IsNode(u, par)
    requires (if par == u.root then 1 else cfg.nodeMin) <= |u.pages[par].seps| <= cfg.nodeMax
    ensures WellFormed(u, cfg)
  {
    assert Occupied(u, cfg, par);
    OccupiedAdd(u, cfg, {par}, par);
    OccupiedMore(u, cfg, {par} - {par}, {});
  }
}
