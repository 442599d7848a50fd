/**
 Underfull pages: what a removal, a borrowed cell, a merge and a root collapse do to
 occupancy, and how the pages that were written make up the tree.
 */
module TreeMerges {
  import opened Pages
  import opened TreeShape
  import opened TreeSteps
  import opened TreePaths
  import opened TreeSplits
  import opened TreeAside

  /** Leaf `p`, at the slot on top of the stack, has one cell too few. */
  ghost predicate UnderfullLeaf(t: Tree, cfg: Config, stack: Stack, p: PageNo) {
    && Shape(t) && IsNodePath(t, stack)
    && Child(t.pages[Top(stack).0], Top(stack).1) == p
    && IsLeaf(t, p) && |t.pages[p].cells| + 1 == cfg.leafMin
    && OccupiedBut(t, cfg, {p})
  }

  /** Node `p`, at the slot on top of the stack, has one cell too few. */
  ghost predicate UnderfullNode(t: Tree, cfg: Config, stack: Stack, p: PageNo) {
    && Shape(t) && IsNodePath(t, stack)
    && Child(t.pages[Top(stack).0], Top(stack).1) == p
    && IsNode(t, p) && |t.pages[p].seps| + 1 == cfg.nodeMin
    && OccupiedBut(t, cfg, {p})
  }

  /** Children of one node are all leaves or all nodes. */
  lemma SiblingsAlike(t: Tree, par: PageNo, i: nat, j: nat)
    requires Shape(t) && IsNode(t, par) && i <= |t.pages[par].seps| && j <= |t.pages[par].seps|
    ensures var p, q := Child(t.pages[par], i), Child(t.pages[par], j);
            && (IsLeaf(t, p) <==> IsLeaf(t, q)) && (IsNode(t, p) <==> IsNode(t, q))
            && (IsLeaf(t, p) || IsNode(t, p)) && p != t.root && q != t.root && p != par && q != par
            && (i != j ==> p != q)
            && p != NULL_PAGE
  {
    NotRoot(t, par, i);
    NotRoot(t, par, j);
    if i != j && Child(t.pages[par], i) == Child(t.pages[par], j) {
      ChildUnique(t, par, i, par, j);
      assert false;
    }
  }

  // ---------- borrowing ----------

  /** A cell moves between two sibling leaves, one of which had one too few. */
  lemma ShiftLeafFixes(t: Tree, cfg: Config, par: PageNo, i: nat, m: nat, x: PageNo)
    requires cfg.Sound() && SiblingLeaves(t, par, i) && OccupiedBut(t, cfg, {x})
    requires var a, b := Child(t.pages[par], i), Child(t.pages[par], i + 1);
             var n := |t.pages[a].cells| + |t.pages[b].cells|;
             && (x == a || x == b)
             && cfg.leafMin <= m <= cfg.leafMax && cfg.leafMin <= n - m <= cfg.leafMax
    ensures WellFormed(ShiftLeaf(t, par, i, m), cfg)
  {
    var a, b := Child(t.pages[par], i), Child(t.pages[par], i + 1);
    ShiftLeafShape(t, par, i, m);
    SiblingsAlike(t, par, i, i + 1);
    var u := ShiftLeaf(t, par, i, m);
    OccupiedFrame(t, u, cfg, {x}, {a, b});
    assert Occupied(u, cfg, a) && Occupied(u, cfg, b);
    OccupiedAdd(u, cfg, {a, b}, a);
    OccupiedAdd(u, cfg, {a, b} - {a}, b);
    OccupiedMore(u, cfg, {a, b} - {a} - {b}, {});
  }

  lemma ShiftNodeFixes(t: Tree, cfg: Config, par: PageNo, i: nat, m: nat, x: PageNo)
    requires cfg.Sound() && SiblingNodes(t, par, i) && OccupiedBut(t, cfg, {x})
    requires var a, b := Child(t.pages[par], i), Child(t.pages[par], i + 1);
             var n := |t.pages[a].seps| + |t.pages[b].seps|;
             && (x == a || x == b)
             && cfg.nodeMin <= m <= cfg.nodeMax && cfg.nodeMin <= n - m <= cfg.nodeMax
    ensures WellFormed(ShiftNode(t, par, i, m), cfg)
  {
    var a, b := Child(t.pages[par], i), Child(t.pages[par], i + 1);
    ShiftNodeShape(t, par, i, m);
    SiblingsAlike(t, par, i, i + 1);
    var u := ShiftNode(t, par, i, m);
    OccupiedFrame(t, u, cfg, {x}, {a, b});
    assert Occupied(u, cfg, a) && Occupied(u, cfg, b);
    OccupiedAdd(u, cfg, {a, b}, a);
    OccupiedAdd(u, cfg, {a, b} - {a}, b);
    OccupiedMore(u, cfg, {a, b} - {a} - {b}, {});
  }

  // ---------- merging ----------

  lemma MergeLeafOccupied(t: Tree, cfg: Config, par: PageNo, i: nat, x: PageNo)
    requires cfg.Sound() && SiblingLeaves(t, par, i) && OccupiedBut(t, cfg, {x})
    requires LinksTyped(t, Child(t.pages[par], i)) && LinksTyped(t, Child(t.pages[par], i + 1))
    requires var a, b := Child(t.pages[par], i), Child(t.pages[par], i + 1);
             && (x == a || x == b)
             && cfg.leafMin <= |t.pages[a].cells| + |t.pages[b].cells| <= cfg.leafMax
    ensures var u := MergeLeaf(t, par, i); Shape(u) && OccupiedBut(u, cfg, {par})
  {
    var b := Child(t.pages[par], i + 1);
    var u := MergeLeaf(t, par, i);
    MergeLeafShape(t, par, i);
    SiblingsAlike(t, par, i, i + 1);
    OccupiedFrame(t, u, cfg, {x}, {par, b});
    assert Occupied(u, cfg, b);
    OccupiedAdd(u, cfg, {par, b}, b);
    OccupiedMore(u, cfg, {par, b} - {b}, {par});
  }

  lemma MergeNodeOccupied(t: Tree, cfg: Config, par: PageNo, i: nat, x: PageNo)
    requires cfg.Sound() && SiblingNodes(t, par, i) && OccupiedBut(t, cfg, {x})
    requires var a, b := Child(t.pages[par], i), Child(t.pages[par], i + 1);
             && (x == a || x == b)
             && cfg.nodeMin <= |t.pages[a].seps| + 1 + |t.pages[b].seps| <= cfg.nodeMax
    ensures var u := MergeNode(t, par, i); Shape(u) && OccupiedBut(u, cfg, {par})
  {
    var b := Child(t.pages[par], i + 1);
    var u := MergeNode(t, par, i);
    MergeNodeShape(t, par, i);
    SiblingsAlike(t, par, i, i + 1);
    OccupiedFrame(t, u, cfg, {x}, {par, b});
    assert Occupied(u, cfg, b);
    OccupiedAdd(u, cfg, {par, b}, b);
    OccupiedMore(u, cfg, {par, b} - {b}, {par});
  }

  /** A root without cells gives way to its child. */
  lemma CollapseOccupied(t: Tree, cfg: Config)
    requires cfg.Sound() && Shape(t) && OccupiedBut(t, cfg, {t.root}) && IsNode(t, t.root) && t.pages[t.root].seps == []
    ensures WellFormed(Collapse(t), cfg)
    ensures t.pages[t.root].right in t.span && t.pages[t.root].right != t.root
  {
    CollapseShape(t);
    NotRoot(t, t.root, 0);
    var u := Collapse(t);
    OccupiedFrame(t, u, cfg, {t.root}, {u.root});
    assert Occupied(t, cfg, u.root);
    assert Occupied(u, cfg, u.root);
    OccupiedAdd(u, cfg, {u.root}, u.root);
    OccupiedMore(u, cfg, {u.root} - {u.root}, {});
  }

  /** What is left after a merge below `par`: done, a root to collapse, or an underfull node. */
  ghost predicate Merged(u: Tree, cfg: Config, stack: Stack) {
    && IsNodePath(u, stack)
    && Shape(u) && OccupiedBut(u, cfg, {Top(stack).0})
    && |u.pages[Top(stack).0].seps| + 1 >= (if Top(stack).0 == u.root then 1 else cfg.nodeMin)
    && |u.pages[Top(stack).0].seps| <= cfg.nodeMax
  }

  /** The pages that left the tree may change. */
  lemma MergedFrame(u: Tree, cfg: Config, stack: Stack, pages: PageMap)
    requires Merged(u, cfg, stack) && SameOn(u, pages)
    ensures Merged(u.(pages := pages), cfg, stack)
  {
    FrameTree(u, cfg, {Top(stack).0}, pages);
    SamePath(u, u.(pages := pages), stack);
  }

  lemma MergedFreed(u: Tree, cfg: Config, stack: Stack, a: PageNo, free: Page)
    requires Merged(u, cfg, stack) && a !in u.span
    ensures Merged(u.(pages := u.pages[a := free]), cfg, stack)
  {
    MergedFrame(u, cfg, stack, u.pages[a := free]);
  }

  lemma MergedDone(u: Tree, cfg: Config, stack: Stack)
    requires cfg.Sound() && Merged(u, cfg, stack)
    requires |u.pages[Top(stack).0].seps| >= (if Top(stack).0 == u.root then 1 else cfg.nodeMin)
    ensures WellFormed(u, cfg)
  {
    ParentFits(u, cfg, Top(stack).0);
  }

  lemma MergedUnderfull(u: Tree, cfg: Config, stack: Stack)
    requires cfg.Sound() && Merged(u, cfg, stack)
    requires Top(stack).0 != u.root && |u.pages[Top(stack).0].seps| < cfg.nodeMin
    ensures |stack| > 1 && UnderfullNode(u, cfg, Pop(stack), Top(stack).0)
  {
    PathPop(u, stack);
  }

  /** The merged leaf tree, seen from the stack that led to the parent. */
  lemma MergeLeafBelow(t: Tree, cfg: Config, stack: Stack, i: nat, x: PageNo)
    requires cfg.Sound() && Shape(t) && IsNodePath(t, stack) && OccupiedBut(t, cfg, {x})
    requires var par := Top(stack).0;
             && SiblingLeaves(t, par, i)
             && (x == Child(t.pages[par], i) || x == Child(t.pages[par], i + 1))
             && cfg.leafMin <= |t.pages[Child(t.pages[par], i)].cells|
                + |t.pages[Child(t.pages[par], i + 1)].cells| <= cfg.leafMax
             && LinksTyped(t, Child(t.pages[par], i)) && LinksTyped(t, Child(t.pages[par], i + 1))
    ensures var par := Top(stack).0;
            var u := MergeLeaf(t, par, i);
            Merged(u, cfg, Pop(stack) + [(par, i)])
  {
    var par := Top(stack).0;
    MergeLeafOccupied(t, cfg, par, i, x);
    var u := MergeLeaf(t, par, i);
    SiblingsAlike(t, par, i, i + 1);
    NotRoot(t, par, i);
    NotRoot(t, par, i + 1);
    assert Occupied(t, cfg, par);
    PathKept(t, u, stack);
    PathMove(u, stack, i);
  }

  lemma MergeNodeBelow(t: Tree, cfg: Config, stack: Stack, i: nat, x: PageNo)
    requires cfg.Sound() && Shape(t) && IsNodePath(t, stack) && OccupiedBut(t, cfg, {x})
    requires var par := Top(stack).0;
             && SiblingNodes(t, par, i)
             && (x == Child(t.pages[par], i) || x == Child(t.pages[par], i + 1))
             && cfg.nodeMin <= |t.pages[Child(t.pages[par], i)].seps| + 1
                + |t.pages[Child(t.pages[par], i + 1)].seps| <= cfg.nodeMax
    ensures var par := Top(stack).0;
            var u := MergeNode(t, par, i);
            Merged(u, cfg, Pop(stack) + [(par, i)])
  {
    var par := Top(stack).0;
    MergeNodeOccupied(t, cfg, par, i, x);
    var u := MergeNode(t, par, i);
    SiblingsAlike(t, par, i, i + 1);
    NotRoot(t, par, i);
    NotRoot(t, par, i + 1);
    assert Occupied(t, cfg, par);
    PathKept(t, u, stack);
    PathMove(u, stack, i);
  }

  // ---------- cells of siblings ----------

  lemma LastMoves<V>(a: seq<Cell<V>>, b: seq<Cell<V>>)
    requires Sorted(a + b) && a != []
    ensures var m := |a| - 1;
            && (a + b)[..m] == RemoveAt(a, m) && (a + b)[m..] == InsertCell(b, a[m])
            && Rank(a, a[m].key) == m && !HasKey(b, a[m].key)
  {
    SortedParts(a, b);
    RankUnique(a, a[|a| - 1].key, |a| - 1);
    RankUnique(b, a[|a| - 1].key, 0);
    LastSplits(a, b);
  }

  lemma LastSplits<V>(a: seq<Cell<V>>, b: seq<Cell<V>>)
    requires a != []
    ensures var m := |a| - 1;
            (a + b)[..m] == RemoveAt(a, m) && (a + b)[m..] == InsertAt(b, 0, a[m])
  {
    var m := |a| - 1;
    assert (a + b)[..m] == a[..m];
    assert (a + b)[m..] == [a[m]] + b;
  }

  lemma FirstMoves<V>(a: seq<Cell<V>>, b: seq<Cell<V>>)
    requires Sorted(a + b) && b != []
    ensures var m := |a| + 1;
            && (a + b)[..m] == InsertCell(a, b[0]) && (a + b)[m..] == RemoveAt(b, 0)
            && Rank(b, b[0].key) == 0 && !HasKey(a, b[0].key)
  {
    SortedParts(a, b);
    RankUnique(b, b[0].key, 0);
    RankUnique(a, b[0].key, |a|);
    FirstSplits(a, b);
  }

  lemma FirstSplits<V>(a: seq<Cell<V>>, b: seq<Cell<V>>)
    requires b != []
    ensures var m := |a| + 1;
            (a + b)[..m] == InsertAt(a, |a|, b[0]) && (a + b)[m..] == RemoveAt(b, 0)
  {
    assert (a + b)[..|a| + 1] == a + [b[0]];
    assert (a + b)[|a| + 1..] == b[1..];
  }

  /** The parts of a sorted list are sorted, and all of the first come before all of the second. */
  lemma SortedParts<V>(a: seq<Cell<V>>, b: seq<Cell<V>>)
    requires Sorted(a + b)
    ensures Sorted(a) && Sorted(b)
    ensures forall i, j :: 0 <= i < |a| && 0 <= j < |b| ==> a[i].key < b[j].key
  {
    var all := a + b;
    forall i, j | 0 <= i < j < |b|
      ensures b[i].key < b[j].key
    {
      assert all[|a| + i] == b[i] && all[|a| + j] == b[j];
    }
    forall i, j | 0 <= i < |a| && 0 <= j < |b|
      ensures a[i].key < b[j].key
    {
      assert all[i] == a[i] && all[|a| + j] == b[j];
    }
    forall i, j | 0 <= i < j < |a|
      ensures a[i].key < a[j].key
    {
      assert all[i] == a[i] && all[j] == a[j];
    }
  }

  lemma PartsSorted<V>(a: seq<Cell<V>>, b: seq<Cell<V>>)
    requires Sorted(a) && Sorted(b)
    requires forall i, j :: 0 <= i < |a| && 0 <= j < |b| ==> a[i].key < b[j].key
    ensures Sorted(a + b)
  {
  }

  /** Writing the cells of the left page into the right one, one by one. */
  lemma PrependNext<V>(a: seq<Cell<V>>, b: seq<Cell<V>>, n: nat)
    requires Sorted(a + b) && n < |a|
    ensures InsertCell(a[..n] + b, a[n]) == a[..n + 1] + b
    ensures Sorted(a[..n] + b) && !HasKey(a[..n] + b, a[n].key)
  {
    var front := a[..n];
    SortedParts(a, b);
    assert forall i :: 0 <= i < n ==> front[i] == a[i];
    PartsSorted(front, b);
    RankBetween(front, b, a[n].key);
    assert InsertAt(front + b, n, a[n]) == front + [a[n]] + b;
    assert a[..n + 1] == front + [a[n]];
  }

  lemma RankBetween<V>(a: seq<Cell<V>>, b: seq<Cell<V>>, k: Key)
    requires forall i :: 0 <= i < |a| ==> a[i].key < k
    requires forall i :: 0 <= i < |b| ==> k < b[i].key
    ensures Rank(a + b, k) == |a| && !HasKey(a + b, k)
  {
    RankUnique(a + b, k, |a|);
  }

  /** The cells of two sibling leaves, in order. */
  lemma LeafPairSorted(t: Tree, par: PageNo, i: nat)
    requires SiblingLeaves(t, par, i)
    ensures Sorted(t.pages[Child(t.pages[par], i)].cells + t.pages[Child(t.pages[par], i + 1)].cells)
    ensures Sorted(t.pages[Child(t.pages[par], i)].cells) && Sorted(t.pages[Child(t.pages[par], i + 1)].cells)
    ensures Sorted(t.pages[par].seps) && Rank(t.pages[par].seps, t.pages[par].seps[i].key) == i
    ensures t.pages[Child(t.pages[par], i)].next == Child(t.pages[par], i + 1)
    ensures t.pages[Child(t.pages[par], i + 1)].prev == Child(t.pages[par], i)
    ensures LinksTyped(t, Child(t.pages[par], i)) && LinksTyped(t, Child(t.pages[par], i + 1))
  {
    MergePair(t, par, i);
    var a, b := Child(t.pages[par], i), Child(t.pages[par], i + 1);
    assert PageOk(t, a) && PageOk(t, b) && PageOk(t, par);
    JoinCellsOk(t.pages[a].cells, t.pages[b].cells, t.cells, t.span[a].lo, t.span[b].lo, t.span[b].hi);
    LeavesAdjacent(t, a, b);
    LinksAreTyped(t, a);
    LinksAreTyped(t, b);
    RankUnique(t.pages[par].seps, t.pages[par].seps[i].key, i);
  }

  /** The cells of two sibling nodes with the separator between them, in order. */
  lemma NodePairSorted(t: Tree, par: PageNo, i: nat)
    requires SiblingNodes(t, par, i)
    ensures var A, B := t.pages[Child(t.pages[par], i)], t.pages[Child(t.pages[par], i + 1)];
            && Sorted(JoinSeps(A, t.pages[par].seps[i].key, B)) && Sorted(A.seps) && Sorted(B.seps)
    ensures Sorted(t.pages[par].seps) && Rank(t.pages[par].seps, t.pages[par].seps[i].key) == i
  {
    MergePair(t, par, i);
    var a, b := Child(t.pages[par], i), Child(t.pages[par], i + 1);
    assert PageOk(t, a) && PageOk(t, b) && PageOk(t, par);
    RankUnique(t.pages[par].seps, t.pages[par].seps[i].key, i);
    var A, B, sep := t.pages[a].seps, t.pages[b].seps, t.pages[par].seps[i].key;
    JoinSorted(A, Cell(sep, t.pages[a].right), B);
  }

  lemma JoinSorted<V>(a: seq<Cell<V>>, c: Cell<V>, b: seq<Cell<V>>)
    requires Sorted(a) && Sorted(b)
    requires forall i :: 0 <= i < |a| ==> a[i].key < c.key
    requires forall i :: 0 <= i < |b| ==> c.key < b[i].key
    ensures Sorted(a + [c] + b)
  {
  }

  // ---------- from the pages that were written to the tree ----------

  /** Page `curr`, at the slot on top of the stack, lacks a cell; `sibling` is next to it, on the
      left or on the right, and `sep` is the cell of their parent between them. */
  ghost predicate BorrowSite(t: Tree, cfg: Config, stack: Stack, curr: PageNo, sibling: PageNo, sep: (PageNo, nat),
                             isLeft: bool) {
    && (UnderfullLeaf(t, cfg, stack, curr) || UnderfullNode(t, cfg, stack, curr))
    && sep.0 == Top(stack).0 && sep.1 < |t.pages[sep.0].seps|
    && (if isLeft then sep.1 + 1 == Top(stack).1 else sep.1 == Top(stack).1)
    && sibling == Child(t.pages[sep.0], if isLeft then sep.1 else sep.1 + 1)
  }

  ghost predicate LeafSiblingsMinimal(t: Tree, cfg: Config, parent: (PageNo, nat)) {
    && parent.0 in t.pages && t.pages[parent.0].NodePage? && parent.1 <= |t.pages[parent.0].seps|
    && (parent.1 > 0 ==> CellsIn(t.pages, Child(t.pages[parent.0], parent.1 - 1)) <= cfg.leafMin)
    && (parent.1 < |t.pages[parent.0].seps| ==> CellsIn(t.pages, Child(t.pages[parent.0], parent.1 + 1)) <= cfg.leafMin)
  }

  ghost predicate NodeSiblingsMinimal(t: Tree, cfg: Config, parent: (PageNo, nat)) {
    && parent.0 in t.pages && t.pages[parent.0].NodePage? && parent.1 <= |t.pages[parent.0].seps|
    && (parent.1 > 0 ==> SepsIn(t.pages, Child(t.pages[parent.0], parent.1 - 1)) <= cfg.nodeMin)
    && (parent.1 < |t.pages[parent.0].seps| ==> SepsIn(t.pages, Child(t.pages[parent.0], parent.1 + 1)) <= cfg.nodeMin)
  }

  /** The two pages below slots `i` and `i + 1` and their parent are three. */
  ghost predicate ThreePages(t: Tree, par: PageNo, i: nat, a: PageNo, b: PageNo) {
    && IsNode(t, par) && i < |t.pages[par].seps|
    && a == Child(t.pages[par], i) && b == Child(t.pages[par], i + 1)
    && a != b && a != par && b != par && a != NULL_PAGE && b != NULL_PAGE
    && Sorted(t.pages[par].seps) && Rank(t.pages[par].seps, t.pages[par].seps[i].key) == i
  }

  lemma LeafShiftRight(t: Tree, cfg: Config, par: PageNo, i: nat) returns (u: Tree)
    requires cfg.Sound() && SiblingLeaves(t, par, i) && OccupiedBut(t, cfg, {Child(t.pages[par], i + 1)})
    requires var a, b := Child(t.pages[par], i), Child(t.pages[par], i + 1);
             |t.pages[b].cells| + 1 == cfg.leafMin < |t.pages[a].cells|
    ensures var a, b := Child(t.pages[par], i), Child(t.pages[par], i + 1);
            var A, B := t.pages[a], t.pages[b]; var n := |A.cells| - 1;
            && ThreePages(t, par, i, a, b)
            && Sorted(A.cells) && Sorted(B.cells) && !HasKey(B.cells, A.cells[n].key)
            && Rank(A.cells, A.cells[n].key) == n
            && u.pages == t.pages[a := A.(cells := RemoveAt(A.cells, n))]
                                 [b := B.(cells := InsertCell(B.cells, A.cells[n]))]
                                 [par := SetKey(t.pages[par], i, A.cells[n].key)]
            && u.root == t.root && u.cells == t.cells && WellFormed(u, cfg) && AsideKept(t, u)
  {
    var a, b := Child(t.pages[par], i), Child(t.pages[par], i + 1);
    var n := |t.pages[a].cells| - 1;
    SiblingsAlike(t, par, i, i + 1);
    LeafPairSorted(t, par, i);
    LastMoves(t.pages[a].cells, t.pages[b].cells);
    assert Occupied(t, cfg, a);
    ShiftLeafFixes(t, cfg, par, i, n, b);
    ShiftLeafAside(t, par, i, n);
    u := ShiftLeaf(t, par, i, n);
    assert (t.pages[a].cells + t.pages[b].cells)[n] == t.pages[a].cells[n];
  }

  lemma LeafShiftLeft(t: Tree, cfg: Config, par: PageNo, i: nat) returns (u: Tree)
    requires cfg.Sound() && SiblingLeaves(t, par, i) && OccupiedBut(t, cfg, {Child(t.pages[par], i)})
    requires var a, b := Child(t.pages[par], i), Child(t.pages[par], i + 1);
             |t.pages[a].cells| + 1 == cfg.leafMin < |t.pages[b].cells|
    ensures var a, b := Child(t.pages[par], i), Child(t.pages[par], i + 1);
            var A, B := t.pages[a], t.pages[b];
            && ThreePages(t, par, i, a, b)
            && Sorted(A.cells) && Sorted(B.cells) && !HasKey(A.cells, B.cells[0].key)
            && Rank(B.cells, B.cells[0].key) == 0
            && u.pages == t.pages[b := B.(cells := RemoveAt(B.cells, 0))]
                                 [a := A.(cells := InsertCell(A.cells, B.cells[0]))]
                                 [par := SetKey(t.pages[par], i, B.cells[1].key)]
            && u.root == t.root && u.cells == t.cells && WellFormed(u, cfg) && AsideKept(t, u)
  {
    var a, b := Child(t.pages[par], i), Child(t.pages[par], i + 1);
    var m := |t.pages[a].cells| + 1;
    SiblingsAlike(t, par, i, i + 1);
    LeafPairSorted(t, par, i);
    FirstMoves(t.pages[a].cells, t.pages[b].cells);
    assert Occupied(t, cfg, b);
    ShiftLeafFixes(t, cfg, par, i, m, a);
    ShiftLeafAside(t, par, i, m);
    u := ShiftLeaf(t, par, i, m);
    assert (t.pages[a].cells + t.pages[b].cells)[m] == t.pages[b].cells[1];
  }

  /** The last child of the left node moves over, through the parent. */
  lemma NodeShiftRight(t: Tree, cfg: Config, par: PageNo, i: nat) returns (u: Tree)
    requires cfg.Sound() && SiblingNodes(t, par, i) && OccupiedBut(t, cfg, {Child(t.pages[par], i + 1)})
    requires var a, b := Child(t.pages[par], i), Child(t.pages[par], i + 1);
             |t.pages[b].seps| + 1 == cfg.nodeMin < |t.pages[a].seps|
    ensures var a, b := Child(t.pages[par], i), Child(t.pages[par], i + 1);
            var A, B := t.pages[a], t.pages[b]; var n := |A.seps| - 1; var s := Cell(t.pages[par].seps[i].key, A.right);
            && ThreePages(t, par, i, a, b)
            && Sorted(A.seps) && Sorted(B.seps) && !HasKey(B.seps, s.key) && Rank(A.seps, A.seps[n].key) == n
            && u.pages == t.pages[a := NodePage(RemoveAt(A.seps, n), A.seps[n].val)]
                                 [par := SetKey(t.pages[par], i, A.seps[n].key)]
                                 [b := NodePage(InsertCell(B.seps, s), B.right)]
            && u.root == t.root && u.cells == t.cells && WellFormed(u, cfg) && AsideKept(t, u)
  {
    var a, b := Child(t.pages[par], i), Child(t.pages[par], i + 1);
    var A, B := t.pages[a], t.pages[b];
    var n, s := |A.seps| - 1, Cell(t.pages[par].seps[i].key, A.right);
    SiblingsAlike(t, par, i, i + 1);
    NodePairSorted(t, par, i);
    RotateRight(A.seps, s, B.seps);
    assert Occupied(t, cfg, a);
    ShiftNodeFixes(t, cfg, par, i, n, b);
    ShiftNodeAside(t, par, i, n);
    u := ShiftNode(t, par, i, n);
  }

  lemma RotateRight<V>(a: seq<Cell<V>>, s: Cell<V>, b: seq<Cell<V>>)
    requires Sorted(a + [s] + b) && a != []
    ensures var all := a + [s] + b; var n := |a| - 1;
            && all[..n] == RemoveAt(a, n) && all[n] == a[n] && all[n + 1..] == InsertCell(b, s)
            && Rank(a, a[n].key) == n && !HasKey(b, s.key)
  {
    RotateRanks(a, s, b);
    RotateSplits(a, s, b);
  }

  lemma RotateRanks<V>(a: seq<Cell<V>>, s: Cell<V>, b: seq<Cell<V>>)
    requires Sorted(a + [s] + b)
    ensures a != [] ==> Rank(a, a[|a| - 1].key) == |a| - 1
    ensures Rank(b, s.key) == 0 && !HasKey(b, s.key)
    ensures Rank(a, s.key) == |a| && !HasKey(a, s.key)
    ensures b != [] ==> Rank(b, b[0].key) == 0
  {
    SortedParts(a + [s], b);
    SortedParts(a, [s]);
    assert (a + [s])[|a|] == s && [s][0] == s;
    if a != [] { RankUnique(a, a[|a| - 1].key, |a| - 1); }
    if b != [] { RankUnique(b, b[0].key, 0); }
    RankUnique(b, s.key, 0);
    RankUnique(a, s.key, |a|);
  }

  lemma RotateSplits<V>(a: seq<Cell<V>>, s: Cell<V>, b: seq<Cell<V>>)
    requires a != []
    ensures var all := a + [s] + b; var n := |a| - 1;
            all[..n] == RemoveAt(a, n) && all[n] == a[n] && all[n + 1..] == InsertAt(b, 0, s)
  {
    var all, n := a + [s] + b, |a| - 1;
    assert all[..n] == a[..n];
    assert all[n + 1..] == [s] + b;
  }

  /** The first child of the right node moves over, through the parent. */
  lemma NodeShiftLeft(t: Tree, cfg: Config, par: PageNo, i: nat) returns (u: Tree)
    requires cfg.Sound() && SiblingNodes(t, par, i) && OccupiedBut(t, cfg, {Child(t.pages[par], i)})
    requires var a, b := Child(t.pages[par], i), Child(t.pages[par], i + 1);
             |t.pages[a].seps| + 1 == cfg.nodeMin < |t.pages[b].seps|
    ensures var a, b := Child(t.pages[par], i), Child(t.pages[par], i + 1);
            var A, B := t.pages[a], t.pages[b]; var s := Cell(t.pages[par].seps[i].key, A.right);
            && ThreePages(t, par, i, a, b)
            && Sorted(A.seps) && Sorted(B.seps) && !HasKey(A.seps, s.key) && Rank(B.seps, B.seps[0].key) == 0
            && u.pages == t.pages[b := NodePage(RemoveAt(B.seps, 0), B.right)]
                                 [par := SetKey(t.pages[par], i, B.seps[0].key)]
                                 [a := NodePage(InsertCell(A.seps, s), B.seps[0].val)]
            && u.root == t.root && u.cells == t.cells && WellFormed(u, cfg) && AsideKept(t, u)
  {
    var a, b := Child(t.pages[par], i), Child(t.pages[par], i + 1);
    var A, B := t.pages[a], t.pages[b];
    var m, s := |A.seps| + 1, Cell(t.pages[par].seps[i].key, A.right);
    SiblingsAlike(t, par, i, i + 1);
    NodePairSorted(t, par, i);
    RotateLeft(A.seps, s, B.seps);
    assert Occupied(t, cfg, b);
    ShiftNodeFixes(t, cfg, par, i, m, a);
    ShiftNodeAside(t, par, i, m);
    u := ShiftNode(t, par, i, m);
  }

  lemma RotateLeft<V>(a: seq<Cell<V>>, s: Cell<V>, b: seq<Cell<V>>)
    requires Sorted(a + [s] + b) && b != []
    ensures var all := a + [s] + b; var m := |a| + 1;
            && all[..m] == InsertCell(a, s) && all[m] == b[0] && all[m + 1..] == RemoveAt(b, 0)
            && Rank(b, b[0].key) == 0 && !HasKey(a, s.key)
  {
    RotateRanks(a, s, b);
    RotateSplitsLeft(a, s, b);
  }

  lemma RotateSplitsLeft<V>(a: seq<Cell<V>>, s: Cell<V>, b: seq<Cell<V>>)
    requires b != []
    ensures var all := a + [s] + b; var m := |a| + 1;
            all[..m] == InsertAt(a, |a|, s) && all[m] == b[0] && all[m + 1..] == RemoveAt(b, 0)
  {
    var all, m := a + [s] + b, |a| + 1;
    assert all[..m] == a + [s];
    assert all[m + 1..] == b[1..];
  }

  /** Merging leaves `i` and `i + 1` of the node on top of the stack: what must hold before,
      and the tree after the left page is given back. */
  lemma LeafMergeSteps(t: Tree, cfg: Config, stack: Stack, i: nat, x: PageNo) returns (u: Tree)
    requires cfg.Sound() && UnderfullLeaf(t, cfg, stack, x) && i < |t.pages[Top(stack).0].seps|
    requires (i == Top(stack).1 || i + 1 == Top(stack).1)
    requires LeafSiblingsMinimal(t, cfg, Top(stack))
    ensures var par := Top(stack).0;
            var a, b := Child(t.pages[par], i), Child(t.pages[par], i + 1);
            && ThreePages(t, par, i, a, b)
            && IsLeaf(t, a) && IsLeaf(t, b) && LinksTyped(t, a) && LinksTyped(t, b)
            && Sorted(t.pages[a].cells + t.pages[b].cells)
            && |t.pages[a].cells| + |t.pages[b].cells| <= cfg.leafMax
            && t.pages[a].next == b && t.pages[b].prev == a && t.pages[a].prev != b
            && (t.pages[a].prev != NULL_PAGE ==> t.pages[t.pages[a].prev].next == a)
            && Sorted(t.pages[a].cells) && Sorted(t.pages[b].cells)
            && u.root == t.root && u.cells == t.cells
            && u.pages == Relink(t.pages, t.pages[a].prev, NULL_PAGE, b, NULL_PAGE)
                            [b := LeafPage(t.pages[a].cells + t.pages[b].cells, t.pages[a].prev, t.pages[b].next)]
                            [par := MergeSlot(t.pages[par], i)]
            && Merged(u, cfg, Pop(stack) + [(par, i)]) && a in t.span && a !in u.span && AsideKept(t, u)
            && (MergeSlot(t.pages[par], i).seps == [] ==> MergeSlot(t.pages[par], i).right == b)
  {
    var par := Top(stack).0;
    var a, b := Child(t.pages[par], i), Child(t.pages[par], i + 1);
    SiblingsAlike(t, par, i, i + 1);
    LeafPairSorted(t, par, i);
    LinksMutual(t, a);
    assert t.pages[a].prev != b by { assert PageOk(t, a) && PageOk(t, b); }
    assert x == a || x == b;
    assert cfg.leafMin <= |t.pages[a].cells| + |t.pages[b].cells| <= cfg.leafMax by {
      if x == a { assert Occupied(t, cfg, b); } else { assert Occupied(t, cfg, a); }
    }
    MergeLeafBelow(t, cfg, stack, i, x);
    MergeLeafAside(t, par, i);
    u := MergeLeaf(t, par, i);
    assert Child(MergeSlot(t.pages[par], i), i) == b;
  }

  lemma NodeMergeSteps(t: Tree, cfg: Config, stack: Stack, i: nat, x: PageNo) returns (u: Tree)
    requires cfg.Sound() && UnderfullNode(t, cfg, stack, x) && i < |t.pages[Top(stack).0].seps|
    requires (i == Top(stack).1 || i + 1 == Top(stack).1)
    requires NodeSiblingsMinimal(t, cfg, Top(stack))
    ensures var par := Top(stack).0;
            var a, b := Child(t.pages[par], i), Child(t.pages[par], i + 1);
            && ThreePages(t, par, i, a, b)
            && IsNode(t, a) && IsNode(t, b)
            && Sorted(JoinSeps(t.pages[a], t.pages[par].seps[i].key, t.pages[b]))
            && |t.pages[a].seps| + 1 + |t.pages[b].seps| <= cfg.nodeMax
            && Sorted(t.pages[a].seps) && Sorted(t.pages[b].seps)
            && u.root == t.root && u.cells == t.cells
            && u.pages
               == t.pages[b := NodePage(JoinSeps(t.pages[a], t.pages[par].seps[i].key, t.pages[b]), t.pages[b].right)]
                                 [par := MergeSlot(t.pages[par], i)]
            && Merged(u, cfg, Pop(stack) + [(par, i)]) && a in t.span && a !in u.span && AsideKept(t, u)
            && (MergeSlot(t.pages[par], i).seps == [] ==> MergeSlot(t.pages[par], i).right == b)
  {
    var par := Top(stack).0;
    var a, b := Child(t.pages[par], i), Child(t.pages[par], i + 1);
    SiblingsAlike(t, par, i, i + 1);
    NodePairSorted(t, par, i);
    assert x == a || x == b;
    assert cfg.nodeMin <= |t.pages[a].seps| + 1 + |t.pages[b].seps| <= cfg.nodeMax by {
      if x == a { assert Occupied(t, cfg, b); } else { assert Occupied(t, cfg, a); }
    }
    MergeNodeBelow(t, cfg, stack, i, x);
    MergeNodeAside(t, par, i);
    u := MergeNode(t, par, i);
    assert Child(MergeSlot(t.pages[par], i), i) == b;
  }

  /** A parent has a cell, so a child has a sibling. */
  lemma ParentHasCells(t: Tree, cfg: Config, stack: Stack, p: PageNo)
    requires cfg.Sound() && (UnderfullLeaf(t, cfg, stack, p) || UnderfullNode(t, cfg, stack, p))
    ensures var (par, i) := Top(stack);
            && IsNode(t, par) && 1 <= |t.pages[par].seps| && i <= |t.pages[par].seps|
            && p == Child(t.pages[par], i) && p != par && Sorted(t.pages[par].seps)
  {
    var (par, i) := Top(stack);
    NotRoot(t, par, i);
    assert PageOk(t, par);
    assert Occupied(t, cfg, par);
  }

  // ---------- dropping a cell ----------

  /** The cell on top of the stack is dropped: the tree keeps its shape, and its leaf may lack one. */
  lemma DropFacts(t: Tree, cfg: Config, stack: Stack)
    requires WellFormed(t, cfg) && IsLeafPath(t, stack) && Top(stack).1 < |t.pages[Top(stack).0].cells|
    ensures var (p, i) := Top(stack);
            var cells := t.pages[p].cells;
            var v := DropCell(t, p, i);
            && Sorted(cells) && Rank(cells, cells[i].key) == i && cells[i].key in t.cells && cells[i].key < KEY_LIMIT
            && Shape(v) && OccupiedBut(v, cfg, {p}) && IsPath(v, stack) && IsLeaf(v, p)
            && cfg.leafMin <= (if p == t.root then cfg.leafMin else |cells|) && |cells| <= cfg.leafMax
    ensures var (p, i) := Top(stack);
            p != t.root && |t.pages[p].cells| <= cfg.leafMin ==>
              |stack| > 1 && UnderfullLeaf(DropCell(t, p, i), cfg, Pop(stack), p)
    ensures |stack| > 1 <==> Top(stack).0 != t.root
    ensures |stack| > 1 ==>
              var par := Top(Pop(stack)).0;
              SepsIn(DropCell(t, Top(stack).0, Top(stack).1).pages, par) == SepsIn(t.pages, par)
  {
    var (p, i) := Top(stack);
    var v := DropCell(t, p, i);
    assert PageOk(t, p);
    if |stack| > 1 { PathPop(t, stack); }
    RankUnique(t.pages[p].cells, t.pages[p].cells[i].key, i);
    DropCellShape(t, p, i);
    OccupiedFrame(t, v, cfg, {}, {p});
    SamePath(t, v, stack);
    assert Occupied(t, cfg, p);
    if |stack| > 1 {
      PathPop(v, stack);
      assert LevelOk(t, stack, 0) && LevelOk(t, stack, |stack| - 1);
    }
  }

  /** The leaf still has enough cells, or is the root. */
  lemma DropStays(t: Tree, cfg: Config, stack: Stack)
    requires WellFormed(t, cfg) && IsLeafPath(t, stack) && Top(stack).1 < |t.pages[Top(stack).0].cells|
    requires Top(stack).0 == t.root || |t.pages[Top(stack).0].cells| > cfg.leafMin
    ensures WellFormed(DropCell(t, Top(stack).0, Top(stack).1), cfg)
  {
    var (p, i) := Top(stack);
    var v := DropCell(t, p, i);
    DropFacts(t, cfg, stack);
    assert Occupied(t, cfg, p);
    assert Occupied(v, cfg, p);
    OccupiedAdd(v, cfg, {p}, p);
    OccupiedMore(v, cfg, {p} - {p}, {});
  }

  /** A leaf below a root is not the only one, and its siblings have cells. */
  lemma OtherCells(t: Tree, cfg: Config, stack: Stack)
    requires cfg.Sound() && WellFormed(t, cfg) && IsLeafPath(t, stack) && Top(stack).0 != t.root
    requires Top(stack).1 < |t.pages[Top(stack).0].cells|
    ensures DropCell(t, Top(stack).0, Top(stack).1).cells != map[]
  {
    var (p, i) := Top(stack);
    assert LevelOk(t, stack, 0) && |stack| > 1;
    PathPop(t, stack);
    var (par, j) := Top(Pop(stack));
    assert Occupied(t, cfg, par);
    var k := if j == 0 then 1 else 0;
    SiblingsAlike(t, par, j, k);
    var q := Child(t.pages[par], k);
    assert Occupied(t, cfg, q);
    assert PageOk(t, q) && PageOk(t, p) && Apart(t.span, p, q);
    var c := t.pages[q].cells[0];
    assert c.key in t.cells && c.key != t.pages[p].cells[i].key;
    assert c.key in DropCell(t, p, i).cells;
  }

  /** A root leaf holds all cells. */
  lemma EmptyRoot(t: Tree)
    requires Shape(t) && IsLeaf(t, t.root)
    ensures t.cells == map[] <==> t.pages[t.root].cells == []
  {
    assert PageOk(t, t.root);
    var cells := t.pages[t.root].cells;
    if k :| k in t.cells {
      assert t.cells[k] in cells;
    }
    if cells != [] {
      assert cells[0].key in t.cells;
    }
  }
}
