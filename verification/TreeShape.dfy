/**
 What it means for linked pages to be a B+tree, stated page by page.

 Every page of the tree carries a ghost `Span`: its height above the leaves and the
 half-open key range it owns. All conditions are local to one page and its children,
 so an operation that touches four pages has only those four to argue about. Module
 TreeTheorems derives the usual recursive definition from the local one.
 */
module TreeShape {
  import opened Pages

  datatype Span = Span(level: nat, lo: nat, hi: nat)

  /** The pages of a file, the spans of the pages that make up the tree, its root, and the
      leaf cells the tree is meant to hold. */
  datatype Tree = Tree(pages: PageMap, span: map<PageNo, Span>, root: PageNo, cells: map<Key, LeafCell>)

  ghost predicate IsNode(t: Tree, p: PageNo) {
    FIRST_PAGE < p && p in t.span && t.span[p].level > 0 && p in t.pages && t.pages[p].NodePage?
  }

  ghost predicate IsLeaf(t: Tree, p: PageNo) {
    FIRST_PAGE < p && p in t.span && t.span[p].level == 0 && p in t.pages && t.pages[p].LeafPage?
  }

  // ---------- local conditions ----------

  ghost predicate ChildOk(t: Tree, p: PageNo, i: nat)
    requires IsNode(t, p) && i <= |t.pages[p].seps|
  {
    var g, s := t.pages[p], t.span[p];
    && Child(g, i) in t.span
    && t.span[Child(g, i)].level + 1 == s.level
    && t.span[Child(g, i)].lo == SepLo(g, s.lo, i)
    && t.span[Child(g, i)].hi == SepHi(g, s.hi, i)
  }

  ghost predicate SepsOk(seps: seq<NodeCell>, lo: nat, hi: nat) {
    && Sorted(seps)
    && forall i :: 0 <= i < |seps| ==> lo < seps[i].key < hi
  }

  ghost predicate NodeOk(t: Tree, p: PageNo)
    requires p in t.span
  {
    && IsNode(t, p)
    && SepsOk(t.pages[p].seps, t.span[p].lo, t.span[p].hi)
    && forall i :: 0 <= i <= |t.pages[p].seps| ==> ChildOk(t, p, i)
  }

  /** The leaf holds exactly the tree's cells in its range, in key order. */
  ghost predicate CellsOk(cells: seq<LeafCell>, all: map<Key, LeafCell>, lo: nat, hi: nat) {
    && Sorted(cells)
    && (forall i :: 0 <= i < |cells| ==> lo <= cells[i].key < hi)
    && (forall i :: 0 <= i < |cells| ==> cells[i].key in all && all[cells[i].key] == cells[i])
    && (forall k :: k in all && lo <= k < hi ==> all[k] in cells)
  }

  /** The leaf's neighbours in the leaf list own the ranges next to its own. */
  ghost predicate LinksOk(t: Tree, p: PageNo)
    requires IsLeaf(t, p)
  {
    var g, s := t.pages[p], t.span[p];
    && (g.next == NULL_PAGE <==> s.hi == KEY_LIMIT)
    && (g.prev == NULL_PAGE <==> s.lo == 0)
    && (g.next != NULL_PAGE ==>
          g.next in t.span && t.span[g.next].level == 0 && t.span[g.next].lo == s.hi)
    && (g.prev != NULL_PAGE ==>
          g.prev in t.span && t.span[g.prev].level == 0 && t.span[g.prev].hi == s.lo)
  }

  ghost predicate LeafOk(t: Tree, p: PageNo)
    requires p in t.span
  {
    && IsLeaf(t, p)
    && CellsOk(t.pages[p].cells, t.cells, t.span[p].lo, t.span[p].hi)
    && LinksOk(t, p)
  }

  ghost predicate PageOk(t: Tree, p: PageNo)
    requires p in t.span && t.root in t.span
  {
    && FIRST_PAGE < p
    && t.span[p].lo < t.span[p].hi <= KEY_LIMIT
    && t.span[p].level <= t.span[t.root].level
    && if t.span[p].level == 0 then LeafOk(t, p) else NodeOk(t, p)
  }

  /** Two pages of one height own disjoint ranges. */
  ghost predicate Apart(span: map<PageNo, Span>, p: PageNo, q: PageNo) {
    p in span && q in span && p != q && span[p].level == span[q].level
    ==> span[p].hi <= span[q].lo || span[q].hi <= span[p].lo
  }

  ghost predicate AllApart(span: map<PageNo, Span>) {
    forall p, q :: Apart(span, p, q)
  }

  ghost predicate Typed(t: Tree) {
    forall p :: p in t.span ==> IsLeaf(t, p) || IsNode(t, p)
  }

  ghost predicate PagesOk(t: Tree)
    requires t.root in t.span
  {
    forall p {:trigger PageOk(t, p)} :: p in t.span ==> PageOk(t, p)
  }

  /** The order and link conditions of a B+tree, without its occupancy bounds. */
  ghost predicate Shape(t: Tree) {
    && t.root in t.span
    && Typed(t)
    && t.span[t.root].lo == 0 && t.span[t.root].hi == KEY_LIMIT
    && PagesOk(t)
    && AllApart(t.span)
    && (forall k :: k in t.cells ==> k < KEY_LIMIT && t.cells[k].key == k)
  }

  // ---------- occupancy ----------

  ghost predicate Occupied(t: Tree, cfg: Config, p: PageNo)
    requires IsLeaf(t, p) || IsNode(t, p)
  {
    var g := t.pages[p];
    && (g.LeafPage? ==> |g.cells| <= cfg.leafMax && (p != t.root ==> cfg.leafMin <= |g.cells|))
    && (g.NodePage? ==> |g.seps| <= cfg.nodeMax
                        && (if p == t.root then 1 else cfg.nodeMin) <= |g.seps|)
  }

  /** Every page but those in `xs` is within its occupancy bounds. */
  ghost predicate OccupiedBut(t: Tree, cfg: Config, xs: set<PageNo>)
    requires Typed(t)
  {
    forall p {:trigger Occupied(t, cfg, p)} :: p in t.span && p !in xs ==> Occupied(t, cfg, p)
  }

  /** A well-formed B+tree. */
  ghost predicate WellFormed(t: Tree, cfg: Config) {
    Shape(t) && OccupiedBut(t, cfg, {})
  }

  // ---------- first consequences ----------

  /** A page has one parent and one slot in it. */
  lemma ChildUnique(t: Tree, p: PageNo, i: nat, q: PageNo, j: nat)
    requires Shape(t)
    requires IsNode(t, p) && i <= |t.pages[p].seps|
    requires IsNode(t, q) && j <= |t.pages[q].seps|
    requires Child(t.pages[p], i) == Child(t.pages[q], j)
    ensures p == q && i == j
  {
    assert PageOk(t, p) && PageOk(t, q);
    assert ChildOk(t, p, i) && ChildOk(t, q, j);
    ChildInside(t, p, i);
    ChildInside(t, q, j);
    assert Apart(t.span, p, q);
    assert p == q;
    var g := t.pages[p];
    if i < j {
      SepsIncrease(t, p, i, j);
      assert false;
    } else if j < i {
      SepsIncrease(t, p, j, i);
      assert false;
    }
  }

  lemma SepsIncrease(t: Tree, p: PageNo, i: nat, j: nat)
    requires IsNode(t, p) && NodeOk(t, p) && i < j <= |t.pages[p].seps|
    ensures SepLo(t.pages[p], t.span[p].lo, i) < SepLo(t.pages[p], t.span[p].lo, j)
    ensures SepHi(t.pages[p], t.span[p].hi, i) <= SepLo(t.pages[p], t.span[p].lo, j)
  {
  }

  lemma ChildInside(t: Tree, p: PageNo, i: nat)
    requires Shape(t)
    requires IsNode(t, p) && i <= |t.pages[p].seps|
    ensures var c := Child(t.pages[p], i);
            c in t.span && t.span[p].lo <= t.span[c].lo < t.span[c].hi <= t.span[p].hi
  {
    assert PageOk(t, p);
    assert ChildOk(t, p, i);
    assert PageOk(t, Child(t.pages[p], i));
  }

  /** Neighbours in the leaf list point at each other, and nobody else points at them. */
  lemma LinksMutual(t: Tree, p: PageNo)
    requires Shape(t) && IsLeaf(t, p)
    ensures var g := t.pages[p];
            && (g.next != NULL_PAGE ==> g.next != p && IsLeaf(t, g.next) && t.pages[g.next].prev == p)
            && (g.prev != NULL_PAGE ==> g.prev != p && IsLeaf(t, g.prev) && t.pages[g.prev].next == p)
  {
    assert PageOk(t, p);
    var g := t.pages[p];
    if g.next != NULL_PAGE {
      var n := g.next;
      assert PageOk(t, n);
      var b := t.pages[n].prev;
      assert PageOk(t, b);
      assert Apart(t.span, b, p);
    }
    if g.prev != NULL_PAGE {
      var n := g.prev;
      assert PageOk(t, n);
      var b := t.pages[n].next;
      assert PageOk(t, b);
      assert Apart(t.span, b, p);
    }
  }

  /** Only the pages of the tree matter to its shape. */
  lemma ShapeFrame(t: Tree, pages: PageMap)
    requires Shape(t)
    requires forall p :: p in t.span ==> p in pages && pages[p] == t.pages[p]
    ensures Shape(t.(pages := pages))
  {
    var u := t.(pages := pages);
    assert PagesOk(u) by {
      forall p | p in u.span
        ensures PageOk(u, p)
      {
        assert PageOk(t, p);
        if t.span[p].level > 0 {
          forall i | 0 <= i <= |u.pages[p].seps|
            ensures ChildOk(u, p, i)
          {
            assert ChildOk(t, p, i);
          }
        }
      }
    }
  }
}
