/**
 The eight changes that every insert and remove is made of, as functions on trees, each
 with the lemma that it keeps the shape. Borrowing a cell from a sibling is a merge
 followed by a split at another point.
 */
module TreeSteps {
  import opened Pages
  import opened TreeShape

  // ---------- one cell of one leaf ----------

  ghost function AddCell(t: Tree, p: PageNo, c: LeafCell): Tree
    requires IsLeaf(t, p)
  {
    t.(pages := t.pages[p := t.pages[p].(cells := InsertCell(t.pages[p].cells, c))],
       cells := t.cells[c.key := c])
  }

  ghost function DropCell(t: Tree, p: PageNo, i: nat): Tree
    requires IsLeaf(t, p) && i < |t.pages[p].cells|
  {
    t.(pages := t.pages[p := t.pages[p].(cells := RemoveAt(t.pages[p].cells, i))],
       cells := t.cells - {t.pages[p].cells[i].key})
  }

  lemma InsertCellOk(cells: seq<LeafCell>, all: map<Key, LeafCell>, lo: nat, hi: nat, c: LeafCell)
    requires CellsOk(cells, all, lo, hi) && lo <= c.key < hi && c.key !in all
    requires forall k :: k in all ==> all[k].key == k
    ensures !HasKey(cells, c.key)
    ensures CellsOk(InsertCell(cells, c), all[c.key := c], lo, hi)
  {
    InsertSorted(cells, c);
    var r := Rank(cells, c.key);
    InsertAtOk(cells, all, all[c.key := c], lo, hi, c, r, InsertCell(cells, c));
  }

  lemma InsertAtOk(cells: seq<LeafCell>, all: map<Key, LeafCell>, all': map<Key, LeafCell>, lo: nat, hi: nat,
                   c: LeafCell, r: nat, out: seq<LeafCell>)
    requires CellsOk(cells, all, lo, hi) && lo <= c.key < hi && c.key !in all
    requires all' == all[c.key := c]
    requires r <= |cells| && out == InsertAt(cells, r, c) && Sorted(out)
    ensures CellsOk(out, all', lo, hi)
  {
    forall k | k in all' && lo <= k < hi
      ensures all'[k] in out
    {
      if k == c.key {
        assert out[r] == c;
      } else {
        assert all[k] in cells;
        var i :| 0 <= i < |cells| && cells[i] == all[k];
        assert out[if i < r then i else i + 1] == all[k];
      }
    }
  }

  lemma AddCellShape(t: Tree, p: PageNo, c: LeafCell)
    requires Shape(t) && IsLeaf(t, p)
    requires t.span[p].lo <= c.key < t.span[p].hi && c.key !in t.cells
    ensures Shape(AddCell(t, p, c))
  {
    var u := AddCell(t, p, c);
    assert c.key < KEY_LIMIT by { assert PageOk(t, p); }
    assert PagesOk(u) by {
      forall q | q in u.span
        ensures PageOk(u, q)
      {
        AddCellPage(t, p, c, q);
      }
    }
  }

  lemma AddCellPage(t: Tree, p: PageNo, c: LeafCell, q: PageNo)
    requires Shape(t) && IsLeaf(t, p)
    requires t.span[p].lo <= c.key < t.span[p].hi && c.key !in t.cells
    requires q in t.span
    ensures PageOk(AddCell(t, p, c), q)
  {
    var u := AddCell(t, p, c);
    var s := t.span[q];
    assert PageOk(t, q);
    if s.level > 0 {
      NodeKept(t, u, q);
    } else {
      assert CellsOk(u.pages[q].cells, u.cells, s.lo, s.hi) by {
        if q == p {
          InsertCellOk(t.pages[p].cells, t.cells, s.lo, s.hi, c);
        } else {
          assert Apart(t.span, p, q);
          OtherCellsOk(t.pages[q].cells, t.cells, u.cells, s.lo, s.hi, c.key);
        }
      }
      assert LinksOk(t, q);
      assert LinksOk(u, q);
    }
  }

  /** A change to the cell of a key outside the range does not concern a leaf. */
  lemma OtherCellsOk(cells: seq<LeafCell>, all: map<Key, LeafCell>, all': map<Key, LeafCell>, lo: nat, hi: nat, k: Key)
    requires CellsOk(cells, all, lo, hi) && !(lo <= k < hi)
    requires forall x :: x != k ==> (x in all <==> x in all') && (x in all ==> all[x] == all'[x])
    ensures CellsOk(cells, all', lo, hi)
  {
  }

  lemma RemoveCellOk(cells: seq<LeafCell>, all: map<Key, LeafCell>, all': map<Key, LeafCell>, lo: nat, hi: nat, i: nat)
    requires CellsOk(cells, all, lo, hi) && i < |cells|
    requires forall k :: k in all ==> all[k].key == k
    requires all' == all - {cells[i].key}
    ensures CellsOk(RemoveAt(cells, i), all', lo, hi)
  {
    var out := RemoveAt(cells, i);
    forall k | k in all' && lo <= k < hi
      ensures all'[k] in out
    {
      assert all[k] in cells;
      var j :| 0 <= j < |cells| && cells[j] == all[k];
      assert cells[j].key == k;
      assert out[if j < i then j else j - 1] == all[k];
    }
  }

  lemma DropCellShape(t: Tree, p: PageNo, i: nat)
    requires Shape(t) && IsLeaf(t, p) && i < |t.pages[p].cells|
    ensures Shape(DropCell(t, p, i))
  {
    var u := DropCell(t, p, i);
    assert PagesOk(u) by {
      forall q | q in u.span
        ensures PageOk(u, q)
      {
        DropCellPage(t, p, i, q);
      }
    }
  }

  lemma DropCellPage(t: Tree, p: PageNo, i: nat, q: PageNo)
    requires Shape(t) && IsLeaf(t, p) && i < |t.pages[p].cells|
    requires q in t.span
    ensures PageOk(DropCell(t, p, i), q)
  {
    var u := DropCell(t, p, i);
    var s := t.span[q];
    assert PageOk(t, q);
    if s.level > 0 {
      NodeKept(t, u, q);
    } else {
      assert CellsOk(u.pages[q].cells, u.cells, s.lo, s.hi) by {
        if q == p {
          RemoveCellOk(t.pages[p].cells, t.cells, u.cells, s.lo, s.hi, i);
        } else {
          assert PageOk(t, p);
          assert Apart(t.span, p, q);
          OtherCellsOk(t.pages[q].cells, t.cells, u.cells, s.lo, s.hi, t.pages[p].cells[i].key);
        }
      }
      assert LinksOk(t, q);
      assert LinksOk(u, q);
    }
  }

  lemma NodeKept(t: Tree, u: Tree, q: PageNo)
    requires q in t.span && NodeOk(t, q)
    requires u.span == t.span && q in u.pages && u.pages[q] == t.pages[q]
    ensures NodeOk(u, q)
  {
    forall i | 0 <= i <= |t.pages[q].seps|
      ensures ChildOk(u, q, i)
    {
      assert ChildOk(t, q, i);
    }
  }

  ghost predicate SameSpan(t: Tree, u: Tree, c: PageNo) {
    c in t.span && c in u.span && t.span[c] == u.span[c]
  }

  /** A node none of whose links changed stays in order. */
  lemma ChildrenKept(t: Tree, u: Tree, q: PageNo)
    requires q in t.span && NodeOk(t, q)
    requires q in u.span && u.span[q] == t.span[q] && q in u.pages && u.pages[q] == t.pages[q]
    requires forall i :: 0 <= i <= |t.pages[q].seps| ==> SameSpan(t, u, Child(t.pages[q], i))
    ensures NodeOk(u, q)
  {
    forall i | 0 <= i <= |u.pages[q].seps|
      ensures ChildOk(u, q, i)
    {
      assert ChildOk(t, q, i);
    }
  }

  // ---------- the root ----------

  /** A new root `g` with the old root as its only child. */
  ghost function Grow(t: Tree, g: PageNo): Tree
    requires t.root in t.span
  {
    t.(pages := t.pages[g := NodePage([], t.root)],
       span := t.span[g := Span(t.span[t.root].level + 1, 0, KEY_LIMIT)],
       root := g)
  }

  lemma GrowShape(t: Tree, g: PageNo)
    requires Shape(t) && g !in t.span && FIRST_PAGE < g
    ensures Shape(Grow(t, g))
  {
    var u := Grow(t, g);
    forall q | q in u.span
      ensures PageOk(u, q)
    {
      if q == g {
        assert PageOk(t, t.root);
        assert ChildOk(u, g, 0);
      } else {
        assert PageOk(t, q);
        if t.span[q].level > 0 {
          forall i | 0 <= i <= |t.pages[q].seps|
            ensures SameSpan(t, u, Child(t.pages[q], i))
          {
            assert ChildOk(t, q, i);
          }
          ChildrenKept(t, u, q);
        }
      }
    }
    forall p, q
      ensures Apart(u.span, p, q)
    {
      assert Apart(t.span, p, q);
      if p in t.span { assert PageOk(t, p); }
      if q in t.span { assert PageOk(t, q); }
    }
  }

  /** A root without cells gives way to its only child. */
  ghost function Collapse(t: Tree): Tree
    requires t.root in t.pages && t.pages[t.root].NodePage?
  {
    t.(span := t.span - {t.root}, root := t.pages[t.root].right)
  }

  lemma CollapseShape(t: Tree)
    requires Shape(t) && IsNode(t, t.root) && t.pages[t.root].seps == []
    ensures Shape(Collapse(t))
  {
    var u := Collapse(t);
    assert PageOk(t, t.root);
    assert ChildOk(t, t.root, 0);
    forall q | q in u.span
      ensures PageOk(u, q)
    {
      assert PageOk(t, q);
      assert Apart(t.span, q, t.root);
      if t.span[q].level > 0 {
        forall i | 0 <= i <= |t.pages[q].seps|
          ensures SameSpan(t, u, Child(t.pages[q], i))
        {
          assert ChildOk(t, q, i);
        }
        ChildrenKept(t, u, q);
      }
    }
    forall p, q
      ensures Apart(u.span, p, q)
    {
      assert Apart(t.span, p, q);
    }
  }

  // ---------- splitting a child ----------

  /** Child `i` of node page `g` becomes `left`, then separator `sep`, then `right`. */
  ghost function SplitSlot(g: Page, i: nat, sep: Key, left: PageNo, right: PageNo): (r: Page)
    requires g.NodePage? && i <= |g.seps|
    ensures r.NodePage? && |r.seps| == |g.seps| + 1
    ensures forall j :: 0 <= j < i ==> r.seps[j] == g.seps[j]
    ensures r.seps[i] == Cell(sep, left)
    ensures forall j :: i < j < |r.seps| ==> r.seps[j].key == g.seps[j - 1].key
    ensures forall j :: 0 <= j < i ==> Child(r, j) == Child(g, j)
    ensures Child(r, i) == left && Child(r, i + 1) == right
    ensures forall j :: i + 1 < j <= |r.seps| ==> Child(r, j) == Child(g, j - 1)
  {
    WithCell(SetChild(g, i, right), i, Cell(sep, left))
  }

  ghost function WithCell(g: Page, i: nat, c: NodeCell): Page
    requires g.NodePage? && i <= |g.seps|
  {
    g.(seps := InsertAt(g.seps, i, c))
  }

  /** What a split of page `p` under slot `i` of `par` needs: `left` and `right` are not
      otherwise part of the tree. */
  ghost predicate CanSplit(t: Tree, par: PageNo, i: nat, left: PageNo, right: PageNo) {
    && Shape(t)
    && IsNode(t, par) && i <= |t.pages[par].seps|
    && left != right && FIRST_PAGE < left && FIRST_PAGE < right
    && left !in t.span
    && (right !in t.span || right == Child(t.pages[par], i))
  }

  ghost function SplitSpan(t: Tree, p: PageNo, sep: Key, left: PageNo, right: PageNo): map<PageNo, Span>
    requires p in t.span
  {
    var s := t.span[p];
    (t.span - {p})[left := Span(s.level, s.lo, sep)][right := Span(s.level, sep, s.hi)]
  }

  lemma SplitApart(t: Tree, p: PageNo, sep: Key, left: PageNo, right: PageNo)
    requires Shape(t) && p in t.span && t.span[p].lo < sep < t.span[p].hi
    requires left != right && left !in t.span && (right !in t.span || right == p)
    ensures AllApart(SplitSpan(t, p, sep, left, right))
  {
    var span := SplitSpan(t, p, sep, left, right);
    forall a, b
      ensures Apart(span, a, b)
    {
      assert Apart(t.span, a, b);
      assert Apart(t.span, a, p);
      assert Apart(t.span, p, b);
    }
  }

  /** What any split leaves of the other nodes. */
  ghost predicate SplitsInto(t: Tree, u: Tree, par: PageNo, i: nat, sep: Key, left: PageNo, right: PageNo) {
    && CanSplit(t, par, i, left, right)
    && var p := Child(t.pages[par], i);
    && p in t.span && t.span[p].lo < sep < t.span[p].hi && p != par
    && u.span == SplitSpan(t, p, sep, left, right)
    && u.root == t.root
    && par in u.pages && u.pages[par] == SplitSlot(t.pages[par], i, sep, left, right)
    && forall q :: IsNode(t, q) && q != p && q != par ==> q in u.pages && u.pages[q] == t.pages[q]
  }

  lemma SplitSpansKept(t: Tree, u: Tree, par: PageNo, i: nat, sep: Key, left: PageNo, right: PageNo, q: PageNo, j: nat)
    requires SplitsInto(t, u, par, i, sep, left, right)
    requires IsNode(t, q) && j <= |t.pages[q].seps| && !(q == par && j == i)
    ensures SameSpan(t, u, Child(t.pages[q], j))
  {
    assert PageOk(t, q);
    assert ChildOk(t, q, j);
    if Child(t.pages[q], j) == Child(t.pages[par], i) {
      ChildUnique(t, q, j, par, i);
      assert false;
    }
  }

  lemma SplitOthersOk(t: Tree, u: Tree, par: PageNo, i: nat, sep: Key, left: PageNo, right: PageNo, q: PageNo)
    requires SplitsInto(t, u, par, i, sep, left, right)
    requires IsNode(t, q) && q != par && q != Child(t.pages[par], i)
    ensures q in u.span && u.span[q] == t.span[q] && NodeOk(u, q)
  {
    assert PageOk(t, q);
    forall j | 0 <= j <= |t.pages[q].seps|
      ensures SameSpan(t, u, Child(t.pages[q], j))
    {
      SplitSpansKept(t, u, par, i, sep, left, right, q, j);
    }
    ChildrenKept(t, u, q);
  }

  lemma SplitSlotSeps(g: Page, lo: nat, hi: nat, i: nat, sep: Key, left: PageNo, right: PageNo)
    requires g.NodePage? && SepsOk(g.seps, lo, hi) && i <= |g.seps|
    requires SepLo(g, lo, i) < sep < SepHi(g, hi, i)
    ensures SepsOk(SplitSlot(g, i, sep, left, right).seps, lo, hi)
  {
    var h := SplitSlot(g, i, sep, left, right).seps;
    forall a, b | 0 <= a < b < |h|
      ensures h[a].key < h[b].key
    {
      assert a > i ==> h[a].key == g.seps[a - 1].key;
      assert b > i ==> h[b].key == g.seps[b - 1].key;
    }
  }

  lemma SplitParentOk(t: Tree, u: Tree, par: PageNo, i: nat, sep: Key, left: PageNo, right: PageNo)
    requires SplitsInto(t, u, par, i, sep, left, right)
    ensures par in u.span && u.span[par] == t.span[par] && NodeOk(u, par)
  {
    var g, h, s := t.pages[par], u.pages[par], t.span[par];
    assert NodeOk(t, par) && ChildOk(t, par, i) by { assert PageOk(t, par); }
    assert SepsOk(h.seps, s.lo, s.hi) by { SplitSlotSeps(g, s.lo, s.hi, i, sep, left, right); }
    forall j | 0 <= j <= |h.seps|
      ensures ChildOk(u, par, j)
    {
      SplitParentChild(t, u, par, i, sep, left, right, j);
    }
  }

  lemma SplitParentChild(t: Tree, u: Tree, par: PageNo, i: nat, sep: Key, left: PageNo, right: PageNo, j: nat)
    requires SplitsInto(t, u, par, i, sep, left, right) && j <= |u.pages[par].seps|
    ensures IsNode(u, par) && u.span[par] == t.span[par] && ChildOk(u, par, j)
  {
    assert PageOk(t, par);
    assert ChildOk(t, par, i);
    if j < i {
      assert ChildOk(t, par, j);
      SplitSpansKept(t, u, par, i, sep, left, right, par, j);
    } else if j > i + 1 {
      assert ChildOk(t, par, j - 1);
      SplitSpansKept(t, u, par, i, sep, left, right, par, j - 1);
    }
  }

  ghost function SplitNode(t: Tree, par: PageNo, i: nat, m: nat, left: PageNo, right: PageNo): Tree
    requires IsNode(t, par) && i <= |t.pages[par].seps|
    requires var p := Child(t.pages[par], i);
             IsNode(t, p) && m < |t.pages[p].seps|
  {
    var p := Child(t.pages[par], i);
    var g := t.pages[p];
    var sep := g.seps[m];
    t.(pages := t.pages[left := NodePage(g.seps[..m], sep.val)]
                       [right := NodePage(g.seps[m + 1..], g.right)]
                       [par := SplitSlot(t.pages[par], i, sep.key, left, right)],
       span := SplitSpan(t, p, sep.key, left, right))
  }

  lemma SplitNodeShape(t: Tree, par: PageNo, i: nat, m: nat, left: PageNo, right: PageNo)
    requires CanSplit(t, par, i, left, right)
    requires IsNode(t, Child(t.pages[par], i)) && m < |t.pages[Child(t.pages[par], i)].seps|
    ensures Shape(SplitNode(t, par, i, m, left, right))
  {
    var p := Child(t.pages[par], i);
    var u := SplitNode(t, par, i, m, left, right);
    assert t.span[p].level + 1 == t.span[par].level <= t.span[t.root].level by {
      assert PageOk(t, par) && PageOk(t, p);
      assert ChildOk(t, par, i);
    }
    var sep := t.pages[p].seps[m].key;
    assert t.span[p].lo < sep < t.span[p].hi by { assert PageOk(t, p); }
    SplitApart(t, p, sep, left, right);
    assert SplitsInto(t, u, par, i, sep, left, right);
    assert PagesOk(u) by {
      forall q | q in u.span
        ensures PageOk(u, q)
      {
        SplitNodePage(t, u, par, i, m, left, right, q);
      }
    }
  }

  lemma SplitNodePage(t: Tree, u: Tree, par: PageNo, i: nat, m: nat, left: PageNo, right: PageNo, q: PageNo)
    requires CanSplit(t, par, i, left, right)
    requires IsNode(t, Child(t.pages[par], i)) && m < |t.pages[Child(t.pages[par], i)].seps|
    requires u == SplitNode(t, par, i, m, left, right)
    requires SplitsInto(t, u, par, i, t.pages[Child(t.pages[par], i)].seps[m].key, left, right)
    requires t.root in u.span && u.span[u.root] == t.span[t.root] && q in u.span
    ensures PageOk(u, q)
  {
    var p := Child(t.pages[par], i);
    var sep := t.pages[p].seps[m].key;
    assert PageOk(t, p);
    if q == left {
      SplitLeftOk(t, u, p, m, q);
    } else if q == right {
      SplitRightOk(t, u, p, m, q);
    } else {
      assert PageOk(t, q);
      if q == par {
        SplitParentOk(t, u, par, i, sep, left, right);
      } else if t.span[q].level > 0 {
        SplitOthersOk(t, u, par, i, sep, left, right, q);
      } else {
        assert LinksOk(t, q);
        assert LinksOk(u, q);
      }
    }
  }

  lemma SplitLeftOk(t: Tree, u: Tree, p: PageNo, m: nat, q: PageNo)
    requires IsNode(t, p) && NodeOk(t, p) && m < |t.pages[p].seps|
    requires forall c :: c in t.span && c != p ==> c in u.span && u.span[c] == t.span[c]
    requires q in u.span && u.span[q] == t.span[p].(hi := t.pages[p].seps[m].key)
    requires FIRST_PAGE < q && q in u.pages && u.pages[q] == NodePage(t.pages[p].seps[..m], t.pages[p].seps[m].val)
    ensures NodeOk(u, q)
  {
    forall j | 0 <= j <= m
      ensures ChildOk(u, q, j)
    {
      assert ChildOk(t, p, j);
    }
  }

  lemma SplitRightOk(t: Tree, u: Tree, p: PageNo, m: nat, q: PageNo)
    requires IsNode(t, p) && NodeOk(t, p) && m < |t.pages[p].seps|
    requires forall c :: c in t.span && c != p ==> c in u.span && u.span[c] == t.span[c]
    requires q in u.span && u.span[q] == t.span[p].(lo := t.pages[p].seps[m].key)
    requires FIRST_PAGE < q && q in u.pages && u.pages[q] == NodePage(t.pages[p].seps[m + 1..], t.pages[p].right)
    ensures NodeOk(u, q)
  {
    forall j | 0 <= j <= |u.pages[q].seps|
      ensures ChildOk(u, q, j)
    {
      assert ChildOk(t, p, m + 1 + j);
    }
  }

  // ---------- splitting a leaf ----------

  /** The leaf in front of a changed stretch of the leaf list points at `left`, the leaf
      behind it points back at `right`. */
  ghost function Relink(pages: PageMap, prev: PageNo, next: PageNo, left: PageNo, right: PageNo): (r: PageMap)
    requires prev != NULL_PAGE ==> prev in pages && pages[prev].LeafPage?
    requires next != NULL_PAGE ==> next in pages && pages[next].LeafPage?
    requires prev != next || prev == NULL_PAGE
    ensures r.Keys == pages.Keys
    ensures forall q :: q in pages ==>
              r[q] == if q == NULL_PAGE then pages[q]
                      else if q == prev then pages[q].(next := left)
                      else if q == next then pages[q].(prev := right) else pages[q]
  {
    var a := if prev == NULL_PAGE then pages else pages[prev := pages[prev].(next := left)];
    if next == NULL_PAGE then a else a[next := a[next].(prev := right)]
  }

  ghost predicate LinksTyped(t: Tree, p: PageNo) {
    && IsLeaf(t, p)
    && var g := t.pages[p];
    && (g.prev != NULL_PAGE ==> IsLeaf(t, g.prev) && g.prev != p)
    && (g.next != NULL_PAGE ==> IsLeaf(t, g.next) && g.next != p)
    && (g.prev != g.next || g.prev == NULL_PAGE)
  }

  lemma LinksAreTyped(t: Tree, p: PageNo)
    requires Shape(t) && IsLeaf(t, p)
    ensures LinksTyped(t, p)
  {
    LinksMutual(t, p);
    assert PageOk(t, p);
    if t.pages[p].prev != NULL_PAGE { assert PageOk(t, t.pages[p].prev); }
  }

  ghost function SplitLeaf(t: Tree, par: PageNo, i: nat, m: nat, left: PageNo, right: PageNo): Tree
    requires IsNode(t, par) && i <= |t.pages[par].seps|
    requires LinksTyped(t, Child(t.pages[par], i)) && m < |t.pages[Child(t.pages[par], i)].cells|
  {
    var p := Child(t.pages[par], i);
    var g := t.pages[p];
    var sep := g.cells[m].key;
    t.(pages := Relink(t.pages, g.prev, g.next, left, right)
                  [left := LeafPage(g.cells[..m], g.prev, right)]
                  [right := LeafPage(g.cells[m..], left, g.next)]
                  [par := SplitSlot(t.pages[par], i, sep, left, right)],
       span := SplitSpan(t, p, sep, left, right))
  }

  lemma SplitLeafShape(t: Tree, par: PageNo, i: nat, m: nat, left: PageNo, right: PageNo)
    requires CanSplit(t, par, i, left, right)
    requires LinksTyped(t, Child(t.pages[par], i)) && 0 < m < |t.pages[Child(t.pages[par], i)].cells|
    ensures Shape(SplitLeaf(t, par, i, m, left, right))
  {
    var p := Child(t.pages[par], i);
    var u := SplitLeaf(t, par, i, m, left, right);
    SplitLeafInto(t, par, i, m, left, right);
    SplitApart(t, p, t.pages[p].cells[m].key, left, right);
    assert PagesOk(u) by {
      forall q | q in u.span
        ensures PageOk(u, q)
      {
        SplitLeafPage(t, u, par, i, m, left, right, q);
      }
    }
  }

  lemma SplitLeafInto(t: Tree, par: PageNo, i: nat, m: nat, left: PageNo, right: PageNo)
    requires CanSplit(t, par, i, left, right)
    requires LinksTyped(t, Child(t.pages[par], i)) && 0 < m < |t.pages[Child(t.pages[par], i)].cells|
    ensures var u := SplitLeaf(t, par, i, m, left, right);
            && t.root in u.span && u.span[t.root] == t.span[t.root]
            && SplitsInto(t, u, par, i, t.pages[Child(t.pages[par], i)].cells[m].key, left, right)
  {
    var p := Child(t.pages[par], i);
    assert t.span[p].level + 1 == t.span[par].level <= t.span[t.root].level by {
      assert PageOk(t, par) && PageOk(t, p);
      assert ChildOk(t, par, i);
    }
    CutInside(t, p, m);
  }

  /** The key at which a leaf is cut lies inside its range. */
  lemma CutInside(t: Tree, p: PageNo, m: nat)
    requires Shape(t) && IsLeaf(t, p) && 0 < m < |t.pages[p].cells|
    ensures t.span[p].lo < t.pages[p].cells[m].key < t.span[p].hi
  {
    assert PageOk(t, p);
    assert t.span[p].lo <= t.pages[p].cells[0].key < t.pages[p].cells[m].key;
  }

  lemma SplitLeafPage(t: Tree, u: Tree, par: PageNo, i: nat, m: nat, left: PageNo, right: PageNo, q: PageNo)
    requires CanSplit(t, par, i, left, right)
    requires LinksTyped(t, Child(t.pages[par], i)) && 0 < m < |t.pages[Child(t.pages[par], i)].cells|
    requires u == SplitLeaf(t, par, i, m, left, right)
    requires SplitsInto(t, u, par, i, t.pages[Child(t.pages[par], i)].cells[m].key, left, right)
    requires t.root in u.span && u.span[u.root] == t.span[t.root] && q in u.span
    ensures PageOk(u, q)
  {
    var p := Child(t.pages[par], i);
    var sep := t.pages[p].cells[m].key;
    if q == left || q == right {
      SplitHalvesOk(t, u, p, m, left, right);
    } else {
      assert PageOk(t, q);
      if q == par {
        SplitParentOk(t, u, par, i, sep, left, right);
      } else if t.span[q].level > 0 {
        SplitOthersOk(t, u, par, i, sep, left, right, q);
      } else {
        SplitLinksOk(t, u, p, sep, left, right, q);
      }
    }
  }

  /** A leaf that is not split, and names the halves where it named the leaf that is. */
  lemma SplitLinksOk(t: Tree, u: Tree, p: PageNo, sep: Key, left: PageNo, right: PageNo, q: PageNo)
    requires Shape(t) && IsLeaf(t, p) && IsLeaf(t, q) && q != p && q != left && q != right && LinksTyped(t, p)
    requires u.span == SplitSpan(t, p, sep, left, right) && q in u.pages
    requires left !in t.span && (right !in t.span || right == p)
    requires left != right && left != NULL_PAGE && right != NULL_PAGE
    requires u.pages[q] == Relink(t.pages, t.pages[p].prev, t.pages[p].next, left, right)[q]
    ensures IsLeaf(u, q) && u.pages[q].cells == t.pages[q].cells && LinksOk(u, q)
  {
    assert PageOk(t, p) && PageOk(t, q);
    OnlyNeighbours(t, p, q);
    LinksMutual(t, p);
    var g := t.pages[q];
    assert g.next != NULL_PAGE && g.next != p ==> g.next != left && u.span[g.next] == t.span[g.next];
    assert g.prev != NULL_PAGE && g.prev != p ==> g.prev != left && u.span[g.prev] == t.span[g.prev];
  }

  lemma SplitHalvesOk(t: Tree, u: Tree, p: PageNo, m: nat, left: PageNo, right: PageNo)
    requires Shape(t) && LinksTyped(t, p) && 0 < m < |t.pages[p].cells|
    requires left != right && FIRST_PAGE < left && FIRST_PAGE < right
    requires u.span == SplitSpan(t, p, t.pages[p].cells[m].key, left, right) && u.cells == t.cells
    requires left !in t.span && (right !in t.span || right == p)
    requires left in u.pages && u.pages[left] == LeafPage(t.pages[p].cells[..m], t.pages[p].prev, right)
    requires right in u.pages && u.pages[right] == LeafPage(t.pages[p].cells[m..], left, t.pages[p].next)
    requires u.root in u.span && u.span[u.root].level == t.span[t.root].level
    ensures PageOk(u, left) && PageOk(u, right)
  {
    var g := t.pages[p];
    assert PageOk(t, p);
    assert LinksOk(t, p);
    assert t.span[p].lo <= g.cells[0].key < g.cells[m].key < t.span[p].hi;
    assert LinksOk(u, left);
    assert LinksOk(u, right);
    HeadCellsOk(g.cells, t.cells, t.span[p].lo, t.span[p].hi, m);
    TailCellsOk(g.cells, t.cells, t.span[p].lo, t.span[p].hi, m);
  }

  lemma HeadCellsOk(cells: seq<LeafCell>, all: map<Key, LeafCell>, lo: nat, hi: nat, m: nat)
    requires CellsOk(cells, all, lo, hi) && m < |cells|
    requires forall k :: k in all ==> all[k].key == k
    ensures CellsOk(cells[..m], all, lo, cells[m].key)
  {
    forall k | k in all && lo <= k < cells[m].key
      ensures all[k] in cells[..m]
    {
      assert all[k] in cells;
      var j :| 0 <= j < |cells| && cells[j] == all[k];
      assert j < m;
      assert cells[..m][j] == all[k];
    }
  }

  lemma TailCellsOk(cells: seq<LeafCell>, all: map<Key, LeafCell>, lo: nat, hi: nat, m: nat)
    requires CellsOk(cells, all, lo, hi) && m < |cells|
    requires forall k :: k in all ==> all[k].key == k
    ensures CellsOk(cells[m..], all, cells[m].key, hi)
  {
    forall k | k in all && cells[m].key <= k < hi
      ensures all[k] in cells[m..]
    {
      assert all[k] in cells;
      var j :| 0 <= j < |cells| && cells[j] == all[k];
      assert m <= j;
      assert cells[m..][j - m] == all[k];
    }
  }

  /** Only the neighbours of `p` in the leaf list link to it. */
  lemma OnlyNeighbours(t: Tree, p: PageNo, q: PageNo)
    requires Shape(t) && IsLeaf(t, p) && IsLeaf(t, q) && p != q
    ensures t.pages[q].next == p ==> t.pages[p].prev == q
    ensures t.pages[q].prev == p ==> t.pages[p].next == q
  {
    assert PageOk(t, p);
    LinksMutual(t, q);
  }

  // ---------- merging two children ----------

  /** Children `i` and `i + 1` become one, in place of the right one. */
  ghost function MergeSlot(g: Page, i: nat): (r: Page)
    requires g.NodePage? && i < |g.seps|
    ensures r.NodePage? && |r.seps| == |g.seps| - 1
    ensures forall j :: 0 <= j < i ==> r.seps[j] == g.seps[j]
    ensures forall j :: i <= j < |r.seps| ==> r.seps[j] == g.seps[j + 1]
    ensures forall j :: 0 <= j < i ==> Child(r, j) == Child(g, j)
    ensures forall j :: i <= j <= |r.seps| ==> Child(r, j) == Child(g, j + 1)
  {
    g.(seps := RemoveAt(g.seps, i))
  }

  ghost function MergeSpan(t: Tree, a: PageNo, b: PageNo): map<PageNo, Span>
    requires a in t.span && b in t.span
  {
    (t.span - {a})[b := t.span[b].(lo := t.span[a].lo)]
  }

  ghost predicate CanMerge(t: Tree, par: PageNo, i: nat) {
    && Shape(t)
    && IsNode(t, par) && i < |t.pages[par].seps|
  }

  /** What any merge of `a` and `b` leaves of the other nodes. */
  ghost predicate MergesInto(t: Tree, u: Tree, par: PageNo, i: nat) {
    && CanMerge(t, par, i)
    && var a, b := Child(t.pages[par], i), Child(t.pages[par], i + 1);
    && a in t.span && b in t.span && a != b && t.span[a].level == t.span[b].level && t.span[a].hi == t.span[b].lo
    && a != par && b != par && t.span[a].level + 1 == t.span[par].level
    && u.span == MergeSpan(t, a, b)
    && u.root == t.root
    && par in u.pages && u.pages[par] == MergeSlot(t.pages[par], i)
    && forall q :: IsNode(t, q) && q != a && q != b && q != par ==> q in u.pages && u.pages[q] == t.pages[q]
  }

  lemma MergePair(t: Tree, par: PageNo, i: nat)
    requires CanMerge(t, par, i)
    ensures var a, b := Child(t.pages[par], i), Child(t.pages[par], i + 1);
            && a in t.span && b in t.span && a != b && a != par && b != par
            && t.span[a].level == t.span[b].level && t.span[a].hi == t.span[b].lo == t.pages[par].seps[i].key
            && t.span[a].level + 1 == t.span[par].level <= t.span[t.root].level
  {
    assert PageOk(t, par);
    assert ChildOk(t, par, i) && ChildOk(t, par, i + 1);
    if Child(t.pages[par], i) == Child(t.pages[par], i + 1) {
      ChildUnique(t, par, i, par, i + 1);
      assert false;
    }
  }

  lemma MergeApart(t: Tree, par: PageNo, i: nat)
    requires CanMerge(t, par, i)
    ensures var a, b := Child(t.pages[par], i), Child(t.pages[par], i + 1);
            a in t.span && b in t.span && AllApart(MergeSpan(t, a, b))
  {
    MergePair(t, par, i);
    var a, b := Child(t.pages[par], i), Child(t.pages[par], i + 1);
    var span := MergeSpan(t, a, b);
    assert PageOk(t, a) && PageOk(t, b);
    forall p, q
      ensures Apart(span, p, q)
    {
      assert Apart(t.span, p, q);
      assert Apart(t.span, p, a) && Apart(t.span, p, b);
      assert Apart(t.span, a, q) && Apart(t.span, b, q);
      if p in t.span { assert PageOk(t, p); }
      if q in t.span { assert PageOk(t, q); }
    }
  }

  lemma MergeSpansKept(t: Tree, u: Tree, par: PageNo, i: nat, q: PageNo, j: nat)
    requires MergesInto(t, u, par, i)
    requires IsNode(t, q) && j <= |t.pages[q].seps| && !(q == par && i <= j <= i + 1)
    ensures SameSpan(t, u, Child(t.pages[q], j))
  {
    assert PageOk(t, q);
    assert ChildOk(t, q, j);
    var c := Child(t.pages[q], j);
    if c == Child(t.pages[par], i) {
      ChildUnique(t, q, j, par, i);
      assert false;
    } else if c == Child(t.pages[par], i + 1) {
      ChildUnique(t, q, j, par, i + 1);
      assert false;
    }
  }

  lemma MergeOthersOk(t: Tree, u: Tree, par: PageNo, i: nat, q: PageNo)
    requires MergesInto(t, u, par, i)
    requires IsNode(t, q) && q != par && q != Child(t.pages[par], i) && q != Child(t.pages[par], i + 1)
    ensures q in u.span && u.span[q] == t.span[q] && NodeOk(u, q)
  {
    assert PageOk(t, q);
    forall j | 0 <= j <= |t.pages[q].seps|
      ensures SameSpan(t, u, Child(t.pages[q], j))
    {
      MergeSpansKept(t, u, par, i, q, j);
    }
    ChildrenKept(t, u, q);
  }

  lemma MergeSlotSeps(g: Page, lo: nat, hi: nat, i: nat)
    requires g.NodePage? && SepsOk(g.seps, lo, hi) && i < |g.seps|
    ensures SepsOk(MergeSlot(g, i).seps, lo, hi)
  {
    var h := MergeSlot(g, i).seps;
    forall a, b | 0 <= a < b < |h|
      ensures h[a].key < h[b].key
    {
      assert a >= i ==> h[a].key == g.seps[a + 1].key;
      assert b >= i ==> h[b].key == g.seps[b + 1].key;
    }
  }

  lemma MergeParentOk(t: Tree, u: Tree, par: PageNo, i: nat)
    requires MergesInto(t, u, par, i)
    ensures par in u.span && u.span[par] == t.span[par] && NodeOk(u, par)
  {
    var g, h, s := t.pages[par], u.pages[par], t.span[par];
    assert NodeOk(t, par) by { assert PageOk(t, par); }
    assert SepsOk(h.seps, s.lo, s.hi) by { MergeSlotSeps(g, s.lo, s.hi, i); }
    forall j | 0 <= j <= |h.seps|
      ensures ChildOk(u, par, j)
    {
      MergeParentChild(t, u, par, i, j);
    }
  }

  lemma MergeParentChild(t: Tree, u: Tree, par: PageNo, i: nat, j: nat)
    requires MergesInto(t, u, par, i) && j <= |u.pages[par].seps|
    ensures IsNode(u, par) && u.span[par] == t.span[par] && ChildOk(u, par, j)
  {
    assert PageOk(t, par);
    assert ChildOk(t, par, i) && ChildOk(t, par, i + 1);
    if j < i {
      assert ChildOk(t, par, j);
      MergeSpansKept(t, u, par, i, par, j);
    } else if j > i {
      assert ChildOk(t, par, j + 1);
      MergeSpansKept(t, u, par, i, par, j + 1);
    }
  }

  /** The cells of two sibling nodes with the separator between them pulled down. */
  ghost function JoinSeps(a: Page, sep: Key, b: Page): (r: seq<NodeCell>)
    requires a.NodePage? && b.NodePage?
    ensures |r| == |a.seps| + 1 + |b.seps|
  {
    a.seps + [Cell(sep, a.right)] + b.seps
  }

  ghost function MergeNode(t: Tree, par: PageNo, i: nat): Tree
    requires IsNode(t, par) && i < |t.pages[par].seps|
    requires IsNode(t, Child(t.pages[par], i)) && IsNode(t, Child(t.pages[par], i + 1))
  {
    var a, b := Child(t.pages[par], i), Child(t.pages[par], i + 1);
    var A, B := t.pages[a], t.pages[b];
    t.(pages := t.pages[b := NodePage(JoinSeps(A, t.pages[par].seps[i].key, B), B.right)]
                       [par := MergeSlot(t.pages[par], i)],
       span := MergeSpan(t, a, b))
  }

  lemma MergeNodeShape(t: Tree, par: PageNo, i: nat)
    requires CanMerge(t, par, i)
    requires IsNode(t, Child(t.pages[par], i)) && IsNode(t, Child(t.pages[par], i + 1))
    ensures Shape(MergeNode(t, par, i))
  {
    var a, b := Child(t.pages[par], i), Child(t.pages[par], i + 1);
    var u := MergeNode(t, par, i);
    MergePair(t, par, i);
    MergeApart(t, par, i);
    assert MergesInto(t, u, par, i);
    assert PagesOk(u) by {
      forall q | q in u.span
        ensures PageOk(u, q)
      {
        MergeNodePage(t, u, par, i, q);
      }
    }
  }

  lemma MergeNodePage(t: Tree, u: Tree, par: PageNo, i: nat, q: PageNo)
    requires MergesInto(t, u, par, i)
    requires IsNode(t, Child(t.pages[par], i)) && IsNode(t, Child(t.pages[par], i + 1))
    requires u == MergeNode(t, par, i)
    requires t.root in u.span && u.span[u.root] == t.span[t.root] && q in u.span
    ensures PageOk(u, q)
  {
    var b := Child(t.pages[par], i + 1);
    if q == b {
      JoinedOk(t, u, par, i);
    } else {
      assert PageOk(t, q);
      if q == par {
        MergeParentOk(t, u, par, i);
      } else if t.span[q].level > 0 {
        MergeOthersOk(t, u, par, i, q);
      } else {
        assert LinksOk(t, q);
        assert LinksOk(u, q);
      }
    }
  }

  lemma JoinedOk(t: Tree, u: Tree, par: PageNo, i: nat)
    requires MergesInto(t, u, par, i)
    requires IsNode(t, Child(t.pages[par], i)) && IsNode(t, Child(t.pages[par], i + 1))
    requires u == MergeNode(t, par, i) && u.root in u.span && u.span[u.root] == t.span[t.root]
    ensures Child(t.pages[par], i + 1) in u.span && PageOk(u, Child(t.pages[par], i + 1))
  {
    var a, b := Child(t.pages[par], i), Child(t.pages[par], i + 1);
    MergePair(t, par, i);
    assert PageOk(t, a) && PageOk(t, b);
    var A, B := t.pages[a], t.pages[b];
    var n := |A.seps|;
    forall j | 0 <= j <= |u.pages[b].seps|
      ensures ChildOk(u, b, j)
    {
      if j <= n {
        assert ChildOk(t, a, j);
      } else {
        assert ChildOk(t, b, j - n - 1);
      }
    }
  }

  ghost function MergeLeaf(t: Tree, par: PageNo, i: nat): Tree
    requires IsNode(t, par) && i < |t.pages[par].seps|
    requires LinksTyped(t, Child(t.pages[par], i)) && LinksTyped(t, Child(t.pages[par], i + 1))
  {
    var a, b := Child(t.pages[par], i), Child(t.pages[par], i + 1);
    var A, B := t.pages[a], t.pages[b];
    t.(pages := Relink(t.pages, A.prev, NULL_PAGE, b, NULL_PAGE)
                  [b := LeafPage(A.cells + B.cells, A.prev, B.next)]
                  [par := MergeSlot(t.pages[par], i)],
       span := MergeSpan(t, a, b))
  }

  lemma MergeLeafShape(t: Tree, par: PageNo, i: nat)
    requires CanMerge(t, par, i)
    requires LinksTyped(t, Child(t.pages[par], i)) && LinksTyped(t, Child(t.pages[par], i + 1))
    ensures Shape(MergeLeaf(t, par, i))
  {
    var a, b := Child(t.pages[par], i), Child(t.pages[par], i + 1);
    var u := MergeLeaf(t, par, i);
    MergePair(t, par, i);
    MergeApart(t, par, i);
    assert MergesInto(t, u, par, i);
    assert PagesOk(u) by {
      forall q | q in u.span
        ensures PageOk(u, q)
      {
        MergeLeafPage(t, u, par, i, q);
      }
    }
  }

  lemma MergeLeafPage(t: Tree, u: Tree, par: PageNo, i: nat, q: PageNo)
    requires MergesInto(t, u, par, i)
    requires LinksTyped(t, Child(t.pages[par], i)) && LinksTyped(t, Child(t.pages[par], i + 1))
    requires u == MergeLeaf(t, par, i)
    requires t.root in u.span && u.span[u.root] == t.span[t.root] && q in u.span
    ensures PageOk(u, q)
  {
    var a, b := Child(t.pages[par], i), Child(t.pages[par], i + 1);
    var A, B := t.pages[a], t.pages[b];
    MergePair(t, par, i);
    LeavesAdjacent(t, a, b);
    if q == b {
      assert PageOk(t, a) && PageOk(t, b);
      JoinCellsOk(A.cells, B.cells, t.cells, t.span[a].lo, t.span[b].lo, t.span[b].hi);
      assert LinksOk(u, q);
    } else {
      assert PageOk(t, q);
      if q == par {
        MergeParentOk(t, u, par, i);
      } else if t.span[q].level > 0 {
        MergeOthersOk(t, u, par, i, q);
      } else {
        assert LinksOk(t, a) && LinksOk(t, b) by { assert PageOk(t, a) && PageOk(t, b); }
        OnlyNeighbours(t, a, q);
        OnlyNeighbours(t, b, q);
        assert LinksOk(t, q);
        assert LinksOk(u, q);
      }
    }
  }

  lemma JoinCellsOk(a: seq<LeafCell>, b: seq<LeafCell>, all: map<Key, LeafCell>, lo: nat, mid: nat, hi: nat)
    requires CellsOk(a, all, lo, mid) && CellsOk(b, all, mid, hi) && lo <= mid <= hi
    ensures CellsOk(a + b, all, lo, hi)
  {
    forall k | k in all && lo <= k < hi
      ensures all[k] in a + b
    {
      assert all[k] in a || all[k] in b;
    }
  }

  /** Sibling leaves are neighbours in the leaf list. */
  lemma LeavesAdjacent(t: Tree, a: PageNo, b: PageNo)
    requires Shape(t) && IsLeaf(t, a) && IsLeaf(t, b) && t.span[a].hi == t.span[b].lo
    ensures t.pages[a].next == b && t.pages[b].prev == a
  {
    assert PageOk(t, a) && PageOk(t, b);
    var n := t.pages[a].next;
    assert n != NULL_PAGE;
    assert PageOk(t, n);
    assert Apart(t.span, n, b);
    LinksMutual(t, a);
  }

  // ---------- moving the boundary between two siblings ----------

  ghost function SetKey(g: Page, i: nat, k: Key): Page
    requires g.NodePage? && i < |g.seps|
  {
    g.(seps := g.seps[i := g.seps[i].(key := k)])
  }

  ghost predicate SiblingNodes(t: Tree, par: PageNo, i: nat) {
    && CanMerge(t, par, i)
    && IsNode(t, Child(t.pages[par], i)) && IsNode(t, Child(t.pages[par], i + 1))
  }

  ghost predicate SiblingLeaves(t: Tree, par: PageNo, i: nat) {
    && CanMerge(t, par, i)
    && IsLeaf(t, Child(t.pages[par], i)) && IsLeaf(t, Child(t.pages[par], i + 1))
  }

  ghost function ShiftSpan(t: Tree, a: PageNo, b: PageNo, sep: Key): map<PageNo, Span>
    requires a in t.span && b in t.span
  {
    t.span[a := t.span[a].(hi := sep)][b := t.span[b].(lo := sep)]
  }

  /** The cells of two sibling leaves, divided anew so that `m` of them are in the left one. */
  ghost function ShiftLeaf(t: Tree, par: PageNo, i: nat, m: nat): Tree
    requires SiblingLeaves(t, par, i)
    requires m < |t.pages[Child(t.pages[par], i)].cells| + |t.pages[Child(t.pages[par], i + 1)].cells|
  {
    var a, b := Child(t.pages[par], i), Child(t.pages[par], i + 1);
    var all := t.pages[a].cells + t.pages[b].cells;
    t.(pages := t.pages[a := t.pages[a].(cells := all[..m])]
                       [b := t.pages[b].(cells := all[m..])]
                       [par := SetKey(t.pages[par], i, all[m].key)],
       span := ShiftSpan(t, a, b, all[m].key))
  }

  lemma ShiftLeafShape(t: Tree, par: PageNo, i: nat, m: nat)
    requires SiblingLeaves(t, par, i)
    requires 0 < m < |t.pages[Child(t.pages[par], i)].cells| + |t.pages[Child(t.pages[par], i + 1)].cells|
    ensures Shape(ShiftLeaf(t, par, i, m))
  {
    var a, b := Child(t.pages[par], i), Child(t.pages[par], i + 1);
    LinksAreTyped(t, a);
    LinksAreTyped(t, b);
    MergePair(t, par, i);
    LeavesAdjacent(t, a, b);
    assert FIRST_PAGE < a && FIRST_PAGE < b by { assert PageOk(t, a) && PageOk(t, b); }
    var u := MergeLeaf(t, par, i);
    MergeLeafShape(t, par, i);
    LinksAreTyped(u, b);
    assert CanSplit(u, par, i, a, b);
    var v := SplitLeaf(u, par, i, m, a, b);
    SplitLeafShape(u, par, i, m, a, b);
    assert v == ShiftLeaf(t, par, i, m) by {
      ShiftLeafIsMergeSplit(t, par, i, m);
    }
  }

  lemma ShiftLeafIsMergeSplit(t: Tree, par: PageNo, i: nat, m: nat)
    requires SiblingLeaves(t, par, i)
    requires 0 < m < |t.pages[Child(t.pages[par], i)].cells| + |t.pages[Child(t.pages[par], i + 1)].cells|
    requires LinksTyped(t, Child(t.pages[par], i)) && LinksTyped(t, Child(t.pages[par], i + 1))
    requires IsNode(MergeLeaf(t, par, i), par) && LinksTyped(MergeLeaf(t, par, i), Child(t.pages[par], i + 1))
    ensures SplitLeaf(MergeLeaf(t, par, i), par, i, m, Child(t.pages[par], i), Child(t.pages[par], i + 1))
         == ShiftLeaf(t, par, i, m)
  {
    var a, b := Child(t.pages[par], i), Child(t.pages[par], i + 1);
    MergePair(t, par, i);
    var v := SplitLeaf(MergeLeaf(t, par, i), par, i, m, a, b);
    var w := ShiftLeaf(t, par, i, m);
    ShiftLeafPages(t, par, i, m);
    assert v.span == w.span;
  }

  lemma ShiftLeafPages(t: Tree, par: PageNo, i: nat, m: nat)
    requires SiblingLeaves(t, par, i)
    requires 0 < m < |t.pages[Child(t.pages[par], i)].cells| + |t.pages[Child(t.pages[par], i + 1)].cells|
    requires LinksTyped(t, Child(t.pages[par], i)) && LinksTyped(t, Child(t.pages[par], i + 1))
    requires IsNode(MergeLeaf(t, par, i), par) && LinksTyped(MergeLeaf(t, par, i), Child(t.pages[par], i + 1))
    requires Child(MergeLeaf(t, par, i).pages[par], i) == Child(t.pages[par], i + 1)
    ensures SplitLeaf(MergeLeaf(t, par, i), par, i, m, Child(t.pages[par], i), Child(t.pages[par], i + 1)).pages
         == ShiftLeaf(t, par, i, m).pages
  {
    var a, b := Child(t.pages[par], i), Child(t.pages[par], i + 1);
    MergePair(t, par, i);
    LeavesAdjacent(t, a, b);
    LinksMutual(t, a);
    LinksMutual(t, b);
    var v := SplitLeaf(MergeLeaf(t, par, i), par, i, m, a, b);
    var w := ShiftLeaf(t, par, i, m);
    assert v.pages[par] == w.pages[par];
    assert v.pages[a] == w.pages[a];
    assert v.pages[b] == w.pages[b];
    assert v.pages == w.pages;
  }

  /** The cells of two sibling nodes and the separator between them, divided anew so that
      `m` of them are in the left node and the next one is the separator. */
  ghost function ShiftNode(t: Tree, par: PageNo, i: nat, m: nat): Tree
    requires SiblingNodes(t, par, i)
    requires m <= |t.pages[Child(t.pages[par], i)].seps| + |t.pages[Child(t.pages[par], i + 1)].seps|
  {
    var a, b := Child(t.pages[par], i), Child(t.pages[par], i + 1);
    var all := JoinSeps(t.pages[a], t.pages[par].seps[i].key, t.pages[b]);
    t.(pages := t.pages[a := NodePage(all[..m], all[m].val)]
                       [b := NodePage(all[m + 1..], t.pages[b].right)]
                       [par := SetKey(t.pages[par], i, all[m].key)],
       span := ShiftSpan(t, a, b, all[m].key))
  }

  lemma ShiftNodeShape(t: Tree, par: PageNo, i: nat, m: nat)
    requires SiblingNodes(t, par, i)
    requires m <= |t.pages[Child(t.pages[par], i)].seps| + |t.pages[Child(t.pages[par], i + 1)].seps|
    ensures Shape(ShiftNode(t, par, i, m))
  {
    var a, b := Child(t.pages[par], i), Child(t.pages[par], i + 1);
    MergePair(t, par, i);
    assert FIRST_PAGE < a && FIRST_PAGE < b by { assert PageOk(t, a) && PageOk(t, b); }
    var u := MergeNode(t, par, i);
    MergeNodeShape(t, par, i);
    SplitNodeShape(u, par, i, m, a, b);
    ShiftNodeIsMergeSplit(t, par, i, m);
  }

  lemma ShiftNodeIsMergeSplit(t: Tree, par: PageNo, i: nat, m: nat)
    requires SiblingNodes(t, par, i)
    requires m <= |t.pages[Child(t.pages[par], i)].seps| + |t.pages[Child(t.pages[par], i + 1)].seps|
    requires var u, b := MergeNode(t, par, i), Child(t.pages[par], i + 1);
             && IsNode(u, par) && i <= |u.pages[par].seps| && Child(u.pages[par], i) == b
             && IsNode(u, b) && m < |u.pages[b].seps|
    ensures SplitNode(MergeNode(t, par, i), par, i, m, Child(t.pages[par], i), Child(t.pages[par], i + 1))
         == ShiftNode(t, par, i, m)
  {
    var a, b := Child(t.pages[par], i), Child(t.pages[par], i + 1);
    MergePair(t, par, i);
    var v := SplitNode(MergeNode(t, par, i), par, i, m, a, b);
    var w := ShiftNode(t, par, i, m);
    assert v.pages[par] == w.pages[par];
    assert v.pages == w.pages;
    assert v.span == w.span;
  }
}
