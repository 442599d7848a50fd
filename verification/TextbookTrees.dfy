/**
 The converse of TreeTheorems: pages that make up a B+tree by the textbook definition, with no
 page used twice and the leaves linked in order, are a well-formed tree in the sense of
 TreeShape. The spans are those the definition walks through, and the cells those it lists.
 */
module TextbookTrees {
  import opened Pages
  import opened PagerModel
  import opened TreeShape
  import opened TreeTheorems

  /** In the subtree of height `h` below `p`, page `q` is visited with span `s`. */
  ghost predicate Visits(pages: PageMap, p: PageNo, h: nat, lo: nat, hi: nat, q: PageNo, s: Span)
    decreases h, 1
  {
    || (q == p && s == Span(h, lo, hi))
    || (h > 0 && p in pages && pages[p].NodePage?
        && (exists i :: 0 <= i <= |pages[p].seps| && VisitsBelow(pages, p, h, lo, hi, i, q, s)))
  }

  ghost predicate VisitsBelow(pages: PageMap, p: PageNo, h: nat, lo: nat, hi: nat, i: nat, q: PageNo, s: Span)
    requires h > 0 && p in pages && pages[p].NodePage? && i <= |pages[p].seps|
    decreases h, 0
  {
    Visits(pages, Child(pages[p], i), h - 1, SepLo(pages[p], lo, i), SepHi(pages[p], hi, i), q, s)
  }

  ghost predicate VisitedFromRoot(pages: PageMap, root: PageNo, h: nat, q: PageNo, s: Span) {
    Visits(pages, root, h, 0, KEY_LIMIT, q, s)
  }

  /** The textbook definition, with the leaf list of the file. */
  ghost predicate IsTreeFile(pages: PageMap, cfg: Config, root: PageNo, h: nat) {
    && IsBPlusTree(pages, cfg, root, h)
    && (forall q, s, s' :: VisitedFromRoot(pages, root, h, q, s) && VisitedFromRoot(pages, root, h, q, s') ==> s == s')
    && (forall q, s :: VisitedFromRoot(pages, root, h, q, s) ==> FIRST_PAGE < q)
    && Linked(pages, Leaves(pages, root, h))
  }

  // ---------- what a visit says ----------

  lemma {:induction false} VisitedSubtree(pages: PageMap, cfg: Config, p: PageNo, h: nat, lo: nat, hi: nat,
                                          isRoot: bool, q: PageNo, s: Span)
    requires IsSubtree(pages, cfg, p, h, lo, hi, isRoot) && lo < hi && Visits(pages, p, h, lo, hi, q, s)
    ensures lo <= s.lo < s.hi <= hi && s.level <= h
    ensures IsSubtree(pages, cfg, q, s.level, s.lo, s.hi, isRoot && s.level == h)
    ensures s.level == h ==> q == p && s == Span(h, lo, hi)
    decreases h
  {
    if !(q == p && s == Span(h, lo, hi)) {
      var g := pages[p];
      var i :| 0 <= i <= |g.seps| && VisitsBelow(pages, p, h, lo, hi, i, q, s);
      VisitedSubtree(pages, cfg, Child(g, i), h - 1, SepLo(g, lo, i), SepHi(g, hi, i), false, q, s);
    }
  }

  /** The children of a visited page are visited. */
  lemma {:induction false} VisitedChild(pages: PageMap, p: PageNo, h: nat, lo: nat, hi: nat, q: PageNo, s: Span, i: nat)
    requires Visits(pages, p, h, lo, hi, q, s)
    requires s.level > 0 && q in pages && pages[q].NodePage? && i <= |pages[q].seps|
    ensures Visits(pages, p, h, lo, hi, Child(pages[q], i),
            Span(s.level - 1, SepLo(pages[q], s.lo, i), SepHi(pages[q], s.hi, i)))
    decreases h
  {
    var c, cs := Child(pages[q], i), Span(s.level - 1, SepLo(pages[q], s.lo, i), SepHi(pages[q], s.hi, i));
    if q == p && s == Span(h, lo, hi) {
      assert VisitsBelow(pages, p, h, lo, hi, i, c, cs);
    } else {
      var g := pages[p];
      var j :| 0 <= j <= |g.seps| && VisitsBelow(pages, p, h, lo, hi, j, q, s);
      VisitedChild(pages, Child(g, j), h - 1, SepLo(g, lo, j), SepHi(g, hi, j), q, s, i);
      assert VisitsBelow(pages, p, h, lo, hi, j, c, cs);
    }
  }

  /** Two visits at one height are the same or to disjoint ranges. */
  lemma {:induction false} VisitsApart(pages: PageMap, cfg: Config, p: PageNo, h: nat, lo: nat, hi: nat, isRoot: bool,
                                       q: PageNo, s: Span, q': PageNo, s': Span)
    requires IsSubtree(pages, cfg, p, h, lo, hi, isRoot) && lo < hi
    requires Visits(pages, p, h, lo, hi, q, s) && Visits(pages, p, h, lo, hi, q', s') && s.level == s'.level
    ensures (q == q' && s == s') || s.hi <= s'.lo || s'.hi <= s.lo
    decreases h
  {
    VisitedSubtree(pages, cfg, p, h, lo, hi, isRoot, q, s);
    VisitedSubtree(pages, cfg, p, h, lo, hi, isRoot, q', s');
    if s.level < h {
      var g := pages[p];
      var i :| 0 <= i <= |g.seps| && VisitsBelow(pages, p, h, lo, hi, i, q, s);
      var j :| 0 <= j <= |g.seps| && VisitsBelow(pages, p, h, lo, hi, j, q', s');
      BelowInside(pages, cfg, p, h, lo, hi, isRoot, i, q, s);
      BelowInside(pages, cfg, p, h, lo, hi, isRoot, j, q', s');
      if i == j {
        VisitsApart(pages, cfg, Child(g, i), h - 1, SepLo(g, lo, i), SepHi(g, hi, i), false, q, s, q', s');
      }
    }
  }

  lemma BelowInside(pages: PageMap, cfg: Config, p: PageNo, h: nat, lo: nat, hi: nat, isRoot: bool, i: nat, q: PageNo,
                    s: Span)
    requires IsSubtree(pages, cfg, p, h, lo, hi, isRoot) && lo < hi && h > 0
    requires i <= |pages[p].seps| && VisitsBelow(pages, p, h, lo, hi, i, q, s)
    ensures IsSubtree(pages, cfg, Child(pages[p], i), h - 1, SepLo(pages[p], lo, i), SepHi(pages[p], hi, i), false)
    ensures SepLo(pages[p], lo, i) <= s.lo < s.hi <= SepHi(pages[p], hi, i)
  {
    VisitedSubtree(pages, cfg, Child(pages[p], i), h - 1, SepLo(pages[p], lo, i), SepHi(pages[p], hi, i), false, q, s);
  }

  // ---------- the tree that is read off ----------

  ghost function SpanOf(pages: PageMap, root: PageNo, h: nat, q: PageNo): Span
    requires exists s :: VisitedFromRoot(pages, root, h, q, s)
  {
    var s :| VisitedFromRoot(pages, root, h, q, s);
    s
  }

  ghost function ReadSpans(pages: PageMap, root: PageNo, h: nat): map<PageNo, Span> {
    map q | q in pages && exists s :: VisitedFromRoot(pages, root, h, q, s) :: SpanOf(pages, root, h, q)
  }

  ghost function CellMap(walk: seq<LeafCell>): map<Key, LeafCell> {
    if walk == [] then map[] else CellMap(walk[1..])[walk[0].key := walk[0]]
  }

  ghost function ReadTree(pages: PageMap, root: PageNo, h: nat): Tree {
    Tree(pages, ReadSpans(pages, root, h), root, CellMap(Listed(pages, Leaves(pages, root, h))))
  }

  lemma ReadSpan(pages: PageMap, cfg: Config, root: PageNo, h: nat, q: PageNo, s: Span)
    requires IsTreeFile(pages, cfg, root, h) && VisitedFromRoot(pages, root, h, q, s)
    ensures q in ReadSpans(pages, root, h) && ReadSpans(pages, root, h)[q] == s
    ensures q in pages && IsSubtree(pages, cfg, q, s.level, s.lo, s.hi, q == root)
    ensures FIRST_PAGE < q && s.lo < s.hi <= KEY_LIMIT && s.level <= h
  {
    VisitedSubtree(pages, cfg, root, h, 0, KEY_LIMIT, true, q, s);
    assert VisitedFromRoot(pages, root, h, root, Span(h, 0, KEY_LIMIT));
    assert VisitedFromRoot(pages, root, h, q, SpanOf(pages, root, h, q));
    assert s.level == h <==> q == root;
  }

  lemma ReadSkeleton(pages: PageMap, cfg: Config, root: PageNo, h: nat)
    requires IsTreeFile(pages, cfg, root, h)
    ensures var t := ReadTree(pages, root, h);
            Skeleton(t) && OccupiedBut(t, cfg, {}) && t.span[root].level == h
  {
    var t := ReadTree(pages, root, h);
    assert VisitedFromRoot(pages, root, h, root, Span(h, 0, KEY_LIMIT));
    ReadSpan(pages, cfg, root, h, root, Span(h, 0, KEY_LIMIT));
    forall p | p in t.span
      ensures VisitedFromRoot(pages, root, h, p, t.span[p])
      ensures IsSubtree(pages, cfg, p, t.span[p].level, t.span[p].lo, t.span[p].hi, p == root)
      ensures FIRST_PAGE < p && t.span[p].lo < t.span[p].hi <= KEY_LIMIT && t.span[p].level <= h
    {
      ReadSpan(pages, cfg, root, h, p, t.span[p]);
    }
    forall p, q
      ensures Apart(t.span, p, q)
    {
      if p in t.span && q in t.span && t.span[p].level == t.span[q].level {
        VisitsApart(pages, cfg, root, h, 0, KEY_LIMIT, true, p, t.span[p], q, t.span[q]);
      }
    }
    forall p | p in t.span
      ensures BonesOk(t, p)
    {
      ReadNode(pages, cfg, root, h, t, p);
    }
    forall p | p in t.span
      ensures Occupied(t, cfg, p)
    {
    }
  }

  lemma ReadNode(pages: PageMap, cfg: Config, root: PageNo, h: nat, t: Tree, p: PageNo)
    requires IsTreeFile(pages, cfg, root, h) && t == ReadTree(pages, root, h) && root in t.span
             && t.span[root].level == h
    requires p in t.span && VisitedFromRoot(pages, root, h, p, t.span[p])
    requires IsSubtree(pages, cfg, p, t.span[p].level, t.span[p].lo, t.span[p].hi, p == root)
    requires FIRST_PAGE < p && t.span[p].lo < t.span[p].hi <= KEY_LIMIT && t.span[p].level <= h
    ensures BonesOk(t, p)
  {
    var s := t.span[p];
    if s.level > 0 {
      var g := pages[p];
      forall i | 0 <= i <= |g.seps|
        ensures ChildOk(t, p, i)
      {
        VisitedChild(pages, root, h, 0, KEY_LIMIT, p, s, i);
        ReadSpan(pages, cfg, root, h, Child(g, i), Span(s.level - 1, SepLo(g, s.lo, i), SepHi(g, s.hi, i)));
      }
    }
  }

  // ---------- leaves ----------

  /** The cells of the leaves by key. */
  ghost predicate MapsCells(t: Tree, leaves: seq<PageNo>, all: map<Key, LeafCell>, lo: nat, hi: nat)
  {
    && (forall k :: k in all ==> lo <= k < hi && all[k].key == k)
    && (forall i, c :: 0 <= i < |leaves| && HoldsCell(t, leaves[i], c) ==> c.key in all && all[c.key] == c)
    && (forall k :: k in all ==> exists i :: 0 <= i < |leaves| && HoldsCell(t, leaves[i], all[k]))
  }

  ghost predicate HoldsCell(t: Tree, p: PageNo, c: LeafCell) {
    IsLeaf(t, p) && c in t.pages[p].cells
  }

  ghost predicate LeafInRange(t: Tree, p: PageNo) {
    IsLeaf(t, p) ==>
      && Sorted(t.pages[p].cells)
      && forall i :: 0 <= i < |t.pages[p].cells| ==> t.span[p].lo <= t.pages[p].cells[i].key < t.span[p].hi
  }

  lemma {:induction false} MapOfFront(cells: seq<LeafCell>, rest: seq<LeafCell>, i: nat)
    requires Sorted(cells) && i < |cells|
    ensures var all := CellMap(cells + rest); cells[i].key in all && all[cells[i].key] == cells[i]
    decreases |cells|
  {
    assert (cells + rest)[1..] == cells[1..] + rest;
    if i > 0 {
      MapOfFront(cells[1..], rest, i - 1);
    }
  }

  lemma {:induction false} MapBehind(cells: seq<LeafCell>, rest: seq<LeafCell>, k: Key)
    requires forall i :: 0 <= i < |cells| ==> cells[i].key != k
    ensures k in CellMap(cells + rest) <==> k in CellMap(rest)
    ensures k in CellMap(rest) ==> CellMap(cells + rest)[k] == CellMap(rest)[k]
    decreases |cells|
  {
    if cells == [] {
      assert cells + rest == rest;
    } else {
      assert (cells + rest)[1..] == cells[1..] + rest;
      MapBehind(cells[1..], rest, k);
    }
  }

  /** The cells of a leaf, then those behind it. */
  lemma CellMapOfLeaf(cells: seq<LeafCell>, rest: seq<LeafCell>)
    requires Sorted(cells)
    ensures forall c :: c in cells ==> c.key in CellMap(cells + rest) && CellMap(cells + rest)[c.key] == c
    ensures forall k :: k in CellMap(rest) && (forall i :: 0 <= i < |cells| ==> cells[i].key != k) ==>
              k in CellMap(cells + rest) && CellMap(cells + rest)[k] == CellMap(rest)[k]
    ensures forall k :: k in CellMap(cells + rest) ==>
              CellMap(cells + rest)[k] in cells || (k in CellMap(rest) && CellMap(cells + rest)[k] == CellMap(rest)[k])
  {
    var all := CellMap(cells + rest);
    forall c | c in cells
      ensures c.key in all && all[c.key] == c
    {
      var i :| 0 <= i < |cells| && cells[i] == c;
      MapOfFront(cells, rest, i);
    }
    forall k | forall i :: 0 <= i < |cells| ==> cells[i].key != k
      ensures (k in all <==> k in CellMap(rest)) && (k in all ==> all[k] == CellMap(rest)[k])
    {
      MapBehind(cells, rest, k);
    }
    forall k | k in all
      ensures all[k] in cells || (k in CellMap(rest) && all[k] == CellMap(rest)[k])
    {
      if i :| 0 <= i < |cells| && cells[i].key == k {
        MapOfFront(cells, rest, i);
      }
    }
  }

  lemma {:induction false} TilesMap(t: Tree, leaves: seq<PageNo>, lo: nat, hi: nat)
    requires Skeleton(t) && Tiles(t, leaves, lo, hi) && forall p :: LeafInRange(t, p)
    ensures MapsCells(t, leaves, CellMap(Listed(t.pages, leaves)), lo, hi)
    decreases |leaves|
  {
    var p, rest := leaves[0], leaves[1..];
    var cells := t.pages[p].cells;
    assert BonesOk(t, p) && LeafInRange(t, p);
    var mid := t.span[p].hi;
    if rest == [] {
      assert Listed(t.pages, rest) == [];
      CellMapOfLeaf(cells, []);
      assert Listed(t.pages, leaves) == cells + [];
      forall k | k in CellMap(cells + [])
        ensures lo <= k < hi && CellMap(cells + [])[k].key == k && HoldsCell(t, leaves[0], CellMap(cells + [])[k])
      {
        CellMapKeys(cells + [], k);
      }
    } else {
      assert rest[0] == leaves[1] && Tiles(t, rest, mid, hi);
      TilesMap(t, rest, mid, hi);
      TilesNonempty(t, rest, mid, hi);
      TilesMapStep(t, leaves, lo, mid, hi);
    }
  }

  lemma TilesMapStep(t: Tree, leaves: seq<PageNo>, lo: nat, mid: nat, hi: nat)
    requires |leaves| > 1 && (forall i :: 0 <= i < |leaves| ==> IsLeaf(t, leaves[i])) && LeafInRange(t, leaves[0])
    requires t.span[leaves[0]] == Span(0, lo, mid) && lo < mid < hi
    requires MapsCells(t, leaves[1..], CellMap(Listed(t.pages, leaves[1..])), mid, hi)
    ensures MapsCells(t, leaves, CellMap(Listed(t.pages, leaves)), lo, hi)
  {
    var cells, rest := t.pages[leaves[0]].cells, Listed(t.pages, leaves[1..]);
    var all, others := CellMap(cells + rest), CellMap(rest);
    assert Listed(t.pages, leaves) == cells + rest;
    CellMapOfLeaf(cells, rest);
    CellsAreMapped(t, leaves, mid, hi, cells, all, others);
    forall k | k in all
      ensures lo <= k < hi && all[k].key == k
      ensures exists i :: 0 <= i < |leaves| && HoldsCell(t, leaves[i], all[k])
    {
      CellMapKeys(cells + rest, k);
      if all[k] in cells {
        assert HoldsCell(t, leaves[0], all[k]);
      } else {
        var i :| 0 <= i < |leaves[1..]| && HoldsCell(t, leaves[1..][i], others[k]);
        assert leaves[i + 1] == leaves[1..][i];
      }
    }
  }

  lemma CellsAreMapped(t: Tree, leaves: seq<PageNo>, mid: nat, hi: nat, cells: seq<LeafCell>,
                       all: map<Key, LeafCell>, others: map<Key, LeafCell>)
    requires |leaves| > 1 && IsLeaf(t, leaves[0]) && cells == t.pages[leaves[0]].cells
    requires MapsCells(t, leaves[1..], others, mid, hi)
    requires forall i :: 0 <= i < |cells| ==> cells[i].key < mid
    requires forall c :: c in cells ==> c.key in all && all[c.key] == c
    requires forall k :: k in others && (forall i :: 0 <= i < |cells| ==> cells[i].key != k) ==>
               k in all && all[k] == others[k]
    ensures forall i, c :: 0 <= i < |leaves| && HoldsCell(t, leaves[i], c) ==> c.key in all && all[c.key] == c
  {
    forall i, c | 0 <= i < |leaves| && HoldsCell(t, leaves[i], c)
      ensures c.key in all && all[c.key] == c
    {
      if i > 0 { assert leaves[1..][i - 1] == leaves[i]; }
    }
  }

  lemma {:induction false} CellMapKeys(walk: seq<LeafCell>, k: Key)
    requires k in CellMap(walk)
    ensures CellMap(walk)[k].key == k && CellMap(walk)[k] in walk
    decreases |walk|
  {
    if k != walk[0].key {
      CellMapKeys(walk[1..], k);
    }
  }

  lemma ListedLinksOk(t: Tree, leaves: seq<PageNo>, i: nat)
    requires Skeleton(t) && Tiles(t, leaves, 0, KEY_LIMIT) && Linked(t.pages, leaves) && i < |leaves|
    ensures LinksOk(t, leaves[i])
  {
    var p := leaves[i];
    assert BonesOk(t, p);
    assert t.pages[p].next == Link(leaves, i + 1);
    assert t.pages[p].prev == if i == 0 then NULL_PAGE else leaves[i - 1];
    if i + 1 < |leaves| { assert BonesOk(t, leaves[i + 1]); }
    if i > 0 {
      var q := leaves[i - 1];
      assert BonesOk(t, q);
      assert t.span[q].hi == t.span[leaves[i - 1 + 1]].lo;
    }
  }

  lemma ListedCellsOk(t: Tree, leaves: seq<PageNo>, i: nat)
    requires Skeleton(t) && Tiles(t, leaves, 0, KEY_LIMIT) && (forall p :: LeafInRange(t, p))
    requires MapsCells(t, leaves, t.cells, 0, KEY_LIMIT) && i < |leaves|
    ensures CellsOk(t.pages[leaves[i]].cells, t.cells, t.span[leaves[i]].lo, t.span[leaves[i]].hi)
  {
    var p := leaves[i];
    assert BonesOk(t, p) && LeafInRange(t, p);
    forall k | k in t.cells && t.span[p].lo <= k < t.span[p].hi
      ensures t.cells[k] in t.pages[p].cells
    {
      var j :| 0 <= j < |leaves| && HoldsCell(t, leaves[j], t.cells[k]);
      assert LeafInRange(t, leaves[j]);
      assert Apart(t.span, p, leaves[j]);
    }
    assert forall j :: 0 <= j < |t.pages[p].cells| ==> HoldsCell(t, leaves[i], t.pages[p].cells[j]);
  }

  /** A B+tree by the textbook definition is a well-formed tree. */
  lemma TextbookIsWellFormed(pages: PageMap, cfg: Config, root: PageNo, h: nat)
    requires IsTreeFile(pages, cfg, root, h)
    ensures WellFormed(ReadTree(pages, root, h), cfg)
  {
    var t := ReadTree(pages, root, h);
    ReadSkeleton(pages, cfg, root, h);
    var leaves := Leaves(pages, root, h);
    LeavesTile(t, root);
    forall p
      ensures LeafInRange(t, p)
    {
      if IsLeaf(t, p) {
        var s :| VisitedFromRoot(pages, root, h, p, s);
        ReadSpan(pages, cfg, root, h, p, s);
      }
    }
    TilesMap(t, leaves, 0, KEY_LIMIT);
    forall p | p in t.span
      ensures PageOk(t, p)
    {
      assert BonesOk(t, p);
      if t.span[p].level == 0 {
        LeafIsListed(t, leaves, p);
        var i :| 0 <= i < |leaves| && leaves[i] == p;
        ListedLinksOk(t, leaves, i);
        ListedCellsOk(t, leaves, i);
      }
    }
  }

  // ---------- both directions ----------

  lemma {:induction false} VisitsAreSpans(t: Tree, p: PageNo, q: PageNo, s: Span)
    requires Shape(t) && p in t.span
    requires Visits(t.pages, p, t.span[p].level, t.span[p].lo, t.span[p].hi, q, s)
    ensures q in t.span && t.span[q] == s
    decreases t.span[p].level
  {
    var g, r := t.pages[p], t.span[p];
    assert PageOk(t, p);
    if !(q == p && s == r) {
      var i :| 0 <= i <= |g.seps| && VisitsBelow(t.pages, p, r.level, r.lo, r.hi, i, q, s);
      assert ChildOk(t, p, i);
      VisitsAreSpans(t, Child(g, i), q, s);
    }
  }

  lemma WellFormedIsTextbook(t: Tree, cfg: Config)
    requires WellFormed(t, cfg)
    ensures IsTreeFile(t.pages, cfg, t.root, t.span[t.root].level)
  {
    var h := t.span[t.root].level;
    WellFormedIsBPlusTree(t, cfg);
    LeafListIsInOrder(t);
    forall q, s | VisitedFromRoot(t.pages, t.root, h, q, s)
      ensures q in t.span && t.span[q] == s && FIRST_PAGE < q
    {
      VisitsAreSpans(t, t.root, q, s);
      assert PageOk(t, q);
    }
  }

  ghost predicate IsWellFormedRoot(pages: PageMap, cfg: Config, root: PageNo, h: nat) {
    exists t :: WellFormed(t, cfg) && t.pages == pages && t.root == root && t.span[root].level == h
  }

  /** Pages are a well-formed tree under a root if and only if they are a B+tree of the textbook. */
  lemma WellFormedIffTextbook(pages: PageMap, cfg: Config, root: PageNo, h: nat)
    ensures IsWellFormedRoot(pages, cfg, root, h) <==> IsTreeFile(pages, cfg, root, h)
  {
    if IsWellFormedRoot(pages, cfg, root, h) {
      var t :| WellFormed(t, cfg) && t.pages == pages && t.root == root && t.span[root].level == h;
      WellFormedIsTextbook(t, cfg);
    }
    if IsTreeFile(pages, cfg, root, h) {
      TextbookIsWellFormed(pages, cfg, root, h);
      ReadSkeleton(pages, cfg, root, h);
      var t := ReadTree(pages, root, h);
      assert WellFormed(t, cfg) && t.pages == pages && t.root == root && t.span[root].level == h;
    }
  }
}
