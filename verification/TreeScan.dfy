/**
 Cursors on keys: which stack stands for a key, and how a stack that runs off one leaf finds
 the next one.
 */
module TreeScan {
  import opened Pages
  import opened TreeShape
  import opened TreePaths
  import opened TreeSplits

  /** The stack ends at the cell with key `k`. */
  ghost predicate OnKey(t: Tree, c: Stack, k: Key) {
    && IsLeafPath(t, c) && Top(c).1 < |t.pages[Top(c).0].cells|
    && t.pages[Top(c).0].cells[Top(c).1].key == k
  }

  /** The stack ends at a cell. */
  ghost predicate OnCell(t: Tree, c: Stack) {
    IsLeafPath(t, c) && Top(c).1 < |t.pages[Top(c).0].cells|
  }

  ghost function KeyAt(t: Tree, c: Stack): Key
    requires OnCell(t, c)
  {
    t.pages[Top(c).0].cells[Top(c).1].key
  }

  ghost predicate IsFirstKey(keys: set<Key>, k: Key) {
    k in keys && forall x :: x in keys ==> k <= x
  }

  ghost predicate IsLastKey(keys: set<Key>, k: Key) {
    k in keys && forall x :: x in keys ==> x <= k
  }

  /** `k2` comes right behind `k1`. */
  ghost predicate Consecutive(keys: set<Key>, k1: Key, k2: Key) {
    k1 in keys && k2 in keys && k1 < k2 && forall x :: x in keys ==> x <= k1 || k2 <= x
  }

  /** From the key under `c` to the next one, under `d`. */
  ghost predicate StepsTo(t: Tree, c: Stack, d: Stack) {
    OnCell(t, c) && OnCell(t, d) && Consecutive(t.cells.Keys, KeyAt(t, c), KeyAt(t, d))
  }

  /** The leaf on top of the stack has as few cells as it may, and is the last child of its parent. */
  ghost predicate UnderflowsAsLast(t: Tree, cfg: Config, c: Stack) {
    && IsLeafPath(t, c) && |c| > 1
    && |t.pages[Top(c).0].cells| == cfg.leafMin
    && Top(Pop(c)).1 == SepsIn(t.pages, Top(Pop(c)).0)
  }

  /** The same of the leaf that holds a key. */
  ghost predicate KeyUnderflowsAsLast(t: Tree, cfg: Config, k: Key) {
    exists c :: OnKey(t, c, k) && UnderflowsAsLast(t, cfg, c)
  }

  // ---------- one stack for each key ----------

  lemma {:induction false} PathUnique(t: Tree, c: Stack, d: Stack)
    requires Shape(t) && IsPath(t, c) && IsPath(t, d) && Top(c).0 == Top(d).0
    ensures Pop(c) == Pop(d)
    decreases |c|
  {
    PathLevels(t, c, 0);
    PathLevels(t, d, 0);
    if |c| > 1 {
      PathPop(t, c);
      PathPop(t, d);
      ChildUnique(t, Top(Pop(c)).0, Top(Pop(c)).1, Top(Pop(d)).0, Top(Pop(d)).1);
      PathUnique(t, Pop(c), Pop(d));
      assert Pop(c) == Pop(Pop(c)) + [Top(Pop(c))];
      assert Pop(d) == Pop(Pop(d)) + [Top(Pop(d))];
    }
  }

  /** The key under a cursor determines the whole stack. */
  lemma StackOfKey(t: Tree, c: Stack, d: Stack, k: Key)
    requires Shape(t) && OnKey(t, c, k) && OnKey(t, d, k)
    ensures c == d
  {
    var p, q := Top(c).0, Top(d).0;
    assert PageOk(t, p) && PageOk(t, q);
    assert Apart(t.span, p, q);
    assert p == q;
    assert Top(c).1 == Top(d).1;
    PathUnique(t, c, d);
    assert c == Pop(c) + [Top(c)] && d == Pop(d) + [Top(d)];
  }

  /** A step forward and a step back end where they began, stack and all. */
  lemma PrevUndoesNext(t: Tree, c: Stack, d: Stack, e: Stack)
    requires Shape(t) && StepsTo(t, c, d) && StepsTo(t, e, d)
    ensures e == c
  {
    StackOfKey(t, c, e, KeyAt(t, c));
  }

  lemma NextUndoesPrev(t: Tree, c: Stack, d: Stack, e: Stack)
    requires Shape(t) && StepsTo(t, d, c) && StepsTo(t, d, e)
    ensures e == c
  {
    StackOfKey(t, c, e, KeyAt(t, c));
  }

  lemma KeyIsIn(t: Tree, c: Stack)
    requires Shape(t) && OnCell(t, c)
    ensures var k, s := KeyAt(t, c), t.span[Top(c).0];
            k in t.cells && t.cells[k] == t.pages[Top(c).0].cells[Top(c).1] && s.lo <= k < s.hi
  {
    assert PageOk(t, Top(c).0);
  }

  // ---------- walking off a leaf ----------

  /** The subtree chosen by the stack ends at `hi`; an empty stack has chosen everything. */
  ghost predicate EndsAt(t: Tree, c: Stack, hi: nat) {
    if c == [] then hi == KEY_LIMIT
    else IsNodePath(t, c) && SepHi(t.pages[Top(c).0], t.span[Top(c).0].hi, Top(c).1) == hi
  }

  ghost predicate StartsAt(t: Tree, c: Stack, lo: nat) {
    if c == [] then lo == 0
    else IsNodePath(t, c) && SepLo(t.pages[Top(c).0], t.span[Top(c).0].lo, Top(c).1) == lo
  }

  lemma PopEnds(t: Tree, c: Stack)
    requires Shape(t) && IsPath(t, c)
    ensures Top(c).0 in t.span && EndsAt(t, Pop(c), t.span[Top(c).0].hi)
    ensures StartsAt(t, Pop(c), t.span[Top(c).0].lo)
  {
    if |c| > 1 {
      PathPop(t, c);
      assert PageOk(t, Top(Pop(c)).0);
      assert ChildOk(t, Top(Pop(c)).0, Top(Pop(c)).1);
    }
  }

  /** A path on which another child can be chosen: the page to descend to. */
  lemma Choose(t: Tree, c: Stack, i: nat)
    requires Shape(t) && IsNodePath(t, c) && i <= |t.pages[Top(c).0].seps|
    ensures var d := Pop(c) + [(Top(c).0, i)]; var g := t.pages[Top(c).0]; var q := Child(g, i);
            && IsPath(t, d + [(q, 0)]) && (IsLeaf(t, q) || IsNode(t, q))
            && t.span[q].lo == SepLo(g, t.span[Top(c).0].lo, i)
            && t.span[q].hi == SepHi(g, t.span[Top(c).0].hi, i)
            && t.span[q].level < t.span[Top(c).0].level
            && q != t.root
  {
    PathMove(t, c, i);
    assert PageOk(t, Top(c).0);
    assert ChildOk(t, Top(c).0, i);
    PathPush(t, Pop(c) + [(Top(c).0, i)], 0);
  }

  /** A leaf that begins where the cursor's leaf ends holds the next key in its first cell. */
  lemma NextLeaf(t: Tree, cfg: Config, c: Stack, d: Stack)
    requires WellFormed(t, cfg) && cfg.Sound() && OnCell(t, c) && IsLeafPath(t, d)
    requires Top(c).1 + 1 == |t.pages[Top(c).0].cells| && Top(d).1 == 0 && Top(d).0 != t.root
    requires t.span[Top(d).0].lo == t.span[Top(c).0].hi
    ensures StepsTo(t, c, d)
  {
    var p, q := Top(c).0, Top(d).0;
    assert PageOk(t, p) && PageOk(t, q);
    assert Occupied(t, cfg, q);
    forall x | x in t.cells
      ensures x <= KeyAt(t, c) || KeyAt(t, d) <= x
    {
      if t.span[p].lo <= x < t.span[p].hi { assert t.cells[x] in t.pages[p].cells; }
      if t.span[q].lo <= x < t.span[q].hi { assert t.cells[x] in t.pages[q].cells; }
    }
  }

  /** A leaf that ends where the cursor's leaf begins holds the previous key in its last cell. */
  lemma PrevLeaf(t: Tree, cfg: Config, c: Stack, d: Stack)
    requires WellFormed(t, cfg) && cfg.Sound() && OnCell(t, c) && IsLeafPath(t, d)
    requires Top(c).1 == 0 && Top(d).1 + 1 == |t.pages[Top(d).0].cells|
    requires t.span[Top(d).0].hi == t.span[Top(c).0].lo
    ensures StepsTo(t, d, c)
  {
    var p, q := Top(c).0, Top(d).0;
    assert PageOk(t, p) && PageOk(t, q);
    forall x | x in t.cells
      ensures x <= KeyAt(t, d) || KeyAt(t, c) <= x
    {
      if t.span[p].lo <= x < t.span[p].hi { assert t.cells[x] in t.pages[p].cells; }
      if t.span[q].lo <= x < t.span[q].hi { assert t.cells[x] in t.pages[q].cells; }
    }
  }

  /** The next cell of the same leaf. */
  lemma SameLeaf(t: Tree, c: Stack, i: nat)
    requires Shape(t) && OnCell(t, c) && i < |t.pages[Top(c).0].cells|
    ensures var d := Pop(c) + [(Top(c).0, i)];
            && OnCell(t, d)
            && (i == Top(c).1 + 1 ==> StepsTo(t, c, d))
            && (i + 1 == Top(c).1 ==> StepsTo(t, d, c))
  {
    var p := Top(c).0;
    PathMove(t, c, i);
    assert PageOk(t, p);
    var cells := t.pages[p].cells;
    assert cells[i].key in t.cells && cells[Top(c).1].key in t.cells;
    forall x | x in t.cells && t.span[p].lo <= x < t.span[p].hi
      ensures exists j :: 0 <= j < |cells| && cells[j].key == x
    {
      assert t.cells[x] in cells;
    }
  }

  lemma LastCellIsLast(t: Tree, c: Stack)
    requires Shape(t) && OnCell(t, c)
    requires Top(c).1 + 1 == |t.pages[Top(c).0].cells| && t.span[Top(c).0].hi == KEY_LIMIT
    ensures IsLastKey(t.cells.Keys, KeyAt(t, c))
  {
    var p := Top(c).0;
    assert PageOk(t, p);
    forall x | x in t.cells
      ensures x <= KeyAt(t, c)
    {
      if t.span[p].lo <= x { assert t.cells[x] in t.pages[p].cells; }
    }
  }

  lemma FirstCellIsFirst(t: Tree, c: Stack)
    requires Shape(t) && OnCell(t, c)
    requires Top(c).1 == 0 && t.span[Top(c).0].lo == 0
    ensures IsFirstKey(t.cells.Keys, KeyAt(t, c))
  {
    var p := Top(c).0;
    assert PageOk(t, p);
    forall x | x in t.cells
      ensures KeyAt(t, c) <= x
    {
      if x < t.span[p].hi { assert t.cells[x] in t.pages[p].cells; }
    }
  }

  /** A leaf below the root has cells; a leaf that is the root has all of them. */
  lemma LeafHasCells(t: Tree, cfg: Config, p: PageNo)
    requires WellFormed(t, cfg) && cfg.Sound() && IsLeaf(t, p)
    ensures p != t.root || t.cells != map[] ==> |t.pages[p].cells| > 0
    ensures |t.pages[p].cells| > 0 ==> t.cells != map[]
  {
    assert PageOk(t, p) && Occupied(t, cfg, p);
    if p == t.root && t.cells != map[] {
      var k :| k in t.cells;
      assert t.cells[k] in t.pages[p].cells;
    }
    if |t.pages[p].cells| > 0 {
      assert t.pages[p].cells[0].key in t.cells;
    }
  }

  lemma NodeRootHasCells(t: Tree, cfg: Config)
    requires WellFormed(t, cfg) && cfg.Sound() && IsNode(t, t.root)
    ensures t.cells != map[]
    decreases t.span[t.root].level
  {
    var p := t.root;
    assert PageOk(t, p);
    while t.span[p].level > 0
      invariant p in t.span && (p == t.root ==> IsNode(t, p))
      decreases t.span[p].level
    {
      assert PageOk(t, p);
      assert ChildOk(t, p, 0);
      NotRoot(t, p, 0);
      p := Child(t.pages[p], 0);
    }
    assert PageOk(t, p);
    LeafHasCells(t, cfg, p);
  }
}
