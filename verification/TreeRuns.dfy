/**
 Runs of operations on a tree: steps there and back, any sequence of insertions and removals
 from a new file, and a removal that the program's assertion stops (lib/btree/btree.cpp,
 lib/btree/utils.cpp).
 */
module TreeRuns {
  import opened Pages
  import opened PagerModel
  import opened TreeShape
  import opened TreePaths
  import opened TreeSplits
  import opened TreeScan
  import opened TreeStore
  import opened TreeAside
  import opened BTreeModel

  // ---------- there and back ----------

  /** A step forward that finds a key is undone by a step back, which finds one too. */
  method NextThenPrev(c: BTreeCursor) returns (moved: bool)
    requires c.Valid() && OnCell(c.T(), c.cursor)
    modifies c`cursor
    ensures moved ==> c.cursor == old(c.cursor)
    ensures !moved ==> c.cursor == [] && IsLastKey(c.Map().Keys, old(KeyAt(c.T(), c.cursor)))
  {
    ghost var t, start := c.T(), c.cursor;
    moved := c.Next();
    if moved {
      ghost var next := c.cursor;
      var back := c.Prev();
      assert KeyAt(t, start) in c.Map();
      PrevUndoesNext(t, start, next, c.cursor);
    }
  }

  method PrevThenNext(c: BTreeCursor) returns (moved: bool)
    requires c.Valid() && OnCell(c.T(), c.cursor)
    modifies c`cursor
    ensures moved ==> c.cursor == old(c.cursor)
    ensures !moved ==> c.cursor == [] && IsFirstKey(c.Map().Keys, old(KeyAt(c.T(), c.cursor)))
  {
    ghost var t, start := c.T(), c.cursor;
    moved := c.Prev();
    if moved {
      ghost var previous := c.cursor;
      var forth := c.Next();
      assert KeyAt(t, start) in c.Map();
      NextUndoesPrev(t, start, previous, c.cursor);
    }
  }

  // ---------- whole runs ----------

  datatype Op = InsertOp(key: Key, value: seq<Byte>) | RemoveOp(key: Key)

  /** What an operation makes of the map: a second insertion of a key is refused, and a key that
      is not there is not removed. */
  ghost function Apply(m: map<Key, seq<Byte>>, op: Op): map<Key, seq<Byte>> {
    match op
    case InsertOp(k, v) => if k in m then m else m[k := Stored(v)]
    case RemoveOp(k) => m - {k}
  }

  ghost function ApplyAll(m: map<Key, seq<Byte>>, ops: seq<Op>): map<Key, seq<Byte>> {
    if ops == [] then m else Apply(ApplyAll(m, ops[..|ops| - 1]), ops[|ops| - 1])
  }

  predicate OpOk(op: Op) {
    op.key < KEY_LIMIT && (op.InsertOp? ==> OffsetsFit(op.value))
  }

  /** Where assertions are compiled in, the operation ends in one that fails. */
  ghost predicate Aborts(t: Tree, cfg: Config, op: Op) {
    op.RemoveOp? && KeyUnderflowsAsLast(t, cfg, op.key)
  }

  /** The trees before each operation of a run, and the one behind the last. */
  ghost predicate Trace(trees: seq<Tree>, cfg: Config, ops: seq<Op>) {
    && |trees| == |ops| + 1
    && forall i {:trigger trees[i]} :: 0 <= i <= |ops| ==> StateAfter(trees[i], cfg, ops[..i])
  }

  ghost predicate StateAfter(t: Tree, cfg: Config, ops: seq<Op>) {
    WellFormed(t, cfg) && t.cells.Keys == ApplyAll(map[], ops).Keys
  }

  ghost predicate NoneAborts(trees: seq<Tree>, cfg: Config, ops: seq<Op>) {
    |ops| <= |trees| && forall i :: 0 <= i < |ops| ==> !Aborts(trees[i], cfg, ops[i])
  }

  /** Any sequence of insertions and removals on a new tree in a new file does what it does to a
      map. It stops at the first operation that aborts, where assertions are compiled in, and
      else runs to its end. */
  method Run(ops: seq<Op>, cfg: Config, asserts: bool)
    returns (c: BTreeCursor, done: nat, r: RemoveResult, ghost trees: seq<Tree>)
    requires cfg.Sound() && forall i :: 0 <= i < |ops| ==> OpOk(ops[i])
    ensures done <= |ops| && Trace(trees, cfg, ops[..done])
    ensures r == Removed ==> done == |ops| && c.Valid() && c.Map() == ApplyAll(map[], ops) && c.T() == trees[done]
    ensures r == AssertFailed ==> asserts && done < |ops| && Aborts(trees[done], cfg, ops[done])
    ensures asserts ==> NoneAborts(trees, cfg, ops[..done])
  {
    c := NewFile(cfg, asserts);
    done, trees := 0, [c.T()];
    assert ops[..0] == [];
    while done < |ops|
      invariant done <= |ops| && RanTo(c, ops[..done], trees)
      invariant c.asserts == asserts && c.cfg == cfg && fresh(c) && fresh(c.pager)
    {
      r := Perform(c, ops[done]);
      if r == AssertFailed {
        return;
      }
      RanMore(c, trees, ops, done);
      trees := trees + [c.T()];
      done := done + 1;
    }
    assert ops[..done] == ops;
    return c, done, Removed, trees;
  }

  /** The operations are done, and none of them aborted. */
  ghost predicate RanTo(c: BTreeCursor, ops: seq<Op>, trees: seq<Tree>)
    reads c, c.pager
  {
    && c.Valid() && c.Map() == ApplyAll(map[], ops)
    && Trace(trees, c.cfg, ops) && trees[|ops|] == c.T()
    && (c.asserts ==> NoneAborts(trees, c.cfg, ops))
  }

  lemma RanMore(c: BTreeCursor, trees: seq<Tree>, ops: seq<Op>, n: nat)
    requires n < |ops| && c.Valid() && c.Map() == Apply(ApplyAll(map[], ops[..n]), ops[n])
    requires Trace(trees, c.cfg, ops[..n])
    requires c.asserts ==> NoneAborts(trees, c.cfg, ops[..n]) && !Aborts(trees[n], c.cfg, ops[n])
    ensures RanTo(c, ops[..n + 1], trees + [c.T()])
  {
    assert ops[..n + 1][..n] == ops[..n];
    TraceMore(trees, c.cfg, ops, n, c.T());
    if c.asserts { NoneAbortsMore(trees, c.cfg, ops, n, c.T()); }
  }

  lemma TraceMore(trees: seq<Tree>, cfg: Config, ops: seq<Op>, n: nat, t: Tree)
    requires n < |ops| && Trace(trees, cfg, ops[..n]) && StateAfter(t, cfg, ops[..n + 1])
    ensures Trace(trees + [t], cfg, ops[..n + 1])
  {
    var more := trees + [t];
    forall i | 0 <= i <= n + 1
      ensures StateAfter(more[i], cfg, ops[..n + 1][..i])
    {
      assert ops[..n + 1][..i] == ops[..i];
      if i <= n {
        assert more[i] == trees[i] && ops[..n][..i] == ops[..i];
      }
    }
  }

  lemma NoneAbortsMore(trees: seq<Tree>, cfg: Config, ops: seq<Op>, n: nat, t: Tree)
    requires n < |ops| && NoneAborts(trees, cfg, ops[..n]) && n < |trees| && !Aborts(trees[n], cfg, ops[n])
    ensures NoneAborts(trees + [t], cfg, ops[..n + 1])
  {
    var more := trees + [t];
    forall i | 0 <= i <= n
      ensures !Aborts(more[i], cfg, ops[..n + 1][i])
    {
      assert more[i] == trees[i] && ops[..n + 1][i] == ops[i];
      if i < n { assert ops[..n][i] == ops[i]; }
    }
  }

  method Perform(c: BTreeCursor, op: Op) returns (r: RemoveResult)
    requires c.Valid() && OpOk(op)
    modifies c, c.pager
    ensures r == AssertFailed <==> c.asserts && old(Aborts(c.T(), c.cfg, op))
    ensures r == Removed ==> c.Valid() && c.Map() == Apply(old(c.Map()), op)
    ensures op.RemoveOp? ==> Undisturbed(old(c.T()), c.T())
  {
    match op
    case InsertOp(k, v) =>
      var ignored := c.Insert(k, v);
      return Removed;
    case RemoveOp(k) =>
      var found := c.MoveToKey(k);
      if !found {
        AbsentKey(c.T(), c.cfg, k);
        assert c.Map() - {k} == c.Map();
        return Removed;
      }
      KeyUnderCursor(c.T(), c.cfg, c.cursor, k);
      r := c.Remove();
  }

  /** `move_to_key`, then `remove`, of a key that is there. */
  method RemoveKey(c: BTreeCursor, k: Key) returns (r: RemoveResult)
    requires c.Valid() && k in c.Map() && k < KEY_LIMIT
    modifies c, c.pager
    ensures r == AssertFailed <==> c.asserts && old(KeyUnderflowsAsLast(c.T(), c.cfg, k))
    ensures r == Removed ==> c.Valid() && c.Map() == old(c.Map()) - {k}
    ensures Undisturbed(old(c.T()), c.T())
  {
    var found := c.MoveToKey(k);
    KeyUnderCursor(c.T(), c.cfg, c.cursor, k);
    r := c.Remove();
  }

  lemma AbsentKey(t: Tree, cfg: Config, k: Key)
    requires Shape(t) && k !in t.cells
    ensures !KeyUnderflowsAsLast(t, cfg, k)
  {
    if c :| OnKey(t, c, k) && UnderflowsAsLast(t, cfg, c) {
      KeyIsIn(t, c);
    }
  }

  /** There is one stack for a key, so the cursor's decides. */
  lemma KeyUnderCursor(t: Tree, cfg: Config, c: Stack, k: Key)
    requires Shape(t) && OnKey(t, c, k)
    ensures KeyUnderflowsAsLast(t, cfg, k) <==> UnderflowsAsLast(t, cfg, c)
  {
    if d :| OnKey(t, d, k) && UnderflowsAsLast(t, cfg, d) {
      StackOfKey(t, c, d, k);
    }
  }

  /** A cursor on a new tree in a new file. */
  method NewFile(cfg: Config, asserts: bool) returns (c: BTreeCursor)
    requires cfg.Sound()
    ensures fresh(c) && fresh(c.pager) && c.Valid() && c.Map() == map[] && c.asserts == asserts && c.cfg == cfg
  {
    var pager := new Pager();
    var root := pager.CreateLeafPage();
    ghost var span := map[root := Span(0, 0, KEY_LIMIT)];
    NewTree(pager.pages, root, cfg);
    c := new BTreeCursor(pager, root, cfg, asserts, span, map[], map[]);
  }

  lemma NewTree(pages: PageMap, root: PageNo, cfg: Config)
    requires FIRST_PAGE < root && cfg.Sound()
    requires root in pages && pages[root] == LeafPage([], NULL_PAGE, NULL_PAGE)
    ensures WellFormed(Tree(pages, map[root := Span(0, 0, KEY_LIMIT)], root, map[]), cfg)
    ensures StoreOk(pages, map[], map[]) && Contents(pages, map[], map[]) == map[]
  {
  }

  lemma DefaultsAreSound()
    ensures DEFAULT_CONFIG.Sound()
  {
  }

  // ---------- a removal that aborts ----------

  /** The leaf of the largest key is the last child of its parent, so that where assertions are
      compiled in no removal of the largest key survives when its leaf is at the minimum. */
  lemma LargestKeyUnderflows(t: Tree, cfg: Config, c: Stack)
    requires WellFormed(t, cfg) && cfg.Sound() && OnCell(t, c) && IsLastKey(t.cells.Keys, KeyAt(t, c))
    ensures UnderflowsAsLast(t, cfg, c) <==> |c| > 1 && |t.pages[Top(c).0].cells| == cfg.leafMin
  {
    if |c| > 1 {
      PathPop(t, c);
      KeyIsIn(t, c);
      var (par, i) := Top(Pop(c));
      if i < |t.pages[par].seps| {
        var k := KeyBehind(t, cfg, par, i);
        assert false;
      }
    }
  }

  lemma KeyBehind(t: Tree, cfg: Config, par: PageNo, i: nat) returns (k: Key)
    requires WellFormed(t, cfg) && cfg.Sound() && IsNode(t, par) && i < |t.pages[par].seps|
    requires IsLeaf(t, Child(t.pages[par], i))
    ensures k in t.cells && t.span[Child(t.pages[par], i)].hi <= k
  {
    assert PageOk(t, par) && ChildOk(t, par, i) && ChildOk(t, par, i + 1);
    NotRoot(t, par, i + 1);
    var q := Child(t.pages[par], i + 1);
    LeafHasCells(t, cfg, q);
    assert PageOk(t, q);
    k := t.pages[q].cells[0].key;
  }

  /** Two insertions and the removal of the larger key, in leaves that hold one cell. */
  method AbortingRun() returns (c: BTreeCursor, r: RemoveResult)
    ensures r == AssertFailed
  {
    c := TwoKeys([]);
    var found := c.MoveToKey(2);
    TwoLeaves(c.T(), c.cfg, c.cursor);
    r := c.Remove();
  }

  method TwoKeys(value: seq<Byte>) returns (c: BTreeCursor)
    requires OffsetsFit(value)
    ensures fresh(c) && fresh(c.pager) && c.Valid() && c.asserts && c.cfg == Config(1, 1, 1, 2)
    ensures c.Map().Keys == {1, 2}
  {
    c := NewFile(Config(1, 1, 1, 2), true);
    var first := Perform(c, InsertOp(1, value));
    var second := Perform(c, InsertOp(2, value));
    assert Apply(Apply(map[], InsertOp(1, value)), InsertOp(2, value)).Keys == {1, 2};
  }

  lemma TwoLeaves(t: Tree, cfg: Config, c: Stack)
    requires WellFormed(t, cfg) && cfg == Config(1, 1, 1, 2) && OnKey(t, c, 2) && t.cells.Keys == {1, 2}
    ensures UnderflowsAsLast(t, cfg, c)
  {
    var p := Top(c).0;
    assert PageOk(t, p) && Occupied(t, cfg, p);
    if p == t.root {
      TwoCells(t.pages[p].cells, t.cells, 1, 2);
      assert false;
    }
    LargestKeyUnderflows(t, cfg, c);
  }

  lemma TwoCells(cells: seq<LeafCell>, all: map<Key, LeafCell>, j: Key, k: Key)
    requires CellsOk(cells, all, 0, KEY_LIMIT) && j < k < KEY_LIMIT
    requires j in all && k in all && all[j].key == j && all[k].key == k
    ensures |cells| > 1
  {
    assert all[j] in cells && all[k] in cells;
  }
}
