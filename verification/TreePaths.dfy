/**
 Cursor stacks as paths from the root of a tree, and what the tree operations leave of
 paths and of the occupancy bounds.
 */
module TreePaths {
  import opened Pages
  import opened TreeShape
  import opened TreeSteps

  /** A cursor stack, bottom first: pages with the index of a child or, at the top, of a cell. */
  type Stack = seq<(PageNo, nat)>

  ghost predicate StepOk(t: Tree, c: Stack, j: nat)
    requires j + 1 < |c|
  {
    && IsNode(t, c[j].0) && c[j].1 <= |t.pages[c[j].0].seps|
    && Child(t.pages[c[j].0], c[j].1) == c[j + 1].0
  }

  ghost predicate LevelOk(t: Tree, c: Stack, j: nat)
    requires j < |c| && t.root in t.span
  {
    c[j].0 in t.span && t.span[c[j].0].level + j == t.span[t.root].level
  }

  /** The stack leads from the root down, one child at a time. */
  ghost predicate IsPath(t: Tree, c: Stack) {
    && t.root in t.span
    && |c| > 0 && c[0].0 == t.root
    && (forall j :: 0 <= j < |c| ==> LevelOk(t, c, j))
    && (forall j :: 0 <= j < |c| - 1 ==> StepOk(t, c, j))
  }

  function Top(c: Stack): (PageNo, nat)
    requires |c| > 0
  {
    c[|c| - 1]
  }

  function Pop(c: Stack): Stack
    requires |c| > 0
  {
    c[..|c| - 1]
  }

  /** A path that ends at a slot of a node. */
  ghost predicate IsNodePath(t: Tree, c: Stack) {
    IsPath(t, c) && IsNode(t, Top(c).0) && Top(c).1 <= |t.pages[Top(c).0].seps|
  }

  /** A path that ends at a cell of a leaf, or one past its last cell. */
  ghost predicate IsLeafPath(t: Tree, c: Stack) {
    IsPath(t, c) && IsLeaf(t, Top(c).0) && Top(c).1 <= |t.pages[Top(c).0].cells|
  }

  lemma PathPush(t: Tree, c: Stack, i: nat)
    requires Shape(t) && IsNodePath(t, c)
    ensures IsPath(t, c + [(Child(t.pages[Top(c).0], Top(c).1), i)])
    ensures IsLeaf(t, Child(t.pages[Top(c).0], Top(c).1)) || IsNode(t, Child(t.pages[Top(c).0], Top(c).1))
  {
    var p := Top(c).0;
    var d := c + [(Child(t.pages[p], Top(c).1), i)];
    assert LevelOk(t, c, |c| - 1);
    assert PageOk(t, p);
    assert ChildOk(t, p, Top(c).1);
    forall j | 0 <= j < |d|
      ensures LevelOk(t, d, j)
    {
      if j < |c| { assert LevelOk(t, c, j); }
    }
    forall j | 0 <= j < |d| - 1
      ensures StepOk(t, d, j)
    {
      if j < |c| - 1 { assert StepOk(t, c, j); }
    }
  }

  lemma PathPop(t: Tree, c: Stack)
    requires IsPath(t, c) && |c| > 1
    ensures IsNodePath(t, Pop(c)) && Child(t.pages[Top(Pop(c)).0], Top(Pop(c)).1) == Top(c).0
  {
    var d := Pop(c);
    assert StepOk(t, c, |c| - 2);
    forall j | 0 <= j < |d|
      ensures LevelOk(t, d, j)
    {
      assert LevelOk(t, c, j);
    }
    forall j | 0 <= j < |d| - 1
      ensures StepOk(t, d, j)
    {
      assert StepOk(t, c, j);
    }
  }

  /** Another index at the top. */
  lemma PathMove(t: Tree, c: Stack, i: nat)
    requires IsPath(t, c)
    ensures IsPath(t, Pop(c) + [(Top(c).0, i)])
  {
    var d := Pop(c) + [(Top(c).0, i)];
    forall j | 0 <= j < |d|
      ensures LevelOk(t, d, j)
    {
      assert LevelOk(t, c, j);
    }
    forall j | 0 <= j < |d| - 1
      ensures StepOk(t, d, j)
    {
      assert StepOk(t, c, j);
    }
  }

  /** A path is kept when the pages above its top are. */
  lemma PathFrame(t: Tree, u: Tree, c: Stack)
    requires IsPath(t, c) && u.root == t.root
    requires forall j :: 0 <= j < |c| ==> SameSpan(t, u, c[j].0)
    requires forall j :: 0 <= j < |c| - 1 ==>
             c[j].0 in t.pages && c[j].0 in u.pages && u.pages[c[j].0] == t.pages[c[j].0]
    ensures IsPath(u, c)
  {
    assert SameSpan(t, u, c[0].0);
    forall j | 0 <= j < |c|
      ensures LevelOk(u, c, j)
    {
      assert LevelOk(t, c, j);
      assert SameSpan(t, u, c[j].0);
    }
    forall j | 0 <= j < |c| - 1
      ensures StepOk(u, c, j)
    {
      assert StepOk(t, c, j);
      assert SameSpan(t, u, c[j].0);
    }
  }

  lemma PathLevels(t: Tree, c: Stack, j: nat)
    requires IsPath(t, c) && j < |c|
    ensures c[j].0 in t.span && Top(c).0 in t.span && t.span[c[j].0].level == t.span[Top(c).0].level + (|c| - 1 - j)
  {
    assert LevelOk(t, c, j) && LevelOk(t, c, |c| - 1);
  }

  /** A path to a node below which the tree changed, and in which nothing else changed. */
  lemma PathKept(t: Tree, u: Tree, c: Stack)
    requires IsNodePath(t, c) && u.root == t.root
    requires forall p :: p in t.span && t.span[p].level >= t.span[Top(c).0].level ==> SameSpan(t, u, p)
    requires forall p :: p in t.span && t.span[p].level > t.span[Top(c).0].level ==>
               p in t.pages && p in u.pages && u.pages[p] == t.pages[p]
    ensures IsPath(u, c)
  {
    forall j | 0 <= j < |c|
      ensures SameSpan(t, u, c[j].0)
      ensures j < |c| - 1 ==> c[j].0 in t.pages && c[j].0 in u.pages && u.pages[c[j].0] == t.pages[c[j].0]
    {
      PathLevels(t, c, j);
      if j < |c| - 1 { assert StepOk(t, c, j); }
    }
    PathFrame(t, u, c);
  }

  /** A path stays one when only its top page changed. */
  lemma SamePath(t: Tree, u: Tree, stack: Stack)
    requires IsPath(t, stack) && Typed(t) && u.span == t.span && u.root == t.root
    requires forall q :: q in t.span && q != Top(stack).0 ==> q in u.pages && u.pages[q] == t.pages[q]
    ensures IsPath(u, stack)
  {
    forall j | 0 <= j < |stack|
      ensures SameSpan(t, u, stack[j].0)
      ensures j < |stack| - 1 ==>
              stack[j].0 in t.pages && stack[j].0 in u.pages && u.pages[stack[j].0] == t.pages[stack[j].0]
    {
      PathLevels(t, stack, j);
      if j < |stack| - 1 { assert StepOk(t, stack, j); }
    }
    PathFrame(t, u, stack);
  }

  // ---------- occupancy ----------

  lemma GrowOccupied(t: Tree, cfg: Config, g: PageNo, xs: set<PageNo>)
    requires Shape(t) && OccupiedBut(t, cfg, xs) && t.root in xs && g !in t.span
    requires Typed(Grow(t, g))
    ensures OccupiedBut(Grow(t, g), cfg, xs + {g})
  {
    var u := Grow(t, g);
    forall p | p in u.span && p !in xs + {g}
      ensures Occupied(u, cfg, p)
    {
      assert Occupied(t, cfg, p);
    }
  }

  /** Only `a` and `b` and the pages in `xs` changed their number of cells. */
  lemma OccupiedFrame(t: Tree, u: Tree, cfg: Config, xs: set<PageNo>, ys: set<PageNo>)
    requires Typed(t) && Typed(u) && OccupiedBut(t, cfg, xs)
    requires forall p :: p in u.span && p !in ys ==>
               && p in t.span && p !in xs && t.span[p].level == u.span[p].level
               && (p == u.root <==> p == t.root)
               && (IsLeaf(t, p) && IsLeaf(u, p) ==> |u.pages[p].cells| == |t.pages[p].cells|)
               && (IsNode(t, p) && IsNode(u, p) ==> |u.pages[p].seps| == |t.pages[p].seps|)
    ensures OccupiedBut(u, cfg, ys)
  {
    forall p | p in u.span && p !in ys
      ensures Occupied(u, cfg, p)
    {
      assert Occupied(t, cfg, p);
      assert IsLeaf(u, p) || IsNode(u, p);
    }
  }

  /** Pages left out one by one can be added when they are within their bounds. */
  lemma OccupiedAdd(t: Tree, cfg: Config, xs: set<PageNo>, x: PageNo)
    requires Typed(t) && OccupiedBut(t, cfg, xs)
    requires x in t.span ==> Occupied(t, cfg, x)
    ensures OccupiedBut(t, cfg, xs - {x})
  {
    forall p | p in t.span && p !in xs - {x}
      ensures Occupied(t, cfg, p)
    {
    }
  }
}
