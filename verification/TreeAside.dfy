/**
 The pages of a file that are not in the tree: those that a split left behind, and those of
 other trees. The operations on a tree leave them alone.
 */
module TreeAside {
  import opened Pages
  import opened PagerModel
  import opened TreeShape
  import opened TreeSteps
  import opened TreeSplits
  import opened TreeStore

  /** The page is in use, but not by the tree. */
  ghost predicate Aside(t: Tree, q: PageNo) {
    q in t.pages && q !in t.span && !t.pages[q].FreePage?
  }

  /** Pages beside the tree stay beside it, and stay as they are. */
  ghost predicate AsideKept(t: Tree, u: Tree) {
    forall q {:trigger Aside(t, q)} {:trigger Aside(u, q)} ::
      Aside(t, q) ==> Aside(u, q) && u.pages[q] == t.pages[q]
  }

  /** The tree that a page has left. */
  ghost function Less(t: Tree, p: PageNo): Tree {
    t.(span := t.span - {p})
  }

  lemma AsideTrans(t: Tree, u: Tree, v: Tree)
    requires AsideKept(t, u) && AsideKept(u, v)
    ensures AsideKept(t, v)
  {
    forall q | Aside(t, q)
      ensures Aside(v, q) && v.pages[q] == t.pages[q]
    {
      assert Aside(u, q);
    }
  }

  lemma LessKept(t: Tree, p: PageNo, u: Tree)
    requires AsideKept(Less(t, p), u)
    ensures AsideKept(t, u)
  {
    forall q | Aside(t, q)
      ensures Aside(u, q) && u.pages[q] == t.pages[q]
    {
      assert Aside(Less(t, p), q);
    }
  }

  /** Only pages of the tree were written, and no other page joined it. */
  lemma AsideWithin(t: Tree, u: Tree)
    requires forall q :: q in u.span ==> q in t.span
    requires forall q :: q in t.pages && q !in t.span ==> q in u.pages && u.pages[q] == t.pages[q]
    ensures AsideKept(t, u)
  {
  }

  /** Overflow pages are beside the tree. */
  lemma AsideOverflow(t: Tree, u: Tree)
    requires Typed(t) && AsideKept(t, u)
    ensures OverflowKept(t.pages, u.pages)
  {
    forall q | q in t.pages && t.pages[q].OverflowPage?
      ensures q in u.pages && u.pages[q] == t.pages[q]
    {
      assert Aside(t, q);
    }
  }

  // ---------- what the steps leave alone ----------

  lemma ShiftLeafAside(t: Tree, par: PageNo, i: nat, m: nat)
    requires SiblingLeaves(t, par, i)
    requires m < |t.pages[Child(t.pages[par], i)].cells| + |t.pages[Child(t.pages[par], i + 1)].cells|
    ensures AsideKept(t, ShiftLeaf(t, par, i, m))
  {
    AsideWithin(t, ShiftLeaf(t, par, i, m));
  }

  lemma ShiftNodeAside(t: Tree, par: PageNo, i: nat, m: nat)
    requires SiblingNodes(t, par, i)
    requires m <= |t.pages[Child(t.pages[par], i)].seps| + |t.pages[Child(t.pages[par], i + 1)].seps|
    ensures AsideKept(t, ShiftNode(t, par, i, m))
  {
    AsideWithin(t, ShiftNode(t, par, i, m));
  }

  lemma MergeLeafAside(t: Tree, par: PageNo, i: nat)
    requires SiblingLeaves(t, par, i)
    requires LinksTyped(t, Child(t.pages[par], i)) && LinksTyped(t, Child(t.pages[par], i + 1))
    ensures AsideKept(t, MergeLeaf(t, par, i))
  {
    AsideWithin(t, MergeLeaf(t, par, i));
  }

  lemma MergeNodeAside(t: Tree, par: PageNo, i: nat)
    requires SiblingNodes(t, par, i)
    ensures AsideKept(t, MergeNode(t, par, i))
  {
    AsideWithin(t, MergeNode(t, par, i));
  }

  /** A page that left the tree is given back. */
  lemma FreedAside(t: Tree, u: Tree, p: PageNo, free: Page)
    requires AsideKept(t, u) && p in t.span
    ensures AsideKept(t, u.(pages := u.pages[p := free]))
  {
    var v := u.(pages := u.pages[p := free]);
    forall q | Aside(t, q)
      ensures Aside(v, q) && v.pages[q] == t.pages[q]
    {
      assert Aside(u, q);
    }
  }

  /** A payload is stored on free pages and new ones. */
  lemma ChainAside(t: Tree, free: seq<PageNo>, pages': PageMap, chain: seq<PageNo>, payload: seq<Byte>, p: PageNo)
    requires NewChain(t.pages, free, pages', chain, payload, p) && (p in t.span || p !in t.pages)
    requires forall q :: q in free ==> q in t.pages && t.pages[q].FreePage?
    ensures AsideKept(t, t.(pages := pages'))
  {
    var u := t.(pages := pages');
    forall q | Aside(t, q)
      ensures Aside(u, q) && u.pages[q] == t.pages[q]
    {
      assert q !in chain;
    }
  }

  /** A split wrote its halves beside what there was; `at` is the parent or the new root. */
  lemma LeafSplitAside(t: Tree, p: PageNo, pages': PageMap, v: seq<LeafCell>, m: nat, left: PageNo, right: PageNo,
                       g: PageNo, at: PageNo, u: Tree)
    requires LinksTyped(t, p) && NULL_PAGE !in t.pages && m <= |v|
    requires LeavesSplit(t.pages, pages', t.pages[p], v, m, left, right)
    requires left !in t.pages && right !in t.pages && g !in t.pages
    requires Replaces(t.span, u.span, p, left, right, g) && (at == g || (at in t.span && at != p))
    requires forall q :: q in pages' && q != at ==> q in u.pages && u.pages[q] == pages'[q]
    ensures AsideKept(Less(t, p), u)
  {
    forall q | Aside(Less(t, p), q)
      ensures Aside(u, q) && u.pages[q] == t.pages[q]
    {
      assert q in pages' && pages'[q] == t.pages[q];
    }
  }

  lemma NodeSplitAside(t: Tree, p: PageNo, pages': PageMap, v: seq<NodeCell>, m: nat, left: PageNo, right: PageNo,
                       g: PageNo, at: PageNo, u: Tree)
    requires p in t.pages && t.pages[p].NodePage?
    requires m < |v| && NodesSplit(t.pages, pages', t.pages[p], v, m, left, right)
    requires left !in t.pages && right !in t.pages && g !in t.pages
    requires Replaces(t.span, u.span, p, left, right, g) && (at == g || (at in t.span && at != p))
    requires forall q :: q in pages' && q != at ==> q in u.pages && u.pages[q] == pages'[q]
    ensures AsideKept(Less(t, p), u)
  {
    forall q | Aside(Less(t, p), q)
      ensures Aside(u, q) && u.pages[q] == t.pages[q]
    {
      assert q in pages' && pages'[q] == t.pages[q];
    }
  }

  // ---------- a leaf that was the root ----------

  ghost function WholeRange(p: PageNo): map<PageNo, Span> {
    map[p := Span(0, 0, KEY_LIMIT)]
  }

  /** What becomes of a root that is a leaf: one that is split is left behind, else it stays. */
  ghost predicate RootLeafAfter(t: Tree, u: Tree, split: bool) {
    IsLeaf(t, t.root) ==>
      if split then u.root != t.root && AsideKept(Less(t, t.root), u) else u.root == t.root && IsLeaf(u, u.root)
  }

  /** What an operation leaves alone that splits nothing. */
  ghost predicate Undisturbed(t: Tree, u: Tree) {
    AsideKept(t, u) && RootLeafAfter(t, u, false)
  }

  lemma UndisturbedTrans(t: Tree, u: Tree, v: Tree)
    requires Undisturbed(t, u) && Undisturbed(u, v)
    ensures Undisturbed(t, v)
  {
    AsideTrans(t, u, v);
  }

  /** Pages were added to the file before the operation. */
  lemma AddedPages(t: Tree, pages: PageMap, v: Tree, split: bool)
    requires Typed(t) && forall q :: q in t.pages ==> q in pages && pages[q] == t.pages[q]
    requires AsideKept(t.(pages := pages), v) && RootLeafAfter(t.(pages := pages), v, split)
    ensures AsideKept(t, v) && RootLeafAfter(t, v, split)
  {
    var u := t.(pages := pages);
    AsideWithin(t, u);
    AsideTrans(t, u, v);
    if IsLeaf(t, t.root) && split {
      AsideWithin(Less(t, t.root), Less(u, t.root));
      AsideTrans(Less(t, t.root), Less(u, t.root), v);
    }
  }

  /** A leaf that is the whole tree is one in any file that has the same page. */
  lemma RootLeafAlone(t: Tree, cfg: Config, pages: PageMap)
    requires WellFormed(t, cfg) && IsLeaf(t, t.root)
    requires t.root in pages && pages[t.root] == t.pages[t.root]
    ensures WellFormed(Tree(pages, WholeRange(t.root), t.root, t.cells), cfg)
  {
    var u := Tree(pages, WholeRange(t.root), t.root, t.cells);
    assert PageOk(t, t.root) && Occupied(t, cfg, t.root);
    assert PageOk(u, t.root);
  }
}
