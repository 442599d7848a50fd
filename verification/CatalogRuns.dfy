/**
 Runs of a catalog: tables created and dropped in a new file, and the catalog opened again on
 the file that they leave (lib/catalog/catalog.cpp). A catalog looks for the schema tree on page
 2, where its root is until that leaf is split.
 */
module CatalogRuns {
  import opened Pages
  import opened PagerModel
  import opened Encoding
  import opened TableCodec
  import opened TreeShape
  import opened TreeStore
  import opened TreeAside
  import opened BTreeModel
  import opened CatalogModel

  datatype CatalogOp = Create(table: Table) | Drop(name: Name)

  /** A run stops at a name in use, at an oid in use once the 32-bit oids have wrapped, and at a
      removal that aborts. */
  datatype RunEnd = Completed | NameInUse | OidInUse | Aborted

  const FIRST_OID: Key := 1

  predicate OpFits(op: CatalogOp) {
    op.Create? ==> PayloadFits(op.table)
  }

  // ---------- what the operations make of the tables ----------

  /** The live tables and the recorded dependencies. */
  datatype Memory = Memory(tables: map<Name, Table>, deps: Dependencies)

  ghost function Does(m: Memory, op: CatalogOp): Memory {
    match op
    case Create(t) =>
      Memory(m.tables[t.name := t], m.deps[t.tblName := DepsOf(m.deps, t.tblName) + [t.name]])
    case Drop(name) =>
      Memory(map n | n in m.tables && !Reachable(m.deps, m.tables.Keys, name, n) :: m.tables[n], m.deps)
  }

  ghost function After(ops: seq<CatalogOp>): Memory {
    if ops == [] then Memory(map[], map[]) else Does(After(ops[..|ops| - 1]), ops[|ops| - 1])
  }

  lemma AfterMore(ops: seq<CatalogOp>, op: CatalogOp)
    ensures After(ops + [op]) == Does(After(ops), op)
  {
    assert (ops + [op])[..|ops|] == ops;
  }

  lemma DropIsDone(deps: Dependencies, before: map<Name, Table>, after: map<Name, Table>, name: Name)
    requires Cascade(deps, before.Keys, after.Keys, name)
    requires forall n :: n in after ==> n in before && after[n] == before[n]
    ensures Memory(after, deps) == Does(Memory(before, deps), Drop(name))
  {
    forall n | n in before
      ensures n in after <==> !Reachable(deps, before.Keys, name, n)
    {
      CascadeIsReachability(deps, before.Keys, after.Keys, name, n);
    }
  }

  /** The first creation that finds as many live tables as a leaf holds, or the end of the run:
      it splits the leaf on the schema page, and the root of the schema tree moves. */
  ghost function MovesAt(ops: seq<CatalogOp>, limit: nat): (n: nat)
    ensures n <= |ops|
  {
    if ops == [] then 0
    else
      var rest := ops[..|ops| - 1];
      var n := MovesAt(rest, limit);
      if n < |rest| then n
      else if ops[|rest|].Create? && |After(rest).tables| == limit then |rest|
      else |ops|
  }

  lemma MovesMore(ops: seq<CatalogOp>, op: CatalogOp, limit: nat)
    ensures MovesAt(ops + [op], limit) ==
            if MovesAt(ops, limit) < |ops| || (op.Create? && |After(ops).tables| == limit) then MovesAt(ops, limit)
            else |ops| + 1
  {
    assert (ops + [op])[..|ops|] == ops;
  }

  // ---------- dependencies ----------

  /** Every live table is recorded under the table it belongs to. */
  ghost predicate DepsCover(deps: Dependencies, tables: map<Name, Table>) {
    forall n :: n in tables ==> n in DepsOf(deps, tables[n].tblName)
  }

  lemma CoverMore(deps: Dependencies, tables: map<Name, Table>, t: Table)
    requires DepsCover(deps, tables)
    ensures DepsCover(deps[t.tblName := DepsOf(deps, t.tblName) + [t.name]], tables[t.name := t])
  {
    var deps', tables' := deps[t.tblName := DepsOf(deps, t.tblName) + [t.name]], tables[t.name := t];
    forall n | n in tables'
      ensures n in DepsOf(deps', tables'[n].tblName)
    {
      if n == t.name {
        assert DepsOf(deps', t.tblName)[|DepsOf(deps, t.tblName)|] == n;
      } else {
        assert n in DepsOf(deps, tables[n].tblName);
      }
    }
  }

  /** A drop leaves no table that belongs to one it dropped. */
  lemma NoOrphans(deps: Dependencies, before: map<Name, Table>, after: map<Name, Table>, name: Name)
    requires DepsCover(deps, before) && Cascade(deps, before.Keys, after.Keys, name)
    requires forall n :: n in after ==> n in before && after[n] == before[n]
    ensures forall n :: n in after && after[n].tblName in before ==> after[n].tblName in after
    ensures DepsCover(deps, after)
  {
    forall n | n in after
      ensures n in DepsOf(deps, after[n].tblName)
    {
      assert n in DepsOf(deps, before[n].tblName);
    }
  }

  /** A drop leaves its tables in the lists of dependencies: those are the lists of the live tables
      afterwards if and only if nothing was dropped. */
  lemma DropLeavesNames(deps: Dependencies, before: map<Name, Table>, after: map<Name, Table>)
    requires DepsMatch(deps, before)
    requires forall n :: n in after ==> n in before && after[n] == before[n]
    ensures DepsMatch(deps, after) <==> after == before
  {
    forall n | n in before
      ensures n in DepsOf(deps, before[n].tblName)
    {
    }
  }

  /** What was once created under a table stays recorded under it. */
  lemma {:induction false} DepsStay(ops: seq<CatalogOp>, t: Table)
    requires Create(t) in ops
    ensures t.name in DepsOf(After(ops).deps, t.tblName)
    decreases |ops|
  {
    var rest := ops[..|ops| - 1];
    var op := ops[|ops| - 1];
    if op == Create(t) {
      assert DepsOf(After(ops).deps, t.tblName)[|DepsOf(After(rest).deps, t.tblName)|] == t.name;
    } else {
      assert Create(t) in rest;
      DepsStay(rest, t);
    }
  }

  /** A table that was once created under `p` goes with `p`, whatever it was created under since. */
  lemma StillDropped(ops: seq<CatalogOp>, t: Table, p: Name)
    requires Create(t) in ops && t.tblName == p && p in After(ops).tables
    ensures t.name !in After(ops + [Drop(p)]).tables
  {
    var m := After(ops);
    AfterMore(ops, Drop(p));
    DepsStay(ops, t);
    if t.name in m.tables {
      assert Walk(m.deps, m.tables.Keys, t.name, t.name, 0);
      WalkFurther(m.deps, m.tables.Keys, p, t.name, t.name, 0);
    }
  }

  /** In a catalog whose lists are those of its live tables, a table of `q` stays when another
      table is dropped. */
  lemma KeptByOthers(m: Memory, n: Name, q: Name, p: Name)
    requires DepsMatch(m.deps, m.tables) && n in m.tables && q in m.tables
    requires m.tables[n].tblName == q && m.tables[q].tblName == q && p != n && p != q
    ensures n in Does(m, Drop(p)).tables
  {
    if Reachable(m.deps, m.tables.Keys, p, n) {
      var d: nat :| Walk(m.deps, m.tables.Keys, p, n, d);
      WalkStays(m, n, q, p, n, d);
    }
  }

  lemma {:induction false} WalkStays(m: Memory, n: Name, q: Name, a: Name, b: Name, d: nat)
    requires DepsMatch(m.deps, m.tables) && n in m.tables && q in m.tables
    requires m.tables[n].tblName == q && m.tables[q].tblName == q
    requires Walk(m.deps, m.tables.Keys, a, b, d) && (b == n || b == q)
    ensures a == n || a == q
    decreases d
  {
    if d > 0 {
      var c :| c in DepsOf(m.deps, a) && Walk(m.deps, m.tables.Keys, c, b, d - 1);
      WalkStays(m, n, q, c, b, d - 1);
    }
  }

  // ---------- how many tables there are ----------

  lemma {:induction false} CellCount(cells: seq<LeafCell>, all: map<Key, LeafCell>)
    requires Sorted(cells)
    requires forall i :: 0 <= i < |cells| ==> cells[i].key in all && all[cells[i].key] == cells[i]
    requires forall k :: k in all ==> all[k] in cells && all[k].key == k
    ensures |cells| == |all|
    decreases |cells|
  {
    if cells == [] {
      assert all == map[];
    } else {
      var n := |cells| - 1;
      OtherCells(cells, all, n);
      CellCount(cells[..n], all - {cells[n].key});
      assert all.Keys == (all - {cells[n].key}).Keys + {cells[n].key};
    }
  }

  lemma OtherCells(cells: seq<LeafCell>, all: map<Key, LeafCell>, n: nat)
    requires n + 1 == |cells| && forall k :: k in all ==> all[k] in cells && all[k].key == k
    ensures forall k :: k in all - {cells[n].key} ==> all[k] in cells[..n]
  {
    forall k | k in all - {cells[n].key}
      ensures all[k] in cells[..n]
    {
      var i :| 0 <= i < |cells| && cells[i] == all[k];
      assert cells[..n][i] == all[k];
    }
  }

  lemma {:induction false} EntryCount(m: map<Key, Bytes>, tables: map<Name, Table>, oids: map<Name, Key>,
                                      roots: map<Name, PageNo>)
    requires InStep(m, tables, oids, roots)
    ensures |m| == |tables|
    decreases |tables|
  {
    if tables == map[] {
      assert forall k :: k !in m;
    } else {
      var n :| n in tables;
      assert Recorded(m, tables, oids, roots, n);
      InStepDrop(m, tables, oids, roots, n);
      assert (tables - {n}).Keys == tables.Keys - {n};
      EntryCount(m - {oids[n]}, tables - {n}, oids - {n}, roots);
      assert (m - {oids[n]}).Keys == m.Keys - {oids[n]};
    }
  }

  /** A root that is a leaf has a cell for each live table. */
  lemma RootCount(t: Tree, m: map<Key, Bytes>, tables: map<Name, Table>, oids: map<Name, Key>, roots: map<Name, PageNo>)
    requires Shape(t) && IsLeaf(t, t.root) && m.Keys == t.cells.Keys && InStep(m, tables, oids, roots)
    ensures CellsIn(t.pages, t.root) == |tables|
  {
    assert PageOk(t, t.root);
    CellCount(t.pages[t.root].cells, t.cells);
    EntryCount(m, tables, oids, roots);
  }

  // ---------- the schema page ----------

  /** The tree of a catalog that is opened on the schema page, and the tables it finds there. */
  datatype OnPage = OnPage(cells: map<Key, LeafCell>, chains: Chains, tables: map<Name, Table>, oids: map<Name, Key>,
                           roots: map<Name, PageNo>)

  ghost function PageTree(pages: PageMap, cells: map<Key, LeafCell>): Tree {
    Tree(pages, WholeRange(SCHEMA_PAGE), SCHEMA_PAGE, cells)
  }

  ghost predicate SchemaPage(t: Tree, cfg: Config, s: OnPage) {
    && (if t.root == SCHEMA_PAGE then IsLeaf(t, t.root) && s.cells == t.cells else Aside(t, SCHEMA_PAGE))
    && WellFormed(PageTree(t.pages, s.cells), cfg)
    && StoreOk(t.pages, s.cells, s.chains)
    && InStep(Contents(t.pages, s.cells, s.chains), s.tables, s.oids, s.roots)
  }

  /** The root is still on the schema page, which holds what the tree does. */
  lemma SchemaIsRoot(t: Tree, cfg: Config, s: OnPage)
    requires WellFormed(t, cfg) && t.root == SCHEMA_PAGE && IsLeaf(t, t.root) && s.cells == t.cells
    requires StoreOk(t.pages, t.cells, s.chains)
    requires InStep(Contents(t.pages, t.cells, s.chains), s.tables, s.oids, s.roots)
    ensures SchemaPage(t, cfg, s)
  {
    RootLeafAlone(t, cfg, t.pages);
  }

  /** Once the root has moved, the schema page stays what it was: the leaf that was split. */
  lemma SchemaStays(t: Tree, u: Tree, cfg: Config, s: OnPage)
    requires Typed(t) && SchemaPage(t, cfg, s) && AsideKept(t, u) && u.root in u.span
    requires t.root == SCHEMA_PAGE ==> u.root != SCHEMA_PAGE && AsideKept(Less(t, SCHEMA_PAGE), u)
    ensures SchemaPage(u, cfg, s) && u.root != SCHEMA_PAGE
  {
    AsideOverflow(t, u);
    assert t.root == SCHEMA_PAGE ==> Aside(Less(t, SCHEMA_PAGE), SCHEMA_PAGE);
    assert Aside(u, SCHEMA_PAGE) && u.pages[SCHEMA_PAGE] == t.pages[SCHEMA_PAGE];
    StoreKept(t.pages, u.pages, s.cells, s.chains);
    assert Typed(PageTree(t.pages, s.cells));
    RootLeafAlone(PageTree(t.pages, s.cells), cfg, u.pages);
  }

  // ---------- runs ----------

  ghost predicate OidsBelow(oids: map<Name, Key>, limit: nat) {
    forall n :: n in oids ==> oids[n] < limit
  }

  lemma OidIsNew(m: map<Key, Bytes>, tables: map<Name, Table>, oids: map<Name, Key>, roots: map<Name, PageNo>, oid: Key)
    requires InStep(m, tables, oids, roots) && OidsBelow(oids, oid)
    ensures oid !in m
  {
    forall k | k in m
      ensures k < oid
    {
      var n :| n in oids && oids[n] == k;
    }
  }

  lemma OidsMore(oids: map<Name, Key>, oid: Key, n: Name)
    ensures OidsBelow(oids, oid) ==> OidsBelow(oids[n := oid], oid + 1)
    ensures oid + 1 < KEY_LIMIT ==> OidAfter(oid) == oid + 1
  {
  }

  /** What holds of a catalog after the operations: its tables, and those on the schema page. */
  ghost predicate RanTo(c: CatalogManager, ops: seq<CatalogOp>, s: OnPage)
    reads c, c.cursor, c.cursor.pager
  {
    && c.Valid() && Memory(c.tables, c.deps) == After(ops) && DepsCover(c.deps, c.tables)
    && (|ops| + FIRST_OID < KEY_LIMIT ==> c.nextOid <= |ops| + FIRST_OID && OidsBelow(c.oids, c.nextOid))
    && SchemaKnown(c, ops, s)
  }

  ghost predicate SchemaKnown(c: CatalogManager, ops: seq<CatalogOp>, s: OnPage)
    reads c, c.cursor, c.cursor.pager
  {
    var n := MovesAt(ops, c.cursor.cfg.leafMax);
    && SchemaPage(c.cursor.T(), c.cursor.cfg, s) && s.tables == After(ops[..n]).tables
    && (c.cursor.root == SCHEMA_PAGE <==> n == |ops|)
    && (c.cursor.root == SCHEMA_PAGE ==> s == Live(c))
  }

  /** While the root is on the schema page, a catalog opened there finds what this one has. */
  ghost function Live(c: CatalogManager): OnPage
    reads c, c.cursor
  {
    OnPage(c.cursor.cells, c.cursor.chains, c.tables, c.oids, c.roots)
  }

  lemma SchemaRuns(c: CatalogManager, t: Tree, ops: seq<CatalogOp>, op: CatalogOp, s: OnPage) returns (s': OnPage)
    requires c.Valid() && c.cursor.cfg.Sound() && WellFormed(t, c.cursor.cfg) && SchemaPage(t, c.cursor.cfg, s)
    requires c.tables == After(ops + [op]).tables
    requires var n := MovesAt(ops, c.cursor.cfg.leafMax);
             && s.tables == After(ops[..n]).tables && (t.root == SCHEMA_PAGE <==> n == |ops|)
    requires AsideKept(t, c.cursor.T())
    requires t.root == SCHEMA_PAGE ==>
               RootLeafAfter(t, c.cursor.T(), op.Create? && |After(ops).tables| == c.cursor.cfg.leafMax)
    ensures SchemaKnown(c, ops + [op], s')
  {
    var limit, u := c.cursor.cfg.leafMax, c.cursor.T();
    MovesMore(ops, op, limit);
    var n, n' := MovesAt(ops, limit), MovesAt(ops + [op], limit);
    assert (ops + [op])[..n] == ops[..n] && ops[..|ops|] == ops;
    if n' == |ops| + 1 {
      assert (ops + [op])[..n'] == ops + [op];
      s' := Live(c);
      SchemaIsRoot(u, c.cursor.cfg, s');
    } else {
      s' := s;
      SchemaStays(t, u, c.cursor.cfg, s);
    }
  }

  method Step(c: CatalogManager, op: CatalogOp, ghost ops: seq<CatalogOp>, ghost s: OnPage)
    returns (end: RunEnd, ghost s': OnPage, ghost removals: seq<Removal>)
    requires RanTo(c, ops, s) && OpFits(op)
    modifies c, c.cursor, c.cursor.pager
    ensures end == Completed ==> RanTo(c, ops + [op], s')
    ensures end == NameInUse <==> op.Create? && op.table.name in After(ops).tables
    ensures end == OidInUse ==> op.Create? && KEY_LIMIT <= |ops| + FIRST_OID
    ensures end == Aborted ==> op.Drop?
    ensures StepTraced(c.cursor.cfg, c.cursor.asserts, removals, end)
  {
    match op
    case Create(table) =>
      removals := [];
      end, s' := CreateNew(c, table, ops, s);
    case Drop(name) =>
      end, s', removals := DropOne(c, name, ops, s);
  }

  /** Where assertions are compiled in, an operation aborts exactly when one of its removals
      underflows as last child; that is its last one. */
  ghost predicate StepTraced(cfg: Config, asserts: bool, removals: seq<Removal>, end: RunEnd) {
    if end == Aborted
    then
      && asserts && removals != []
      && NoneUnderflows(cfg, removals[..|removals| - 1]) && Underflows(cfg, removals[|removals| - 1])
    else asserts ==> NoneUnderflows(cfg, removals)
  }

  method CreateNew(c: CatalogManager, table: Table, ghost ops: seq<CatalogOp>, ghost s: OnPage)
    returns (end: RunEnd, ghost s': OnPage)
    requires RanTo(c, ops, s) && PayloadFits(table)
    modifies c, c.cursor, c.cursor.pager
    ensures end == Completed ==> RanTo(c, ops + [Create(table)], s')
    ensures end == NameInUse <==> table.name in After(ops).tables
    ensures end == OidInUse ==> KEY_LIMIT <= |ops| + FIRST_OID
    ensures end != Aborted
  {
    s' := s;
    var known := c.GetTable(table.name);
    if known.Some? {
      return NameInUse, s;
    }
    end, s' := CreateFresh(c, table, ops, s);
  }

  method CreateFresh(c: CatalogManager, table: Table, ghost ops: seq<CatalogOp>, ghost s: OnPage)
    returns (end: RunEnd, ghost s': OnPage)
    requires RanTo(c, ops, s) && PayloadFits(table) && table.name !in c.tables
    modifies c, c.cursor, c.cursor.pager
    ensures end == Completed ==> RanTo(c, ops + [Create(table)], s')
    ensures end == OidInUse ==> KEY_LIMIT <= |ops| + FIRST_OID
    ensures end == Completed || end == OidInUse
  {
    ghost var t, m, oids, oid := c.cursor.T(), Memory(c.tables, c.deps), c.oids, c.nextOid;
    Snapshot(c, ops, s);
    var r := c.CreateTable(table);
    if r == DuplicateKeyError {
      return OidInUse, s;
    }
    s' := CreateRan(c, table, ops, s, t, m, oids, oid);
    return Completed, s';
  }

  /** The state in front of a creation. */
  ghost predicate Before(ops: seq<CatalogOp>, s: OnPage, t: Tree, cfg: Config, m: Memory, oids: map<Name, Key>,
                         oid: Key) {
    && cfg.Sound() && WellFormed(t, cfg) && SchemaPage(t, cfg, s) && m == After(ops) && DepsCover(m.deps, m.tables)
    && (|ops| + FIRST_OID < KEY_LIMIT ==> oid <= |ops| + FIRST_OID && OidsBelow(oids, oid))
    && (t.root == SCHEMA_PAGE ==> (FullRoot(t, cfg) <==> |m.tables| == cfg.leafMax))
    && var n := MovesAt(ops, cfg.leafMax);
    s.tables == After(ops[..n]).tables && (t.root == SCHEMA_PAGE <==> n == |ops|)
  }

  lemma Snapshot(c: CatalogManager, ops: seq<CatalogOp>, s: OnPage)
    requires RanTo(c, ops, s)
    ensures Before(ops, s, c.cursor.T(), c.cursor.cfg, Memory(c.tables, c.deps), c.oids, c.nextOid)
    ensures |ops| + FIRST_OID < KEY_LIMIT ==> c.nextOid !in c.cursor.Map()
  {
    if |ops| + FIRST_OID < KEY_LIMIT {
      OidIsNew(c.cursor.Map(), c.tables, c.oids, c.roots, c.nextOid);
    }
    if c.cursor.root == SCHEMA_PAGE {
      RootCount(c.cursor.T(), c.cursor.Map(), c.tables, c.oids, c.roots);
    }
  }

  lemma CreateRan(c: CatalogManager, table: Table, ops: seq<CatalogOp>, s: OnPage, t: Tree, m: Memory,
                  oids: map<Name, Key>, oid: Key) returns (s': OnPage)
    requires Before(ops, s, t, c.cursor.cfg, m, oids, oid)
    requires c.Valid() && Memory(c.tables, c.deps) == Does(m, Create(table))
    requires c.oids == oids[table.name := oid] && c.nextOid == OidAfter(oid)
    requires AsideKept(t, c.cursor.T()) && RootLeafAfter(t, c.cursor.T(), FullRoot(t, c.cursor.cfg))
    ensures RanTo(c, ops + [Create(table)], s')
  {
    AfterMore(ops, Create(table));
    CoverMore(m.deps, m.tables, table);
    OidsMore(oids, oid, table.name);
    s' := SchemaRuns(c, t, ops, Create(table), s);
  }

  method DropOne(c: CatalogManager, name: Name, ghost ops: seq<CatalogOp>, ghost s: OnPage)
    returns (end: RunEnd, ghost s': OnPage, ghost removals: seq<Removal>)
    requires RanTo(c, ops, s)
    modifies c, c.cursor, c.cursor.pager
    ensures end == Completed ==> RanTo(c, ops + [Drop(name)], s')
    ensures end == Completed || end == Aborted
    ensures StepTraced(c.cursor.cfg, c.cursor.asserts, removals, end)
  {
    ghost var t, tables0 := c.cursor.T(), c.tables;
    var r;
    r, removals := c.DropTable(name);
    s' := s;
    if r == AssertFailed {
      return Aborted, s, removals;
    }
    NoOrphans(c.deps, tables0, c.tables, name);
    DropIsDone(c.deps, tables0, c.tables, name);
    AfterMore(ops, Drop(name));
    s' := SchemaRuns(c, t, ops, Drop(name), s);
    return Completed, s', removals;
  }

  lemma OneMore(ops: seq<CatalogOp>, n: nat)
    requires n < |ops|
    ensures ops[..n + 1] == ops[..n] + [ops[n]]
  {
  }

  /** The first `done` operations are done. */
  ghost predicate Running(c: CatalogManager, ops: seq<CatalogOp>, done: nat, s: OnPage, removals: seq<seq<Removal>>)
    reads c, c.cursor, c.cursor.pager
  {
    && done <= |ops| && RanTo(c, ops[..done], s)
    && RunTraced(c.cursor.cfg, c.cursor.asserts, removals, done, Completed)
  }

  method RunNext(c: CatalogManager, ops: seq<CatalogOp>, done: nat, ghost s: OnPage, ghost removals: seq<seq<Removal>>)
    returns (end: RunEnd, ghost s': OnPage, ghost removals': seq<seq<Removal>>)
    requires done < |ops| && Running(c, ops, done, s, removals) && OpFits(ops[done])
    modifies c, c.cursor, c.cursor.pager
    ensures end == Completed ==> Running(c, ops, done + 1, s', removals')
    ensures Stopped(ops, done, c.cursor.asserts, end)
    ensures RunTraced(c.cursor.cfg, c.cursor.asserts, removals', if end == Completed then done + 1 else done, end)
  {
    ghost var own;
    OneMore(ops, done);
    end, s', own := Step(c, ops[done], ops[..done], s);
    TracedMore(c.cursor.cfg, c.cursor.asserts, removals, done, own, end);
    removals' := removals + [own];
  }

  /** Where and why a run stopped. */
  ghost predicate Stopped(ops: seq<CatalogOp>, done: nat, asserts: bool, end: RunEnd) {
    && (end != Completed ==> done < |ops|)
    && (end == NameInUse ==> ops[done].Create? && ops[done].table.name in After(ops[..done]).tables)
    && (end == OidInUse ==> ops[done].Create? && KEY_LIMIT <= done + FIRST_OID)
    && (end == Aborted ==> ops[done].Drop? && asserts)
  }

  /** Any run of creations and drops on a new file. */
  method Run(ops: seq<CatalogOp>, cfg: Config, asserts: bool)
    returns (c: CatalogManager, done: nat, end: RunEnd, ghost s: OnPage, ghost removals: seq<seq<Removal>>)
    requires cfg.Sound() && forall i :: 0 <= i < |ops| ==> OpFits(ops[i])
    ensures fresh(c) && fresh(c.cursor) && fresh(c.cursor.pager) && c.cursor.cfg == cfg
    ensures end == Completed ==> done == |ops| && RanTo(c, ops, s)
    ensures Stopped(ops, done, asserts, end)
    ensures RunTraced(cfg, asserts, removals, done, end)
  {
    c, s := NewCatalog(cfg, asserts);
    done, removals := 0, [];
    assert ops[..0] == [];
    while done < |ops|
      invariant done <= |ops| && Running(c, ops, done, s, removals)
      invariant c.cursor.asserts == asserts && c.cursor.cfg == cfg
      invariant fresh(c) && fresh(c.cursor) && fresh(c.cursor.pager)
    {
      end, s, removals := RunNext(c, ops, done, s, removals);
      if end != Completed {
        return;
      }
      done := done + 1;
    }
    AllDone(ops);
    end := Completed;
  }

  lemma AllDone(ops: seq<CatalogOp>)
    ensures ops[..|ops|] == ops
  {
  }

  /** The removals of each operation: none of those done aborted, and the one that did last. */
  ghost predicate RunTraced(cfg: Config, asserts: bool, removals: seq<seq<Removal>>, done: nat, end: RunEnd) {
    && |removals| == (if end == Completed then done else done + 1)
    && (forall i {:trigger removals[i]} :: 0 <= i < done ==> StepTraced(cfg, asserts, removals[i], Completed))
    && (end != Completed ==> StepTraced(cfg, asserts, removals[done], end))
  }

  lemma TracedMore(cfg: Config, asserts: bool, removals: seq<seq<Removal>>, done: nat, own: seq<Removal>, end: RunEnd)
    requires RunTraced(cfg, asserts, removals, done, Completed) && StepTraced(cfg, asserts, own, end)
    ensures RunTraced(cfg, asserts, removals + [own], if end == Completed then done + 1 else done, end)
  {
    var more := removals + [own];
    assert forall i :: 0 <= i < done ==> more[i] == removals[i];
  }

  method NewCatalog(cfg: Config, asserts: bool) returns (c: CatalogManager, ghost s: OnPage)
    requires cfg.Sound()
    ensures fresh(c) && fresh(c.cursor) && fresh(c.cursor.pager)
    ensures RanTo(c, [], s) && c.cursor.asserts == asserts && c.cursor.cfg == cfg
  {
    var pager := new Pager();
    c := new CatalogManager(pager, cfg, asserts, FIRST_OID, WholeRange(SCHEMA_PAGE), map[], map[]);
    NothingOpened(c.tables, c.oids, c.roots, c.deps);
    s := Live(c);
    SchemaIsRoot(c.cursor.T(), cfg, s);
  }

  lemma NothingOpened(tables: map<Name, Table>, oids: map<Name, Key>, roots: map<Name, PageNo>, deps: Dependencies)
    requires Opened(map[], tables, oids, roots) && DepsRead(deps, map[])
    ensures tables == map[] && oids == map[] && deps == map[] && InStep(map[], tables, oids, roots)
  {
    forall n
      ensures n !in tables
    {
      assert EntryRead(map[], tables, oids, roots, n);
    }
    NoLists(deps);
  }

  lemma NoLists(deps: Dependencies)
    requires DepsRead(deps, map[])
    ensures deps == map[]
  {
    assert forall p :: p in deps ==> DepsOf(deps, p)[0] in DepsOf(deps, p);
  }

  // ---------- opening the file again ----------

  /** Opens a second catalog on the file: it has the tables on the schema page if and only if their
      names and column lists fit 16-bit lengths. */
  method Reopen(c: CatalogManager, ghost s: OnPage) returns (d: CatalogManager)
    requires c.Valid() && SchemaPage(c.cursor.T(), c.cursor.cfg, s)
    modifies c.cursor.pager`pages, c.cursor.pager`total
    ensures d.cursor.pager == c.cursor.pager && d.cursor.root == SCHEMA_PAGE && c.Valid()
    ensures d.tables == s.tables <==> AllShort(s.tables)
    ensures AllShort(s.tables) ==> d.Valid() && d.oids == s.oids && DepsMatch(d.deps, d.tables)
    ensures AllShort(s.tables) ==>
              forall n :: n in d.tables ==> n in d.roots && n in s.roots && d.roots[n] == s.roots[n] % UINT64_LIMIT
  {
    ghost var pages := c.cursor.pager.pages;
    ghost var m := Contents(pages, s.cells, s.chains);
    InStepDecodes(m, s.tables, s.oids, s.roots);
    d := new CatalogManager(c.cursor.pager, c.cursor.cfg, c.cursor.asserts, c.nextOid,
                            WholeRange(SCHEMA_PAGE), s.cells, s.chains);
    Reopened(m, s.tables, s.oids, s.roots, d.tables, d.oids, d.roots, d.deps);
  }

  /** A catalog is opened on the file that a run leaves. It has the tables of before the first
      creation that split the leaf on the schema page, if their lengths fit: those of the one
      that ran as long as there was none. */
  method RunAndReopen(ops: seq<CatalogOp>, cfg: Config, asserts: bool)
    returns (c: CatalogManager, d: CatalogManager?, done: nat, end: RunEnd)
    requires cfg.Sound() && forall i :: 0 <= i < |ops| ==> OpFits(ops[i])
    ensures Stopped(ops, done, asserts, end)
    ensures end == Completed ==>
              var found := After(ops[..MovesAt(ops, cfg.leafMax)]).tables;
              && d != null && c.tables == After(ops).tables
              && (d.tables == found <==> AllShort(found))
              && (AllShort(found) ==> d.Valid() && DepsMatch(d.deps, d.tables))
    ensures end == Completed && MovesAt(ops, cfg.leafMax) == |ops| ==>
              && (d.tables == c.tables <==> AllShort(c.tables))
              && (AllShort(c.tables) ==> d.oids == c.oids)
  {
    ghost var s, removals;
    c, done, end, s, removals := Run(ops, cfg, asserts);
    d := null;
    if end == Completed {
      AllDone(ops);
      d := Reopen(c, s);
    }
  }
}
