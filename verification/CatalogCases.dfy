/**
 Cases in which a catalog does not keep what it was given: a schema page that was split, a name
 that is too long, a name in use, and the lists that a drop leaves (lib/catalog/catalog.cpp).
 */
module CatalogCases {
  import opened Pages
  import opened Encoding
  import opened TableCodec
  import opened CatalogModel
  import opened CatalogRuns

  // ---------- more tables than a leaf holds ----------

  /** Creations of short tables under different names. */
  ghost predicate Creations(ops: seq<CatalogOp>) {
    && (forall i :: 0 <= i < |ops| ==> ops[i].Create? && OpFits(ops[i]) && ShortTable(ops[i].table))
    && (forall i, j :: 0 <= i < j < |ops| ==> ops[i].table.name != ops[j].table.name)
  }

  lemma FirstCreations(ops: seq<CatalogOp>, n: nat)
    requires Creations(ops) && n <= |ops|
    ensures Creations(ops[..n])
  {
    assert forall i :: 0 <= i < n ==> ops[..n][i] == ops[i];
  }

  /** The table under `n` is that of the `i`th creation. */
  ghost predicate CreatedAs(ops: seq<CatalogOp>, i: nat, n: Name, t: Table) {
    i < |ops| && ops[i] == Create(t) && t.name == n
  }

  /** The tables are those of the creations. */
  ghost predicate AreFrom(tables: map<Name, Table>, ops: seq<CatalogOp>) {
    && |tables| == |ops|
    && (forall i {:trigger ops[i]} :: 0 <= i < |ops| ==> ops[i].Create? && ops[i].table.name in tables)
    && (forall n :: n in tables ==> exists i: nat :: CreatedAs(ops, i, n, tables[n]))
  }

  lemma NameIsNew(tables: map<Name, Table>, ops: seq<CatalogOp>, k: nat)
    requires Creations(ops) && k < |ops| && AreFrom(tables, ops[..k])
    ensures ops[k].table.name !in tables
  {
    forall n | n in tables
      ensures n != ops[k].table.name
    {
      var i: nat :| CreatedAs(ops[..k], i, n, tables[n]);
      assert ops[i] == ops[..k][i];
    }
  }

  lemma CreatedMore(tables: map<Name, Table>, ops: seq<CatalogOp>, t: Table)
    requires AreFrom(tables, ops) && t.name !in tables
    ensures AreFrom(tables[t.name := t], ops + [Create(t)])
  {
    var tables', ops' := tables[t.name := t], ops + [Create(t)];
    OneTableMore(tables, t);
    forall i | 0 <= i < |ops'|
      ensures ops'[i].Create? && ops'[i].table.name in tables'
    {
      if i < |ops| { assert ops'[i] == ops[i]; }
    }
    forall n | n in tables'
      ensures exists i: nat :: CreatedAs(ops', i, n, tables'[n])
    {
      var i := FromMore(tables, ops, t, n);
    }
  }

  lemma OneTableMore(tables: map<Name, Table>, t: Table)
    requires t.name !in tables
    ensures |tables[t.name := t]| == |tables| + 1
  {
    assert tables[t.name := t].Keys == tables.Keys + {t.name};
  }

  lemma FromMore(tables: map<Name, Table>, ops: seq<CatalogOp>, t: Table, n: Name) returns (i: nat)
    requires AreFrom(tables, ops) && (n in tables || n == t.name)
    ensures CreatedAs(ops + [Create(t)], i, n, tables[t.name := t][n])
  {
    if n == t.name {
      i := |ops|;
    } else {
      i :| CreatedAs(ops, i, n, tables[n]);
      assert (ops + [Create(t)])[i] == ops[i];
    }
  }

  lemma {:induction false} CreationsDone(ops: seq<CatalogOp>)
    requires Creations(ops)
    ensures AreFrom(After(ops).tables, ops)
    decreases |ops|
  {
    if ops != [] {
      var last := |ops| - 1;
      var rest := ops[..last];
      FirstCreations(ops, last);
      CreationsDone(rest);
      NameIsNew(After(rest).tables, ops, last);
      CreatedMore(After(rest).tables, rest, ops[last].table);
      AfterMore(rest, ops[last]);
      assert ops == rest + [ops[last]];
    }
  }

  lemma {:induction false} CreationsMove(ops: seq<CatalogOp>, limit: nat)
    requires Creations(ops)
    ensures MovesAt(ops, limit) == if limit < |ops| then limit else |ops|
    decreases |ops|
  {
    if ops != [] {
      var rest := ops[..|ops| - 1];
      FirstCreations(ops, |ops| - 1);
      CreationsMove(rest, limit);
      CreationsDone(rest);
    }
  }

  /** A catalog that is opened again on a file with tables has as many of them as a leaf holds,
      the first ones, and lacks all others. */
  method CreateAll(ops: seq<CatalogOp>, cfg: Config) returns (c: CatalogManager, d: CatalogManager)
    requires cfg.Sound() && Creations(ops) && |ops| + FIRST_OID <= KEY_LIMIT
    ensures forall i :: 0 <= i < |ops| ==> ops[i].table.name in c.tables
    ensures forall i :: 0 <= i < |ops| ==> (ops[i].table.name in d.tables <==> i < cfg.leafMax)
  {
    var again, done, end;
    c, again, done, end := RunAndReopen(ops, cfg, false);
    Completes(ops, done, end);
    CreationsDone(ops);
    FoundAgain(ops, cfg.leafMax);
    d := again;
  }

  lemma Completes(ops: seq<CatalogOp>, done: nat, end: RunEnd)
    requires Creations(ops) && |ops| + FIRST_OID <= KEY_LIMIT
    requires Stopped(ops, done, false, end)
    ensures end == Completed
  {
    if end == NameInUse {
      FirstCreations(ops, done);
      CreationsDone(ops[..done]);
      NameIsNew(After(ops[..done]).tables, ops, done);
    }
  }

  /** What is found on the schema page after creations: the first tables, up to the limit. */
  lemma FoundAgain(ops: seq<CatalogOp>, limit: nat)
    requires Creations(ops)
    ensures var found := After(ops[..MovesAt(ops, limit)]).tables;
            AllShort(found) && forall i :: 0 <= i < |ops| ==> (ops[i].table.name in found <==> i < limit)
  {
    CreationsMove(ops, limit);
    var k := MovesAt(ops, limit);
    FirstCreations(ops, k);
    CreationsDone(ops[..k]);
    FirstTables(After(ops[..k]).tables, ops, k);
  }

  lemma FirstTables(tables: map<Name, Table>, ops: seq<CatalogOp>, k: nat)
    requires Creations(ops) && k <= |ops| && AreFrom(tables, ops[..k])
    ensures AllShort(tables)
    ensures forall i :: 0 <= i < |ops| ==> (ops[i].table.name in tables <==> i < k)
  {
    forall n | n in tables
      ensures ShortTable(tables[n])
      ensures forall i :: k <= i < |ops| ==> ops[i].table.name != n
    {
      var j: nat :| CreatedAs(ops[..k], j, n, tables[n]);
      assert ops[j] == ops[..k][j];
    }
    forall i | 0 <= i < k
      ensures ops[i].table.name in tables
    {
      assert ops[..k][i] == ops[i];
    }
  }

  const A: Name := [97]
  const B: Name := [98]

  lemma SmallTable(t: Table)
    requires |t.name| == 1 && |t.tblName| == 1 && t.columns == []
    ensures PayloadFits(t) && ShortTable(t)
  {
    assert ColumnsBytes(Cut(t.columns)) == [];
    assert |TableBytes(t, 0)| == 17;
  }

  /** Two tables in a tree whose leaves hold one cell: the second is lost. */
  method LostTableExample() returns (c: CatalogManager, d: CatalogManager)
    ensures B in c.tables && B !in d.tables
  {
    var a, b := Table(1, A, A, []), Table(1, B, B, []);
    SmallTable(a);
    SmallTable(b);
    var ops := [Create(a), Create(b)];
    assert ops[1].table.name == B;
    c, d := CreateAll(ops, Config(1, 1, 1, 2));
  }

  // ---------- names ----------

  /** A table with a name of 65536 bytes comes back without a name. */
  lemma LongNameIsLost(name: Name, root: PageNo)
    requires |name| == UINT16_LIMIT && root < UINT64_LIMIT
    ensures DecodeTable(TableBytes(Table(1, name, A, []), root)) == Some((Table(1, [], A, []), root))
  {
    var t := Table(1, name, A, []);
    TableRoundTrip(t, root);
    assert Cut(name) == [] && Cut(A) == A && Cut(t.columns) == [];
  }

  /** A second table under a name in use leaves an entry that belongs to no table. */
  method NameInUseExample() returns (c: CatalogManager)
    ensures !c.Valid()
  {
    var a := Table(1, A, A, []);
    SmallTable(a);
    ghost var s;
    c, s := NewCatalog(DEFAULT_CONFIG, false);
    var end;
    end, s := CreateNew(c, a, [], s);
    CreatedOnce(c, a, s);
    var r := c.CreateTable(a);
  }

  lemma CreatedOnce(c: CatalogManager, t: Table, s: OnPage)
    requires RanTo(c, [Create(t)], s)
    ensures c.tables == map[t.name := t] && c.nextOid !in c.cursor.Map()
  {
    AfterMore([], Create(t));
    assert [] + [Create(t)] == [Create(t)];
    OidIsNew(c.cursor.Map(), c.tables, c.oids, c.roots, c.nextOid);
  }

  // ---------- dependencies ----------

  /** Table `A` is created and dropped: its name stays in the lists of a catalog without tables. */
  method StaleListExample() returns (c: CatalogManager)
    ensures c.tables == map[] && !DepsMatch(c.deps, c.tables)
  {
    var a := Table(1, A, A, []);
    SmallTable(a);
    ghost var s;
    c, s := NewCatalog(DEFAULT_CONFIG, false);
    var end;
    ghost var removals;
    end, s := CreateNew(c, a, [], s);
    CreatedOnce(c, a, s);
    end, s, removals := DropOne(c, A, [] + [Create(a)], s);
    StaleList(c, a, s);
  }

  lemma StaleList(c: CatalogManager, t: Table, s: OnPage)
    requires RanTo(c, [] + [Create(t)] + [Drop(t.name)], s) && t.tblName == t.name
    ensures c.tables == map[] && !DepsMatch(c.deps, c.tables)
  {
    var ops := [] + [Create(t)] + [Drop(t.name)];
    AfterMore([], Create(t));
    AfterMore([] + [Create(t)], Drop(t.name));
    var m := After([] + [Create(t)]);
    assert Walk(m.deps, m.tables.Keys, t.name, t.name, 0);
    assert ops[0] == Create(t);
    DepsStay(ops, t);
  }
}
