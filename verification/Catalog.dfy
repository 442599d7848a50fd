/**
 The catalog: the live tables in memory, and the schema tree that holds one entry for each of
 them (lib/catalog/catalog.cpp). The schema tree is the B+tree of module BTreeModel.
 */
module CatalogModel {
  import opened Pages
  import opened Encoding
  import opened TableCodec
  import opened PagerModel
  import opened TreeShape
  import opened TreeSplits
  import opened TreeStore
  import opened TreeAside
  import opened TreeScan
  import opened BTreeModel
  import opened TreeRuns

  /** The page on which every catalog looks for the schema tree. */
  const SCHEMA_PAGE: PageNo := 2

  type Name = Bytes

  type Dependencies = map<Name, seq<Name>>

  // ---------- what a drop removes ----------

  ghost function DepsOf(deps: Dependencies, n: Name): seq<Name> {
    if n in deps then deps[n] else []
  }

  /** A walk of `d` recorded dependencies from `a` to `b` through live tables. */
  ghost predicate Walk(deps: Dependencies, live: set<Name>, a: Name, b: Name, d: nat)
    decreases d
  {
    && a in live
    && if d == 0 then a == b else exists c :: c in DepsOf(deps, a) && Walk(deps, live, c, b, d - 1)
  }

  ghost predicate Reachable(deps: Dependencies, live: set<Name>, a: Name, b: Name) {
    exists d: nat :: Walk(deps, live, a, b, d)
  }

  /** What is gone is reachable, and what depends on something gone is gone. */
  ghost predicate Cascade(deps: Dependencies, before: set<Name>, after: set<Name>, name: Name) {
    && after <= before && name !in after
    && (forall y :: y in before && y !in after ==> Reachable(deps, before, name, y))
    && (forall y, c :: y in before && y !in after && c in DepsOf(deps, y) ==> c !in after)
  }

  /** A cascade takes exactly the tables that are reachable from the name. */
  lemma CascadeIsReachability(deps: Dependencies, before: set<Name>, after: set<Name>, name: Name, x: Name)
    requires Cascade(deps, before, after, name) && x in before
    ensures x in after <==> !Reachable(deps, before, name, x)
  {
    if Reachable(deps, before, name, x) {
      var d: nat :| Walk(deps, before, name, x, d);
      WalkLeaves(deps, before, after, name, name, x, d);
    }
  }

  lemma {:induction false} WalkLeaves(deps: Dependencies, before: set<Name>, after: set<Name>, name: Name, a: Name,
                                      x: Name, d: nat)
    requires Cascade(deps, before, after, name) && a !in after && Walk(deps, before, a, x, d)
    ensures x !in after
    decreases d
  {
    if d > 0 {
      var c :| c in DepsOf(deps, a) && Walk(deps, before, c, x, d - 1);
      WalkLeaves(deps, before, after, name, c, x, d - 1);
    }
  }

  lemma {:induction false} WalkGrows(deps: Dependencies, small: set<Name>, live: set<Name>, a: Name, b: Name, d: nat)
    requires small <= live && Walk(deps, small, a, b, d)
    ensures Walk(deps, live, a, b, d)
    decreases d
  {
    if d > 0 {
      var c :| c in DepsOf(deps, a) && Walk(deps, small, c, b, d - 1);
      WalkGrows(deps, small, live, c, b, d - 1);
    }
  }

  lemma WalkFurther(deps: Dependencies, live: set<Name>, a: Name, c: Name, b: Name, d: nat)
    requires a in live && c in DepsOf(deps, a) && Walk(deps, live, c, b, d)
    ensures Reachable(deps, live, a, b)
  {
    var e := d + 1;
    assert e - 1 == d;
    assert Walk(deps, live, a, b, e);
  }

  /** A cascade half way through the list of dependencies of `name`. */
  ghost predicate CascadeUpTo(deps: Dependencies, before: set<Name>, after: set<Name>, name: Name, i: nat) {
    && after <= before && name in before && name !in after && i <= |DepsOf(deps, name)|
    && (forall y :: y in before && y !in after ==> Reachable(deps, before, name, y))
    && (forall y, c :: y in before && y !in after && y != name && c in DepsOf(deps, y) ==> c !in after)
    && (forall j :: 0 <= j < i ==> DepsOf(deps, name)[j] !in after)
  }

  lemma CascadeBegins(deps: Dependencies, before: set<Name>, name: Name)
    requires name in before
    ensures CascadeUpTo(deps, before, before - {name}, name, 0)
  {
    assert Walk(deps, before, name, name, 0);
  }

  lemma CascadeStep(deps: Dependencies, before: set<Name>, mid: set<Name>, after: set<Name>, name: Name, i: nat)
    requires CascadeUpTo(deps, before, mid, name, i) && i < |DepsOf(deps, name)|
    requires Cascade(deps, mid, after, DepsOf(deps, name)[i])
    ensures CascadeUpTo(deps, before, after, name, i + 1)
  {
    var next := DepsOf(deps, name)[i];
    forall y | y in before && y !in after
      ensures Reachable(deps, before, name, y)
    {
      if y in mid {
        var d: nat :| Walk(deps, mid, next, y, d);
        WalkGrows(deps, mid, before, next, y, d);
        WalkFurther(deps, before, name, next, y, d);
      }
    }
  }

  lemma CascadeEnds(deps: Dependencies, before: set<Name>, after: set<Name>, name: Name)
    requires CascadeUpTo(deps, before, after, name, |DepsOf(deps, name)|)
    ensures Cascade(deps, before, after, name)
  {
  }

  // ---------- memory and schema tree ----------

  ghost predicate Recorded(m: map<Key, Bytes>, tables: map<Name, Table>, oids: map<Name, Key>, roots: map<Name, PageNo>,
                           n: Name) {
    n in tables ==>
      && tables[n].name == n && n in oids && n in roots
      && oids[n] in m && m[oids[n]] == TableBytes(tables[n], roots[n])
  }

  /** The schema tree has one entry for each live table, under the table's oid. */
  ghost predicate InStep(m: map<Key, Bytes>, tables: map<Name, Table>, oids: map<Name, Key>, roots: map<Name, PageNo>) {
    && oids.Keys == tables.Keys
    && (forall n :: Recorded(m, tables, oids, roots, n))
    && (forall n, n' :: n in oids && n' in oids && oids[n] == oids[n'] ==> n == n')
    && (forall k :: k in m ==> exists n :: n in oids && oids[n] == k)
  }

  /** A table under a new name keeps memory and tree in step; one under a name in use does not. */
  lemma InStepAdd(m: map<Key, Bytes>, tables: map<Name, Table>, oids: map<Name, Key>, roots: map<Name, PageNo>,
                  t: Table, k: Key, root: PageNo)
    requires InStep(m, tables, oids, roots) && k !in m
    ensures InStep(m[k := TableBytes(t, root)], tables[t.name := t], oids[t.name := k], roots[t.name := root]) <==>
            t.name !in tables
  {
    if t.name in tables {
      NameClash(m, tables, oids, roots, t, k, root);
    } else {
      NewName(m, tables, oids, roots, t, k, root);
    }
  }

  lemma NameClash(m: map<Key, Bytes>, tables: map<Name, Table>, oids: map<Name, Key>, roots: map<Name, PageNo>,
                  t: Table, k: Key, root: PageNo)
    requires InStep(m, tables, oids, roots) && k !in m && t.name in tables
    ensures !InStep(m[k := TableBytes(t, root)], tables[t.name := t], oids[t.name := k], roots[t.name := root])
  {
    assert Recorded(m, tables, oids, roots, t.name);
    var entry, oids' := oids[t.name], oids[t.name := k];
    assert entry in m[k := TableBytes(t, root)];
    assert forall n :: n in oids' ==> oids'[n] != entry;
  }

  lemma NewName(m: map<Key, Bytes>, tables: map<Name, Table>, oids: map<Name, Key>, roots: map<Name, PageNo>,
                t: Table, k: Key, root: PageNo)
    requires InStep(m, tables, oids, roots) && k !in m && t.name !in tables
    ensures InStep(m[k := TableBytes(t, root)], tables[t.name := t], oids[t.name := k], roots[t.name := root])
  {
    var m', tables', oids', roots' := m[k := TableBytes(t, root)], tables[t.name := t], oids[t.name := k],
      roots[t.name := root];
    forall n
      ensures Recorded(m', tables', oids', roots', n)
    {
      assert Recorded(m, tables, oids, roots, n);
    }
    forall n, n' | n in oids' && n' in oids' && oids'[n] == oids'[n']
      ensures n == n'
    {
      assert Recorded(m, tables, oids, roots, n) && Recorded(m, tables, oids, roots, n');
    }
    forall x | x in m'
      ensures exists n :: n in oids' && oids'[n] == x
    {
      if x == k {
        assert oids'[t.name] == k;
      } else {
        var n :| n in oids && oids[n] == x;
        assert n in oids' && oids'[n] == x;
      }
    }
  }

  lemma InStepDrop(m: map<Key, Bytes>, tables: map<Name, Table>, oids: map<Name, Key>, roots: map<Name, PageNo>,
                   name: Name)
    requires InStep(m, tables, oids, roots) && name in tables
    ensures InStep(m - {oids[name]}, tables - {name}, oids - {name}, roots)
  {
    var m', tables', oids' := m - {oids[name]}, tables - {name}, oids - {name};
    forall n
      ensures Recorded(m', tables', oids', roots, n)
    {
      assert Recorded(m, tables, oids, roots, n);
    }
    forall x | x in m'
      ensures exists n :: n in oids' && oids'[n] == x
    {
      var n :| n in oids && oids[n] == x;
      assert n in oids' && oids'[n] == x;
    }
  }

  // ---------- the catalog ----------

  /** The written form is below 4 GiB by a chunk, so that chunk offsets do not wrap. */
  predicate PayloadFits(t: Table) {
    |TableBytes(t, 0)| + CHUNK_SIZE < UINT32_LIMIT
  }

  lemma PayloadStored(t: Table, root: PageNo)
    requires PayloadFits(t)
    ensures OffsetsFit(TableBytes(t, root)) && Stored(TableBytes(t, root)) == TableBytes(t, root)
  {
    assert |TableBytes(t, root)| == |TableBytes(t, 0)|;
    ChunksFit(TableBytes(t, root));
  }

  lemma ChunksFit(payload: Bytes)
    requires |payload| + CHUNK_SIZE < UINT32_LIMIT
    ensures OffsetsFit(payload) && Stored(payload) == payload
  {
    assert (|payload| + CHUNK_SIZE - 1) / CHUNK_SIZE * CHUNK_SIZE <= |payload| + CHUNK_SIZE - 1;
  }

  /** Oids are 32-bit unsigned integers. */
  function OidAfter(oid: Key): (next: Key)
    ensures next < KEY_LIMIT
  {
    (oid + 1) % KEY_LIMIT
  }

  lemma OneTableLess(tables: map<Name, Table>, name: Name)
    requires name in tables
    ensures |tables - {name}| < |tables|
  {
    assert (tables - {name}).Keys == tables.Keys - {name};
  }

  /** What is left is as it was. */
  ghost predicate Remain(tables0: map<Name, Table>, oids0: map<Name, Key>, tables: map<Name, Table>,
                         oids: map<Name, Key>) {
    forall n :: n in tables ==>
      n in tables0 && tables[n] == tables0[n] && n in oids && n in oids0 && oids[n] == oids0[n]
  }

  lemma NoMoreTables(after: map<Name, Table>, before: map<Name, Table>)
    requires after.Keys <= before.Keys
    ensures |after| <= |before|
  {
    assert before.Keys == after.Keys + (before.Keys - after.Keys);
  }

  // ---------- opening a catalog ----------

  /** Every entry of the schema tree is that of a table; the program asserts it. */
  ghost predicate AllDecode(m: map<Key, Bytes>) {
    forall k :: k in m ==> DecodeTable(m[k]) != None
  }

  /** The entry under `k` is for a table named `n`. */
  ghost predicate Names(m: map<Key, Bytes>, k: Key, n: Name) {
    k in m && DecodeTable(m[k]) != None && DecodeTable(m[k]).value.0.name == n
  }

  ghost predicate EntryRead(m: map<Key, Bytes>, tables: map<Name, Table>, oids: map<Name, Key>,
                            roots: map<Name, PageNo>, n: Name) {
    n in tables ==>
      && n in oids && n in roots && tables[n].name == n
      && oids[n] in m && DecodeTable(m[oids[n]]) == Some((tables[n], roots[n]))
  }

  /** Memory has the tables that the entries name, each as its last entry says. */
  ghost predicate Opened(m: map<Key, Bytes>, tables: map<Name, Table>, oids: map<Name, Key>, roots: map<Name, PageNo>) {
    && oids.Keys == tables.Keys && roots.Keys == tables.Keys
    && (forall n :: EntryRead(m, tables, oids, roots, n))
    && (forall k, n :: Names(m, k, n) ==> n in tables && k <= oids[n])
  }

  lemma OpenedMore(m: map<Key, Bytes>, tables: map<Name, Table>, oids: map<Name, Key>, roots: map<Name, PageNo>,
                   k: Key, bytes: Bytes)
    requires Opened(m, tables, oids, roots) && (forall x :: x in m ==> x < k) && DecodeTable(bytes) != None
    ensures var (t, root) := DecodeTable(bytes).value;
            Opened(m[k := bytes], tables[t.name := t], oids[t.name := k], roots[t.name := root])
  {
    var (t, root) := DecodeTable(bytes).value;
    var m', tables', oids', roots' := m[k := bytes], tables[t.name := t], oids[t.name := k], roots[t.name := root];
    forall n
      ensures EntryRead(m', tables', oids', roots', n)
    {
      assert EntryRead(m, tables, oids, roots, n);
    }
    forall x, n | Names(m', x, n)
      ensures n in tables' && x <= oids'[n]
    {
      if x != k { assert Names(m, x, n); }
    }
  }

  /** The entry under `k` is for a table `n` that belongs to `p`. */
  ghost predicate Depends(m: map<Key, Bytes>, k: Key, p: Name, n: Name) {
    Names(m, k, n) && DecodeTable(m[k]).value.0.tblName == p
  }

  ghost predicate DepsRead(deps: Dependencies, m: map<Key, Bytes>) {
    && (forall p :: p in deps ==> deps[p] != [])
    && (forall p, n :: n in DepsOf(deps, p) <==> exists k :: Depends(m, k, p, n))
  }

  lemma DepsMore(deps: Dependencies, m: map<Key, Bytes>, k: Key, bytes: Bytes)
    requires DepsRead(deps, m) && k !in m && DecodeTable(bytes) != None
    ensures var t := DecodeTable(bytes).value.0;
            DepsRead(deps[t.tblName := DepsOf(deps, t.tblName) + [t.name]], m[k := bytes])
  {
    var t := DecodeTable(bytes).value.0;
    var deps', m' := deps[t.tblName := DepsOf(deps, t.tblName) + [t.name]], m[k := bytes];
    forall p, n
      ensures n in DepsOf(deps', p) <==> exists x :: Depends(m', x, p, n)
    {
      assert n in DepsOf(deps, p) <==> exists x :: Depends(m, x, p, n);
      assert n in DepsOf(deps', p) <==> n in DepsOf(deps, p) || (p == t.tblName && n == t.name);
      DependsMore(m, k, bytes, p, n);
    }
  }

  lemma DependsMore(m: map<Key, Bytes>, k: Key, bytes: Bytes, p: Name, n: Name)
    requires k !in m && DecodeTable(bytes) != None
    ensures var t := DecodeTable(bytes).value.0;
            var m' := m[k := bytes];
            (exists x :: Depends(m', x, p, n)) <==>
            (exists x :: Depends(m, x, p, n)) || (p == t.tblName && n == t.name)
  {
    var t, m' := DecodeTable(bytes).value.0, m[k := bytes];
    if x :| Depends(m, x, p, n) { assert Depends(m', x, p, n); }
    if p == t.tblName && n == t.name { assert Depends(m', k, p, n); }
    if x :| Depends(m', x, p, n) && x != k { assert Depends(m, x, p, n); }
  }

  /** The recorded dependencies are those of the live tables. */
  ghost predicate DepsMatch(deps: Dependencies, tables: map<Name, Table>) {
    forall p, n :: n in DepsOf(deps, p) <==> n in tables && tables[n].tblName == p
  }

  ghost predicate AllShort(tables: map<Name, Table>) {
    forall n :: n in tables ==> ShortTable(tables[n])
  }

  /** The table that an entry of the schema tree belongs to. */
  lemma OwnerOf(m: map<Key, Bytes>, tables: map<Name, Table>, oids: map<Name, Key>, roots: map<Name, PageNo>, k: Key)
    returns (n: Name)
    requires InStep(m, tables, oids, roots) && k in m
    ensures n in tables && n in oids && n in roots && oids[n] == k && tables[n].name == n
    ensures DecodeTable(m[k]) == Some((CutTable(tables[n]), roots[n] % UINT64_LIMIT))
    ensures CutTable(tables[n]) == tables[n] <==> ShortTable(tables[n])
  {
    n :| n in oids && oids[n] == k;
    assert Recorded(m, tables, oids, roots, n);
    TableRoundTrip(tables[n], roots[n]);
  }

  lemma InStepDecodes(m: map<Key, Bytes>, tables: map<Name, Table>, oids: map<Name, Key>, roots: map<Name, PageNo>)
    requires InStep(m, tables, oids, roots)
    ensures AllDecode(m)
  {
    forall k | k in m
      ensures DecodeTable(m[k]) != None
    {
      var n := OwnerOf(m, tables, oids, roots, k);
    }
  }

  /** Opening a schema tree that is in step with some tables gives those tables again if and only
      if their names and column lists fit 16-bit lengths; then oids and dependencies are right
      too, and root pages to 64 bits. */
  lemma Reopened(m: map<Key, Bytes>, tables0: map<Name, Table>, oids0: map<Name, Key>, roots0: map<Name, PageNo>,
                 tables: map<Name, Table>, oids: map<Name, Key>, roots: map<Name, PageNo>, deps: Dependencies)
    requires InStep(m, tables0, oids0, roots0) && Opened(m, tables, oids, roots) && DepsRead(deps, m)
    ensures tables == tables0 <==> AllShort(tables0)
    ensures AllShort(tables0) ==> oids == oids0 && InStep(m, tables, oids, roots) && DepsMatch(deps, tables)
    ensures AllShort(tables0) ==> forall n :: n in tables ==>
            n in roots && n in roots0 && roots[n] == roots0[n] % UINT64_LIMIT
  {
    if AllShort(tables0) {
      ShortReopened(m, tables0, oids0, roots0, tables, oids, roots);
      ShortDeps(m, tables0, oids0, roots0, deps);
    } else if tables == tables0 {
      forall n | n in tables
        ensures ShortTable(tables[n])
      {
        assert EntryRead(m, tables, oids, roots, n);
        var owner := OwnerOf(m, tables0, oids0, roots0, oids[n]);
        CutIsShort(tables0[owner]);
      }
    }
  }

  lemma ShortReopened(m: map<Key, Bytes>, tables0: map<Name, Table>, oids0: map<Name, Key>, roots0: map<Name, PageNo>,
                      tables: map<Name, Table>, oids: map<Name, Key>, roots: map<Name, PageNo>)
    requires InStep(m, tables0, oids0, roots0) && Opened(m, tables, oids, roots) && AllShort(tables0)
    ensures tables == tables0 && oids == oids0 && InStep(m, tables, oids, roots)
    ensures forall n :: n in tables ==> n in roots && n in roots0 && roots[n] == roots0[n] % UINT64_LIMIT
  {
    forall n
      ensures n in tables ==> n in tables0 && n in oids0 && n in roots && n in roots0
      ensures n in tables ==> tables[n] == tables0[n] && oids[n] == oids0[n] && roots[n] == roots0[n] % UINT64_LIMIT
    {
      if n in tables {
        assert EntryRead(m, tables, oids, roots, n);
        var owner := OwnerOf(m, tables0, oids0, roots0, oids[n]);
      }
    }
    forall n | n in tables0
      ensures n in tables
    {
      assert Recorded(m, tables0, oids0, roots0, n);
      TableRoundTrip(tables0[n], roots0[n]);
      assert Names(m, oids0[n], n);
    }
    forall n
      ensures Recorded(m, tables, oids, roots, n)
    {
      if n in tables {
        assert Recorded(m, tables0, oids0, roots0, n);
        SameTableBytes(tables0[n], roots0[n]);
      }
    }
  }

  lemma ShortDeps(m: map<Key, Bytes>, tables0: map<Name, Table>, oids0: map<Name, Key>, roots0: map<Name, PageNo>,
                  deps: Dependencies)
    requires InStep(m, tables0, oids0, roots0) && AllShort(tables0) && DepsRead(deps, m)
    ensures DepsMatch(deps, tables0)
  {
    forall p, n
      ensures n in DepsOf(deps, p) <==> n in tables0 && tables0[n].tblName == p
    {
      if k :| Depends(m, k, p, n) {
        var owner := OwnerOf(m, tables0, oids0, roots0, k);
      }
      if n in tables0 && tables0[n].tblName == p {
        assert Recorded(m, tables0, oids0, roots0, n);
        TableRoundTrip(tables0[n], roots0[n]);
        assert Depends(m, oids0[n], p, n);
      }
    }
  }

  /** The map of the first `i` rows, which come in key order. */
  ghost predicate IsPrefix(seen: map<Key, Bytes>, rows: seq<(Key, Bytes)>, i: nat)
    requires i <= |rows|
  {
    && (forall k :: k in seen ==> exists j :: 0 <= j < i && rows[j].0 == k)
    && (forall j :: 0 <= j < i ==> rows[j].0 in seen && seen[rows[j].0] == rows[j].1)
  }

  lemma PrefixMore(seen: map<Key, Bytes>, rows: seq<(Key, Bytes)>, i: nat)
    requires i < |rows| && IsPrefix(seen, rows, i) && forall j, k :: 0 <= j < k < |rows| ==> rows[j].0 < rows[k].0
    ensures IsPrefix(seen[rows[i].0 := rows[i].1], rows, i + 1) && forall k :: k in seen ==> k < rows[i].0
  {
  }

  lemma PrefixIsAll(seen: map<Key, Bytes>, rows: seq<(Key, Bytes)>, m: map<Key, Bytes>)
    requires IsPrefix(seen, rows, |rows|) && ListsBelow(rows, m, KEY_LIMIT) && forall k :: k in m ==> k < KEY_LIMIT
    ensures seen == m
  {
    forall k | k in m
      ensures k in seen && seen[k] == m[k]
    {
      assert (k, m[k]) in rows;
    }
  }

  // ---------- removals ----------

  /** A removal from the schema tree: the tree that it met, and the key. */
  datatype Removal = Removal(tree: Tree, key: Key)

  ghost predicate Underflows(cfg: Config, x: Removal) {
    KeyUnderflowsAsLast(x.tree, cfg, x.key)
  }

  ghost predicate NoneUnderflows(cfg: Config, xs: seq<Removal>) {
    forall i {:trigger xs[i]} :: 0 <= i < |xs| ==> !Underflows(cfg, xs[i])
  }

  /** Every removal met a well-formed tree with the keys that those before it left. */
  ghost predicate Chained(cfg: Config, xs: seq<Removal>, keys: set<Key>)
    decreases |xs|
  {
    xs != [] ==>
      && WellFormed(xs[0].tree, cfg) && xs[0].tree.cells.Keys == keys && xs[0].key in keys
      && Chained(cfg, xs[1..], keys - {xs[0].key})
  }

  ghost function KeysLeft(keys: set<Key>, xs: seq<Removal>): set<Key>
    decreases |xs|
  {
    if xs == [] then keys else KeysLeft(keys - {xs[0].key}, xs[1..])
  }

  /** The removals of a drop: where assertions are compiled in, it stops exactly at the first one
      that underflows as last child. */
  ghost predicate Traced(cfg: Config, asserts: bool, xs: seq<Removal>, keys: set<Key>, left: set<Key>,
                         r: RemoveResult) {
    && Chained(cfg, xs, keys)
    && (r == Removed ==> left == KeysLeft(keys, xs) && (asserts ==> NoneUnderflows(cfg, xs)))
    && (r == AssertFailed ==>
          asserts && xs != [] && NoneUnderflows(cfg, xs[..|xs| - 1]) && Underflows(cfg, xs[|xs| - 1]))
  }

  lemma {:induction false} ChainedJoin(cfg: Config, xs: seq<Removal>, ys: seq<Removal>, keys: set<Key>)
    requires Chained(cfg, xs, keys) && Chained(cfg, ys, KeysLeft(keys, xs))
    ensures Chained(cfg, xs + ys, keys) && KeysLeft(keys, xs + ys) == KeysLeft(KeysLeft(keys, xs), ys)
    decreases |xs|
  {
    if xs == [] {
      assert xs + ys == ys;
    } else {
      ChainedJoin(cfg, xs[1..], ys, keys - {xs[0].key});
      assert (xs + ys)[1..] == xs[1..] + ys;
    }
  }

  lemma TracedJoin(cfg: Config, asserts: bool, xs: seq<Removal>, ys: seq<Removal>, keys: set<Key>, mid: set<Key>,
                   left: set<Key>, r: RemoveResult)
    requires Traced(cfg, asserts, xs, keys, mid, Removed) && Traced(cfg, asserts, ys, mid, left, r)
    ensures Traced(cfg, asserts, xs + ys, keys, left, r)
  {
    ChainedJoin(cfg, xs, ys, keys);
    if asserts {
      NoneJoin(cfg, xs, ys);
      if ys != [] {
        NoneJoin(cfg, xs, ys[..|ys| - 1]);
        assert (xs + ys)[..|xs + ys| - 1] == xs + ys[..|ys| - 1];
      }
    }
  }

  lemma NoneJoin(cfg: Config, xs: seq<Removal>, ys: seq<Removal>)
    requires NoneUnderflows(cfg, xs)
    ensures NoneUnderflows(cfg, ys) ==> NoneUnderflows(cfg, xs + ys)
  {
  }

  lemma NothingDone(t: Tree)
    requires Typed(t) && t.root in t.span
    ensures Undisturbed(t, t)
    ensures forall cfg, asserts, keys :: Traced(cfg, asserts, [], keys, keys, Removed)
  {
  }

  lemma TracedOne(cfg: Config, asserts: bool, t: Tree, key: Key, left: set<Key>, r: RemoveResult)
    requires WellFormed(t, cfg) && key in t.cells.Keys
    requires r == AssertFailed <==> asserts && KeyUnderflowsAsLast(t, cfg, key)
    requires r == Removed ==> left == t.cells.Keys - {key}
    ensures Traced(cfg, asserts, [Removal(t, key)], t.cells.Keys, left, r)
  {
    var x := Removal(t, key);
    assert [x][1..] == [] && [x][..0] == [];
    assert Chained(cfg, [], t.cells.Keys - {key});
    assert KeysLeft(t.cells.Keys, [x]) == KeysLeft(t.cells.Keys - {key}, []);
  }

  // ---------- the catalog ----------

  /** What is on the schema page of a file, or comes to be on it. */
  ghost predicate SchemaTree(pages: PageMap, total: nat, cfg: Config, span: map<PageNo, Span>,
                             cells: map<Key, LeafCell>, chains: Chains) {
    if total < SCHEMA_PAGE then span == WholeRange(SCHEMA_PAGE) && cells == map[] && chains == map[]
    else
      && WellFormed(Tree(pages, span, SCHEMA_PAGE, cells), cfg)
      && StoreOk(pages, cells, chains) && AllDecode(Contents(pages, cells, chains))
  }

  /** The root has as many cells as a leaf holds. */
  ghost predicate FullRoot(t: Tree, cfg: Config) {
    CellsIn(t.pages, t.root) == cfg.leafMax
  }

  /** Makes the schema page where the file has none. */
  method EnsureSchemaPage(pager: Pager) returns (root: PageNo)
    requires pager.Valid()
    modifies pager`pages, pager`total
    ensures pager.Valid() && root == SCHEMA_PAGE
    ensures if old(pager.total) < SCHEMA_PAGE
            then pager.total == SCHEMA_PAGE && pager.pages == map[SCHEMA_PAGE := LeafPage([], NULL_PAGE, NULL_PAGE)]
            else pager.total == old(pager.total) && pager.pages == old(pager.pages)
  {
    root := SCHEMA_PAGE;
    if pager.total < SCHEMA_PAGE {
      root := pager.CreateLeafPage();
    }
  }

  method SchemaCursor(pager: Pager, cfg: Config, asserts: bool,
                      ghost span: map<PageNo, Span>, ghost cells: map<Key, LeafCell>, ghost chains: Chains)
    returns (cursor: BTreeCursor)
    requires pager.Valid() && cfg.Sound() && SchemaTree(pager.pages, pager.total, cfg, span, cells, chains)
    modifies pager`pages, pager`total
    ensures fresh(cursor) && cursor.pager == pager && cursor.cfg == cfg && cursor.asserts == asserts
    ensures cursor.Valid() && AllDecode(cursor.Map()) && cursor.chains == chains
    ensures cursor.T() == Tree(pager.pages, span, SCHEMA_PAGE, cells)
    ensures old(pager.total) >= SCHEMA_PAGE ==> pager.total == old(pager.total) && pager.pages == old(pager.pages)
    ensures old(pager.total) < SCHEMA_PAGE ==> pager.pages == map[SCHEMA_PAGE := LeafPage([], NULL_PAGE, NULL_PAGE)]
  {
    ghost var total := pager.total;
    var root := EnsureSchemaPage(pager);
    if total < SCHEMA_PAGE {
      NewTree(pager.pages, root, cfg);
    }
    cursor := new BTreeCursor(pager, root, cfg, asserts, span, cells, chains);
  }

  class CatalogManager {
    const cursor: BTreeCursor
    var tables: map<Name, Table>
    var oids: map<Name, Key>
    var roots: map<Name, PageNo>
    var deps: Dependencies
    var nextOid: Key

    ghost predicate Valid()
      reads this, cursor, cursor.pager
    {
      && cursor.Valid() && nextOid < KEY_LIMIT
      && InStep(cursor.Map(), tables, oids, roots)
    }

    /** Opens a catalog on the schema page of a file; the ghost arguments say what is there. */
    constructor (pager: Pager, cfg: Config, asserts: bool, nextOid: Key,
                 ghost span: map<PageNo, Span>, ghost cells: map<Key, LeafCell>, ghost chains: Chains)
      requires pager.Valid() && cfg.Sound() && nextOid < KEY_LIMIT
      requires SchemaTree(pager.pages, pager.total, cfg, span, cells, chains)
      modifies pager`pages, pager`total
      ensures fresh(cursor) && cursor.pager == pager && cursor.cfg == cfg && cursor.asserts == asserts
      ensures this.nextOid == nextOid && cursor.Valid() && cursor.chains == chains
      ensures cursor.T() == Tree(pager.pages, span, SCHEMA_PAGE, cells)
      ensures old(pager.total) >= SCHEMA_PAGE ==> pager.total == old(pager.total) && pager.pages == old(pager.pages)
      ensures old(pager.total) < SCHEMA_PAGE ==> pager.pages == map[SCHEMA_PAGE := LeafPage([], NULL_PAGE, NULL_PAGE)]
      ensures Opened(cursor.Map(), tables, oids, roots) && DepsRead(deps, cursor.Map())
    {
      var schemaCursor := SchemaCursor(pager, cfg, asserts, span, cells, chains);
      this.cursor, this.nextOid := schemaCursor, nextOid;
      tables, oids, roots, deps := map[], map[], map[], map[];
      new;
      InitializeTables();
    }

    /** `move_to_first`, then the entry under the cursor and `next` until there is none. */
    method InitializeTables()
      requires cursor.Valid() && AllDecode(cursor.Map())
      requires tables == map[] && oids == map[] && roots == map[] && deps == map[]
      modifies this`tables, this`oids, this`roots, this`deps, cursor`cursor
      ensures cursor.Valid() && cursor.Map() == old(cursor.Map())
      ensures Opened(cursor.Map(), tables, oids, roots) && DepsRead(deps, cursor.Map())
    {
      ghost var m := cursor.Map();
      KeysInRange();
      var rows := ReadEntries();
      LoadRows(rows, m);
    }

    method ReadEntries() returns (rows: seq<(Key, Bytes)>)
      requires cursor.Valid()
      modifies cursor`cursor
      ensures cursor.Valid() && cursor.Map() == old(cursor.Map()) && ListsBelow(rows, cursor.Map(), KEY_LIMIT)
    {
      var empty := cursor.IsEmpty();
      if empty {
        return [];
      }
      rows := cursor.ReadAll();
    }

    method LoadRows(rows: seq<(Key, Bytes)>, ghost m: map<Key, Bytes>)
      requires ListsBelow(rows, m, KEY_LIMIT) && AllDecode(m) && forall k :: k in m ==> k < KEY_LIMIT
      requires tables == map[] && oids == map[] && roots == map[] && deps == map[]
      modifies this`tables, this`oids, this`roots, this`deps
      ensures Opened(m, tables, oids, roots) && DepsRead(deps, m)
    {
      var i := 0;
      ghost var seen: map<Key, Bytes> := map[];
      while i < |rows|
        invariant i <= |rows| && IsPrefix(seen, rows, i)
        invariant Opened(seen, tables, oids, roots) && DepsRead(deps, seen)
      {
        PrefixMore(seen, rows, i);
        LoadEntry(rows[i].0, rows[i].1, seen);
        seen := seen[rows[i].0 := rows[i].1];
        i := i + 1;
      }
      PrefixIsAll(seen, rows, m);
    }

    method LoadEntry(oid: Key, bytes: Bytes, ghost seen: map<Key, Bytes>)
      requires (forall k :: k in seen ==> k < oid) && DecodeTable(bytes) != None
      requires Opened(seen, tables, oids, roots) && DepsRead(deps, seen)
      modifies this`tables, this`oids, this`roots, this`deps
      ensures Opened(seen[oid := bytes], tables, oids, roots) && DepsRead(deps, seen[oid := bytes])
    {
      var decoded := DeserializeTable(bytes);
      var (table, root) := decoded.value;
      OpenedMore(seen, tables, oids, roots, oid, bytes);
      DepsMore(deps, seen, oid, bytes);
      tables := tables[table.name := table];
      oids := oids[table.name := oid];
      roots := roots[table.name := root];
      deps := deps[table.tblName := (if table.tblName in deps then deps[table.tblName] else []) + [table.name]];
    }

    /** Adds a page that the schema tree does not use. */
    method CreateRootPage() returns (root: PageNo)
      requires cursor.Valid()
      modifies cursor.pager`pages, cursor.pager`total
      ensures cursor.Valid() && cursor.Map() == old(cursor.Map())
      ensures root !in old(cursor.pager.pages)
      ensures cursor.T()
              == old(cursor.T()).(pages := old(cursor.pager.pages)[root := LeafPage([], NULL_PAGE, NULL_PAGE)])
    {
      ghost var t := cursor.T();
      root := cursor.pager.CreateLeafPage();
      FrameTree(t, cursor.cfg, {}, cursor.pager.pages);
      StoreKept(t.pages, cursor.pager.pages, cursor.cells, cursor.chains);
    }

    /** Adds a table and its entry in the schema tree, under the next oid. When there is an entry
        under that oid, the program throws. */
    method CreateTable(table: Table) returns (r: InsertResult)
      requires Valid() && PayloadFits(table)
      modifies this, cursor, cursor.pager
      ensures r == DuplicateKeyError <==> old(nextOid) in old(cursor.Map())
      ensures r == DuplicateKeyError ==> Valid() && tables == old(tables) && deps == old(deps)
      ensures r == Inserted ==>
                && tables == old(tables)[table.name := table] && table.name in roots && table.name in oids
                && cursor.Valid()
                && cursor.Map() == old(cursor.Map())[old(nextOid) := TableBytes(table, roots[table.name])]
                && oids == old(oids)[table.name := old(nextOid)]
                && deps == old(deps)[table.tblName := DepsOf(old(deps), table.tblName) + [table.name]]
      ensures r == Inserted ==> nextOid == OidAfter(old(nextOid))
      ensures r == Inserted ==> (Valid() <==> table.name !in old(tables))
      ensures AsideKept(old(cursor.T()), cursor.T())
      ensures RootLeafAfter(old(cursor.T()), cursor.T(), r == Inserted && FullRoot(old(cursor.T()), cursor.cfg))
    {
      ghost var m, tables0, oids0, roots0 := cursor.Map(), tables, oids, roots;
      var root;
      r, root := AddEntry(table);
      ghost var more := m[nextOid := TableBytes(table, root)];
      if r == DuplicateKeyError {
        return;
      }
      InStepAdd(m, tables0, oids0, roots0, table, nextOid, root);
      Remember(table, root);
      assert InStep(more, tables, oids, roots) <==> table.name !in tables0;
      assert cursor.Valid() && cursor.Map() == more;
    }

    /** The page and the entry of a table. */
    method AddEntry(table: Table) returns (r: InsertResult, root: PageNo)
      requires cursor.Valid() && nextOid < KEY_LIMIT && PayloadFits(table)
      modifies cursor, cursor.pager
      ensures cursor.Valid()
      ensures r == DuplicateKeyError <==> nextOid in old(cursor.Map())
      ensures AsideKept(old(cursor.T()), cursor.T())
      ensures RootLeafAfter(old(cursor.T()), cursor.T(), r == Inserted && FullRoot(old(cursor.T()), cursor.cfg))
      ensures cursor.Map() == if r == Inserted then old(cursor.Map())[nextOid := TableBytes(table, root)]
              else old(cursor.Map())
    {
      ghost var t := cursor.T();
      root := CreateRootPage();
      ghost var u := cursor.T();
      r := InsertEntry(table, root);
      AddedPages(t, u.pages, cursor.T(), r == Inserted && FullRoot(t, cursor.cfg));
    }

    method Remember(table: Table, root: PageNo)
      requires nextOid < KEY_LIMIT
      modifies this
      ensures nextOid == OidAfter(old(nextOid))
      ensures tables == old(tables)[table.name := table] && roots == old(roots)[table.name := root]
      ensures oids == old(oids)[table.name := old(nextOid)]
      ensures deps == old(deps)[table.tblName := DepsOf(old(deps), table.tblName) + [table.name]]
    {
      oids := oids[table.name := nextOid];
      roots := roots[table.name := root];
      nextOid := OidAfter(nextOid);
      tables := tables[table.name := table];
      deps := deps[table.tblName := (if table.tblName in deps then deps[table.tblName] else []) + [table.name]];
    }

    method InsertEntry(table: Table, root: PageNo) returns (r: InsertResult)
      requires cursor.Valid() && nextOid < KEY_LIMIT && PayloadFits(table)
      modifies cursor, cursor.pager
      ensures cursor.Valid()
      ensures r == DuplicateKeyError <==> nextOid in old(cursor.Map())
      ensures AsideKept(old(cursor.T()), cursor.T())
      ensures RootLeafAfter(old(cursor.T()), cursor.T(), r == Inserted && FullRoot(old(cursor.T()), cursor.cfg))
      ensures cursor.Map() == if r == Inserted then old(cursor.Map())[nextOid := TableBytes(table, root)]
              else old(cursor.Map())
    {
      var payload := SerializeTable(table, root);
      PayloadStored(table, root);
      r := cursor.Insert(nextOid, payload);
    }

    /** Drops a table and, table by table, what depends on it. The schema tree loses the entries
        of exactly those tables, one removal after the other. */
    method DropTable(name: Name) returns (r: RemoveResult, ghost removals: seq<Removal>)
      requires Valid()
      modifies this`tables, this`oids, cursor, cursor.pager
      ensures Traced(cursor.cfg, cursor.asserts, removals, old(cursor.cells.Keys), cursor.cells.Keys, r)
      ensures r == Removed ==>
                && Valid() && Cascade(deps, old(tables).Keys, tables.Keys, name)
                && Remain(old(tables), old(oids), tables, oids)
                && Undisturbed(old(cursor.T()), cursor.T())
      decreases |tables|, 0
    {
      removals := [];
      if name !in tables {
        NothingDone(cursor.T());
        return Removed, [];
      }
      ghost var tables0, oids0, t := tables, oids, cursor.T();
      r, removals := DropEntry(name);
      if r == AssertFailed {
        return;
      }
      CascadeBegins(deps, tables0.Keys, name);
      if name !in deps {
        CascadeEnds(deps, tables0.Keys, tables.Keys, name);
        return;
      }
      ghost var u, more := cursor.T(), removals;
      r, more := DropDependents(deps[name], name, tables0, oids0);
      TracedJoin(cursor.cfg, cursor.asserts, removals, more, t.cells.Keys, u.cells.Keys, cursor.cells.Keys, r);
      removals := removals + more;
      if r == Removed { UndisturbedTrans(t, u, cursor.T()); }
    }

    /** The loop over a copy of the names that depend on a table which is gone. */
    method DropDependents(dependencies: seq<Name>, ghost name: Name,
                          ghost tables0: map<Name, Table>, ghost oids0: map<Name, Key>)
      returns (r: RemoveResult, ghost removals: seq<Removal>)
      requires Valid() && dependencies == DepsOf(deps, name)
      requires CascadeUpTo(deps, tables0.Keys, tables.Keys, name, 0) && Remain(tables0, oids0, tables, oids)
      modifies this`tables, this`oids, cursor, cursor.pager
      ensures Traced(cursor.cfg, cursor.asserts, removals, old(cursor.cells.Keys), cursor.cells.Keys, r)
      ensures r == Removed ==>
                && Valid() && Cascade(deps, tables0.Keys, tables.Keys, name) && Remain(tables0, oids0, tables, oids)
                && Undisturbed(old(cursor.T()), cursor.T())
      decreases |tables|, 2
    {
      var i := 0;
      ghost var t := cursor.T();
      removals := [];
      NothingDone(t);
      while i < |dependencies|
        invariant i <= |dependencies| && Valid() && |tables| <= |old(tables)|
        invariant Dropping(name, i, tables0, oids0, t, removals)
      {
        r, removals := DropNext(dependencies[i], name, i, tables0, oids0, t, removals);
        if r == AssertFailed {
          return;
        }
        i := i + 1;
      }
      CascadeEnds(deps, tables0.Keys, tables.Keys, name);
      return Removed, removals;
    }

    /** The first `i` tables that depend on `name` are dropped. */
    ghost predicate Dropping(name: Name, i: nat, tables0: map<Name, Table>, oids0: map<Name, Key>, t: Tree,
                             removals: seq<Removal>)
      reads this, cursor, cursor.pager
    {
      && CascadeUpTo(deps, tables0.Keys, tables.Keys, name, i) && Remain(tables0, oids0, tables, oids)
      && Traced(cursor.cfg, cursor.asserts, removals, t.cells.Keys, cursor.cells.Keys, Removed)
      && Undisturbed(t, cursor.T())
    }

    method DropNext(dependency: Name, ghost name: Name, ghost i: nat, ghost tables0: map<Name, Table>,
                    ghost oids0: map<Name, Key>, ghost t: Tree, ghost removals: seq<Removal>)
      returns (r: RemoveResult, ghost more: seq<Removal>)
      requires Valid() && Dropping(name, i, tables0, oids0, t, removals)
      requires i < |DepsOf(deps, name)| && dependency == DepsOf(deps, name)[i]
      modifies this`tables, this`oids, cursor, cursor.pager
      ensures Traced(cursor.cfg, cursor.asserts, more, t.cells.Keys, cursor.cells.Keys, r)
      ensures r == Removed ==>
                Valid() && Dropping(name, i + 1, tables0, oids0, t, more) && |tables| <= |old(tables)|
      decreases |tables|, 1
    {
      ghost var mid, u, own := tables, cursor.T(), removals;
      r, own := DropTable(dependency);
      TracedJoin(cursor.cfg, cursor.asserts, removals, own, t.cells.Keys, u.cells.Keys, cursor.cells.Keys, r);
      more := removals + own;
      if r == Removed {
        CascadeStep(deps, tables0.Keys, mid.Keys, tables.Keys, name, i);
        NoMoreTables(tables, mid);
        UndisturbedTrans(t, u, cursor.T());
      }
    }

    /** Takes one live table out of memory and out of the schema tree. */
    method DropEntry(name: Name) returns (r: RemoveResult, ghost removals: seq<Removal>)
      requires Valid() && name in tables
      modifies this`tables, this`oids, cursor, cursor.pager
      ensures tables == old(tables) - {name} && oids == old(oids) - {name} && |tables| < |old(tables)|
      ensures Traced(cursor.cfg, cursor.asserts, removals, old(cursor.cells.Keys), cursor.cells.Keys, r)
      ensures r == Removed ==> Valid() && Undisturbed(old(cursor.T()), cursor.T())
    {
      ghost var m := cursor.Map();
      assert Recorded(m, tables, oids, roots, name);
      InStepDrop(m, tables, oids, roots, name);
      OneTableLess(tables, name);
      var oid := oids[name];
      ghost var m', tables', oids' := m - {oid}, tables - {name}, oids - {name};
      assert InStep(m', tables', oids', roots);
      tables := tables - {name};
      oids := oids - {name};
      r, removals := RemoveEntry(oid);
      assert r == Removed ==> cursor.Map() == m' && InStep(cursor.Map(), tables, oids, roots);
    }

    method RemoveEntry(oid: Key) returns (r: RemoveResult, ghost removals: seq<Removal>)
      requires cursor.Valid() && oid in cursor.Map()
      modifies cursor, cursor.pager
      ensures Traced(cursor.cfg, cursor.asserts, removals, old(cursor.cells.Keys), cursor.cells.Keys, r)
      ensures r == Removed ==> cursor.Valid() && cursor.Map() == old(cursor.Map()) - {oid}
      ensures Undisturbed(old(cursor.T()), cursor.T())
    {
      KeysInRange();
      ghost var t := cursor.T();
      assert cursor.Map().Keys == cursor.cells.Keys;
      r := RemoveKey(cursor, oid);
      assert r == Removed ==> cursor.Map().Keys == cursor.cells.Keys;
      removals := [Removal(t, oid)];
      TracedOne(cursor.cfg, cursor.asserts, t, oid, cursor.cells.Keys, r);
    }

    lemma KeysInRange()
      requires cursor.Valid()
      ensures forall k :: k in cursor.Map() ==> k < KEY_LIMIT && k in cursor.cells
    {
    }

    method GetTable(name: Name) returns (t: Option<Table>)
      ensures t == if name in tables then Some(tables[name]) else None
    {
      return if name in tables then Some(tables[name]) else None;
    }
  }
}
