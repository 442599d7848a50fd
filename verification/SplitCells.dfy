/**
 How a full page is divided when it gains a cell (BTreeCursor::split_cell,
 lib/btree/utils.cpp:13-63): the keys are collected and sorted, and cut in the middle.
 */
module SplitCells {
  import opened Pages

  /** The keys of the cells, in their order. */
  ghost predicate AreKeys<V>(keys: seq<Key>, s: seq<Cell<V>>) {
    |keys| == |s| && forall i :: 0 <= i < |s| ==> keys[i] == s[i].key
  }

  ghost predicate Ascending(s: seq<Key>) {
    forall i, j :: 0 <= i < j < |s| ==> s[i] < s[j]
  }

  method InsertKey(sorted: seq<Key>, key: Key) returns (out: seq<Key>)
    requires Ascending(sorted) && key !in sorted
    ensures Ascending(out) && forall k :: k in out <==> k in sorted || k == key
  {
    var i := |sorted|;
    while i > 0 && key < sorted[i - 1]
      invariant 0 <= i <= |sorted|
      invariant forall j :: i <= j < |sorted| ==> key < sorted[j]
    {
      i := i - 1;
    }
    out := sorted[..i] + [key] + sorted[i..];
    InsertAscending(sorted, key, i);
  }

  lemma InsertAscending(sorted: seq<Key>, key: Key, i: nat)
    requires Ascending(sorted) && key !in sorted && i <= |sorted|
    requires i > 0 ==> sorted[i - 1] <= key
    requires forall j :: i <= j < |sorted| ==> key < sorted[j]
    ensures var out := InsertAt(sorted, i, key);
            Ascending(out) && forall k :: k in out <==> k in sorted || k == key
  {
    var out := InsertAt(sorted, i, key);
    assert i > 0 ==> sorted[i - 1] in sorted;
    forall a, b | 0 <= a < b < |out|
      ensures out[a] < out[b]
    {
      assert a < i ==> sorted[a] <= sorted[i - 1];
    }
    forall k
      ensures k in out <==> k in sorted || k == key
    {
      if k in sorted {
        var j :| 0 <= j < |sorted| && sorted[j] == k;
        assert out[if j < i then j else j + 1] == k;
      }
      assert out[i] == key;
    }
  }

  /** Stands for `std::sort` on the keys of a page, which are distinct. */
  method SortKeys(keys: seq<Key>) returns (out: seq<Key>)
    requires forall i, j :: 0 <= i < j < |keys| ==> keys[i] != keys[j]
    ensures Ascending(out) && forall k :: k in out <==> k in keys
  {
    out := [];
    var n := 0;
    while n < |keys|
      invariant n <= |keys|
      invariant Ascending(out) && forall k :: k in out <==> k in keys[..n]
    {
      out := InsertKey(out, keys[n]);
      assert keys[..n + 1] == keys[..n] + [keys[n]];
      n := n + 1;
    }
    assert keys[..n] == keys;
  }

  lemma SortedUnique(a: seq<Key>, b: seq<Key>)
    requires Ascending(a) && Ascending(b) && forall k :: k in a <==> k in b
    ensures a == b
  {
    if a == [] {
      assert forall i :: 0 <= i < |b| ==> b[i] in b;
    } else {
      assert a[0] in b && b[0] in a;
      assert a[0] == b[0];
      forall k
        ensures k in a[1..] <==> k in b[1..]
      {
        assert k in a[1..] <==> k in a && k != a[0];
        assert k in b[1..] <==> k in b && k != b[0];
      }
      SortedUnique(a[1..], b[1..]);
      assert a == [a[0]] + a[1..] && b == [b[0]] + b[1..];
    }
  }

  /** Sorting the keys of the page and the new key gives the keys in order of insertion. */
  lemma SortInserts<V>(cells: seq<Cell<V>>, cell: Cell<V>, unsorted: seq<Key>, keys: seq<Key>)
    requires Sorted(cells) && !HasKey(cells, cell.key) && AreKeys(unsorted, cells)
    requires Ascending(keys) && forall k :: k in keys <==> k in unsorted + [cell.key]
    ensures AreKeys(keys, InsertCell(cells, cell))
  {
    InsertSorted(cells, cell);
    var r := Rank(cells, cell.key);
    var ks := unsorted[..r] + [cell.key] + unsorted[r..];
    assert unsorted == unsorted[..r] + unsorted[r..];
    assert AreKeys(ks, InsertCell(cells, cell));
    SortedUnique(keys, ks);
  }

  /** The keys of the cells, and the cells by key. */
  method CollectCells<V>(cells: seq<Cell<V>>) returns (keys: seq<Key>, cellMap: map<Key, Cell<V>>)
    requires Sorted(cells)
    ensures AreKeys(keys, cells)
    ensures forall i :: 0 <= i < |cells| ==> cells[i].key in cellMap && cellMap[cells[i].key] == cells[i]
  {
    keys, cellMap := [], map[];
    var i := 0;
    while i < |cells|
      invariant i <= |cells| && AreKeys(keys, cells[..i])
      invariant forall j :: 0 <= j < i ==> cells[j].key in cellMap && cellMap[cells[j].key] == cells[j]
    {
      keys := keys + [cells[i].key];
      cellMap := cellMap[cells[i].key := cells[i]];
      i := i + 1;
    }
    assert cells[..i] == cells;
  }

  lemma InsertedInMap<V>(cells: seq<Cell<V>>, cell: Cell<V>, cellMap: map<Key, Cell<V>>)
    requires !HasKey(cells, cell.key)
    requires forall i :: 0 <= i < |cells| ==> cells[i].key in cellMap && cellMap[cells[i].key] == cells[i]
    ensures var v, m := InsertCell(cells, cell), cellMap[cell.key := cell];
            forall i :: 0 <= i < |v| ==> v[i].key in m && m[v[i].key] == v[i]
  {
    var v, r := InsertCell(cells, cell), Rank(cells, cell.key);
    forall i | 0 <= i < |v| && i != r
      ensures v[i].key in cellMap && cellMap[v[i].key] == v[i] && v[i].key != cell.key
    {
      assert v[i] == cells[if i < r then i else i - 1];
    }
  }

  lemma DistinctKeys<V>(cells: seq<Cell<V>>, cell: Cell<V>, unsorted: seq<Key>)
    requires Sorted(cells) && !HasKey(cells, cell.key) && AreKeys(unsorted, cells)
    ensures var keys := unsorted + [cell.key]; forall i, j :: 0 <= i < j < |keys| ==> keys[i] != keys[j]
  {
  }

  method SplitCell<V>(cells: seq<Cell<V>>, cell: Cell<V>, isLeaf: bool)
    returns (leftKeys: seq<Key>, rightKeys: seq<Key>, cellMap: map<Key, Cell<V>>)
    requires Sorted(cells) && !HasKey(cells, cell.key) && cells != []
    ensures var v := InsertCell(cells, cell);
            var m := if isLeaf then (|v| + 1) / 2 else |v| / 2;
            && m < |v| && AreKeys(leftKeys, v[..m]) && AreKeys(rightKeys, v[m..])
            && forall i :: 0 <= i < |v| ==> v[i].key in cellMap && cellMap[v[i].key] == v[i]
  {
    var keys;
    keys, cellMap := CollectCells(cells);
    InsertedInMap(cells, cell, cellMap);
    ghost var unsorted := keys;
    keys := keys + [cell.key];
    cellMap := cellMap[cell.key := cell];
    DistinctKeys(cells, cell, unsorted);
    keys := SortKeys(keys);
    SortInserts(cells, cell, unsorted, keys);
    var leftSize := if isLeaf then (|keys| + 1) / 2 else |keys| / 2;
    leftKeys, rightKeys := keys[..leftSize], keys[leftSize..];
  }
}
