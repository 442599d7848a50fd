/**
 The cache of open segment files: a doubly linked list in recency order beside a map from
 file key to list node (lib/storage/filecache.h, lib/storage/filecache.cpp).
 */
module FileCacheModel {
  import opened Pages

  type TableId = nat
  type SegmentId = nat
  type FileKey = (TableId, SegmentId)

  const MAX_CACHE_SIZE: nat := 10

  /** A file handle: the file it was opened on, and whether it still is open. */
  datatype LocalFile = LocalFile(path: FileKey, isOpen: bool)

  class FileNode {
    const key: FileKey
    var file: LocalFile
    var prev: FileNode?
    var next: FileNode?

    constructor (key: FileKey, file: LocalFile)
      ensures this.key == key && this.file == file && prev == null && next == null
    {
      this.key, this.file, prev, next := key, file, null, null;
    }
  }

  // ---------- recency ----------

  /** When `k` was last used: one past its last position in the trace, 0 when it was not. */
  ghost function LastUse(uses: seq<FileKey>, k: FileKey): (r: nat)
    ensures r <= |uses|
    ensures r > 0 ==> uses[r - 1] == k
    ensures forall i :: r <= i < |uses| ==> uses[i] != k
  {
    if uses == [] then 0
    else if uses[|uses| - 1] == k then |uses|
    else LastUse(uses[..|uses| - 1], k)
  }

  /** The key of node `i` was used, and later than the one of node `j` if that is behind it. */
  ghost predicate UsedAfter(uses: seq<FileKey>, order: seq<FileNode>, i: nat, j: nat)
    requires i < |order| && j <= |order|
  {
    LastUse(uses, order[i].key) > if i < j < |order| then LastUse(uses, order[j].key) else 0
  }

  /** Nodes by falling time of last use of their keys. */
  ghost predicate InRecencyOrder(uses: seq<FileKey>, order: seq<FileNode>) {
    forall i, j {:trigger UsedAfter(uses, order, i, j)} ::
      0 <= i < |order| && 0 <= j <= |order| ==> UsedAfter(uses, order, i, j)
  }

  ghost predicate IsLeastRecent(uses: seq<FileKey>, order: seq<FileNode>, victim: FileNode) {
    victim in order && forall n :: n in order && n != victim ==> LastUse(uses, victim.key) < LastUse(uses, n.key)
  }

  /** Using a key that no node has, and putting its node first, keeps the others' order. */
  lemma UseFirst(uses: seq<FileKey>, order: seq<FileNode>, n: FileNode)
    requires InRecencyOrder(uses, order) && forall i :: 0 <= i < |order| ==> order[i].key != n.key
    ensures InRecencyOrder(uses + [n.key], [n] + order)
  {
    var uses', order' := uses + [n.key], [n] + order;
    assert uses'[..|uses|] == uses;
    assert forall i :: 0 <= i < |order| ==> LastUse(uses', order[i].key) == LastUse(uses, order[i].key);
    forall i, j | 0 <= i < |order'| && 0 <= j <= |order'|
      ensures UsedAfter(uses', order', i, j)
    {
      assert i > 0 ==> UsedAfter(uses, order, i - 1, if j > 0 then j - 1 else 0);
    }
  }

  lemma DropKeepsOrder(uses: seq<FileKey>, order: seq<FileNode>, i: nat)
    requires InRecencyOrder(uses, order) && i < |order|
    ensures InRecencyOrder(uses, RemoveAt(order, i))
    ensures forall j :: 0 <= j < |order| - 1 ==> RemoveAt(order, i)[j].key != order[i].key
  {
    var r := RemoveAt(order, i);
    forall a, b | 0 <= a < |r| && 0 <= b <= |r|
      ensures UsedAfter(uses, r, a, b)
    {
      assert UsedAfter(uses, order, if a < i then a else a + 1, if b < i then b else b + 1);
    }
    forall a | 0 <= a < |r|
      ensures r[a].key != order[i].key
    {
      assert UsedAfter(uses, order, if a < i then a else i, if a < i then i else a + 1);
    }
  }

  lemma LastIsLeast(uses: seq<FileKey>, order: seq<FileNode>)
    requires InRecencyOrder(uses, order) && order != []
    ensures IsLeastRecent(uses, order, order[|order| - 1])
  {
    var last := |order| - 1;
    forall n | n in order && n != order[last]
      ensures LastUse(uses, order[last].key) < LastUse(uses, n.key)
    {
      var i :| 0 <= i < |order| && order[i] == n;
      assert UsedAfter(uses, order, i, last);
    }
  }

  // ---------- the linked list ----------

  ghost function NodeAt(order: seq<FileNode>, i: int): FileNode? {
    if 0 <= i < |order| then order[i] else null
  }

  ghost predicate LinkOk(order: seq<FileNode>, i: nat)
    requires i < |order|
    reads order`prev, order`next
  {
    order[i].prev == NodeAt(order, i - 1) && order[i].next == NodeAt(order, i + 1)
  }

  /** The nodes are linked in this order. */
  ghost predicate Linked(order: seq<FileNode>)
    reads order`prev, order`next
  {
    forall i {:trigger LinkOk(order, i)} :: 0 <= i < |order| ==> LinkOk(order, i)
  }

  ghost predicate EntryOk(table: map<FileKey, FileNode>, order: seq<FileNode>, k: FileKey) {
    k in table ==> table[k] in order && table[k].key == k
  }

  ghost predicate NodeOk(table: map<FileKey, FileNode>, order: seq<FileNode>, i: nat)
    requires i < |order|
  {
    var n := order[i];
    n.key in table && table[n.key] == n
  }

  /** The map has an entry for each node, under the node's key, and no other entry. */
  ghost predicate TableOk(table: map<FileKey, FileNode>, order: seq<FileNode>) {
    && (forall k {:trigger EntryOk(table, order, k)} :: EntryOk(table, order, k))
    && (forall i {:trigger NodeOk(table, order, i)} :: 0 <= i < |order| ==> NodeOk(table, order, i))
  }

  /** Each node holds an open handle on the file of its key. */
  ghost predicate FilesOk(order: seq<FileNode>)
    reads order`file
  {
    forall n :: n in order ==> n.file == LocalFile(n.key, true)
  }

  lemma DropNode(table: map<FileKey, FileNode>, order: seq<FileNode>, uses: seq<FileKey>, i: nat)
    requires Consistent(table, order, uses) && i < |order|
    ensures Consistent(table - {order[i].key}, RemoveAt(order, i), uses)
    ensures order[i] !in RemoveAt(order, i)
  {
    var r := RemoveAt(order, i);
    DropKeepsOrder(uses, order, i);
    forall j | 0 <= j < |r|
      ensures NodeOk(table - {order[i].key}, r, j)
    {
      assert NodeOk(table, order, if j < i then j else j + 1);
    }
    forall k
      ensures EntryOk(table - {order[i].key}, r, k)
    {
      assert EntryOk(table, order, k);
      if k in table && k != order[i].key {
        var j :| 0 <= j < |order| && order[j] == table[k];
        if j < i { assert r[j] == table[k]; } else { assert r[j - 1] == table[k]; }
      }
    }
  }

  lemma Entry(table: map<FileKey, FileNode>, order: seq<FileNode>, k: FileKey) returns (i: nat)
    requires TableOk(table, order) && k in table
    ensures i < |order| && order[i] == table[k] && order[i].key == k
  {
    assert EntryOk(table, order, k);
    i :| 0 <= i < |order| && order[i] == table[k];
  }

  lemma AddNode(table: map<FileKey, FileNode>, order: seq<FileNode>, uses: seq<FileKey>, n: FileNode)
    requires Consistent(table, order, uses) && n.key !in table
    ensures Consistent(table[n.key := n], [n] + order, uses + [n.key])
  {
    forall i | 0 <= i < |order|
      ensures order[i].key != n.key
    {
      assert NodeOk(table, order, i);
    }
    UseFirst(uses, order, n);
    var r, table' := [n] + order, table[n.key := n];
    forall i | 0 <= i < |r|
      ensures NodeOk(table', r, i)
    {
      assert i > 0 ==> NodeOk(table, order, i - 1);
    }
    forall k
      ensures EntryOk(table', r, k)
    {
      assert EntryOk(table, order, k);
      assert r[0] == n;
    }
  }

  /** List order and map fit each other, and the list is in recency order. */
  ghost predicate Consistent(table: map<FileKey, FileNode>, order: seq<FileNode>, uses: seq<FileKey>) {
    TableOk(table, order) && InRecencyOrder(uses, order)
  }

  /** Moving the node of a key to the front, as a use of that key. */
  lemma TouchNode(table: map<FileKey, FileNode>, order: seq<FileNode>, uses: seq<FileKey>, i: nat,
                  order': seq<FileNode>)
    requires Consistent(table, order, uses) && i < |order| && MovedToFront(order, order', i)
    ensures Consistent(table, order', uses + [order[i].key])
    ensures order[i] !in RemoveAt(order, i)
  {
    var n := order[i];
    assert NodeOk(table, order, i);
    DropNode(table, order, uses, i);
    AddNode(table - {n.key}, RemoveAt(order, i), uses, n);
    assert (table - {n.key})[n.key := n] == table;
  }

  /** A list whose first node has no map entry does not fit the map. */
  lemma FirstUnmapped(table: map<FileKey, FileNode>, order: seq<FileNode>, uses: seq<FileKey>)
    requires order != [] && order[0].key !in table
    ensures !Consistent(table, order, uses)
  {
    assert !NodeOk(table, order, 0);
  }

  class FileCache {
    var table: map<FileKey, FileNode>
    var head: FileNode?
    var tail: FileNode?
    var size: nat
    /** The nodes of the list, and all uses of keys so far. */
    ghost var order: seq<FileNode>
    ghost var uses: seq<FileKey>

    /** The list is well linked between `head` and `tail`. */
    ghost predicate ListOk()
      reads this`order, this`head, this`tail, order`prev, order`next
    {
      && Linked(order)
      && head == NodeAt(order, 0) && tail == NodeAt(order, |order| - 1)
      && (forall i, j :: 0 <= i < j < |order| ==> order[i] != order[j])
    }

    /** List, map and `size` describe the same open files, most recently used first. */
    ghost predicate Valid()
      reads this, order
    {
      && ListOk()
      && FilesOk(order)
      && Consistent(table, order, uses)
      && size == |order| <= MAX_CACHE_SIZE
    }

    constructor ()
      ensures Valid() && order == [] && uses == [] && table == map[]
    {
      table, head, tail, size, order, uses := map[], null, null, 0, [], [];
    }

    /** Puts a node that is not in the list at its front. */
    method InsertNode(node: FileNode)
      requires ListOk() && node !in order
      modifies this`head, this`tail, this`order, order`prev, order`next, node`prev, node`next
      ensures ListOk() && order == [node] + old(order)
    {
      node.prev, node.next := null, null;
      if head == null {
        assert tail == null && order == [];
        head, tail := node, node;
      } else {
        node.next := head;
        head.prev := node;
        head := node;
      }
      order := [node] + order;
      forall i | 0 <= i < |order|
        ensures LinkOk(order, i)
      {
        assert i > 0 ==> old(LinkOk(order, i - 1));
      }
    }

    /** Unlinks a node and drops its map entry. */
    method DeleteNode(key: FileKey, ghost i: nat)
      requires ListOk() && (key in table ==> i < |order| && table[key] == order[i])
      modifies this`head, this`tail, this`order, this`table, order`prev, order`next
      ensures ListOk()
      ensures key !in old(table) ==> order == old(order)
      ensures key in old(table) ==> order == RemoveAt(old(order), i)
      ensures table == old(table) - {key}
    {
      if key !in table {
        return;
      }
      var node := table[key];
      assert LinkOk(order, i);
      var prev, next := node.prev, node.next;
      if prev != null {
        prev.next := next;
      }
      if next != null {
        next.prev := prev;
      }
      if head == node {
        head := node.next;
      }
      if tail == node {
        tail := node.prev;
      }
      table := table - {key};
      order := RemoveAt(order, i);
      forall j | 0 <= j < |order|
        ensures LinkOk(order, j)
      {
        assert old(LinkOk(order, if j < i then j else j + 1));
      }
    }

    method Exists(key: FileKey) returns (r: bool)
      requires Valid()
      ensures r <==> key in table
    {
      return key in table;
    }

    /** The open file of a key, which becomes the most recently used one. */
    method Get(key: FileKey) returns (file: Option<LocalFile>)
      requires Valid()
      modifies this`head, this`tail, this`order, this`table, this`uses, order`prev, order`next
      ensures Valid() && table == old(table)
      ensures file == None <==> key !in table
      ensures file == None ==> order == old(order) && uses == old(uses)
      ensures file != None ==> file == Some(LocalFile(key, true)) && uses == old(uses) + [key]
      ensures file != None ==>
                exists i :: 0 <= i < |old(order)| && old(order)[i].key == key && MovedToFront(old(order), order, i)
    {
      if key !in table {
        return None;
      }
      var node := table[key];
      ghost var i := Entry(table, order, key);
      ghost var all, moved, uses' := table, [node] + RemoveAt(order, i), uses + [key];
      TouchNode(all, order, uses, i, moved);
      assert Consistent(all, moved, uses');
      Relink(key, node, i);
      uses := uses';
      assert order == moved && table == all;
      return Some(node.file);
    }

    /** Takes the node out and puts it in again at the front: the steps of `get`. */
    method Relink(key: FileKey, node: FileNode, ghost i: nat)
      requires ListOk() && FilesOk(order) && key in table && i < |order| && node == order[i] == table[key]
      requires node !in RemoveAt(order, i)
      modifies this`head, this`tail, this`order, this`table, order`prev, order`next
      ensures ListOk() && FilesOk(order)
      ensures order == [node] + RemoveAt(old(order), i) && table == old(table)
    {
      DeleteNode(key, i);
      InsertNode(node);
      table := table[key := node];
      assert forall n :: n in order ==> n in old(order);
    }

    /** Adds the open file of a key that is not there; a full cache closes and drops the least
        recently used file. On a key that is there the map loses the entry while the list keeps
        the node. */
    method Put(key: FileKey, file: LocalFile)
      requires Valid() && file == LocalFile(key, true)
      modifies this, order
      ensures Valid() <==> key !in old(table)
      ensures order != [] && order[0].key == key
      ensures key !in old(table) ==> uses == old(uses) + [key] && order[0].file == file
      ensures key !in old(table) ==> key in table && table.Keys <= old(table).Keys + {key}
      ensures key !in old(table) && old(size) < MAX_CACHE_SIZE ==> order[1..] == old(order)
      ensures key !in old(table) && old(size) == MAX_CACHE_SIZE ==>
                && order[1..] == old(order)[..MAX_CACHE_SIZE - 1]
                && var victim := old(order)[MAX_CACHE_SIZE - 1];
                   IsLeastRecent(old(uses), old(order), victim) && !victim.file.isOpen
      ensures key in old(table) ==> key !in table
      ensures forall i :: 0 <= i < |order| ==> order[i] in old(order) || fresh(order[i])
    {
      if key in table {
        PutAgain(key);
        return;
      }
      if size == MAX_CACHE_SIZE {
        EvictLast();
      }
      AddFirst(key, file);
    }

    /** `put` on a key that is there: the node moves to the front and loses its map entry. */
    method PutAgain(key: FileKey)
      requires Valid() && key in table
      modifies this`head, this`tail, this`order, this`table, order`prev, order`next
      ensures !Valid() && key !in table && order != [] && order[0].key == key
      ensures forall i :: 0 <= i < |order| ==> order[i] in old(order)
    {
      var node := table[key];
      ghost var i := Entry(table, order, key);
      DropNode(table, order, uses, i);
      DeleteNode(key, i);
      InsertNode(node);
      FirstUnmapped(table, order, uses);
    }

    method AddFirst(key: FileKey, file: LocalFile)
      requires Valid() && file == LocalFile(key, true) && key !in table && size < MAX_CACHE_SIZE
      modifies this, order`prev, order`next
      ensures Valid() && uses == old(uses) + [key] && table.Keys == old(table).Keys + {key}
      ensures order != [] && fresh(order[0]) && order[0].key == key && order[0].file == file && order[1..] == old(order)
    {
      var node := new FileNode(key, file);
      ghost var table', order', uses' := table[key := node], [node] + order, uses + [key];
      AddNode(table, order, uses, node);
      assert Consistent(table', order', uses');
      InsertNode(node);
      size := size + 1;
      table := table[key := node];
      uses := uses';
      assert table == table' && order == order';
    }

    method EvictLast()
      requires Valid() && size == MAX_CACHE_SIZE
      modifies this`head, this`tail, this`order, this`table, this`size, order
      ensures Valid() && size == MAX_CACHE_SIZE - 1 && table.Keys <= old(table).Keys
      ensures order == old(order)[..MAX_CACHE_SIZE - 1]
      ensures var victim := old(order)[MAX_CACHE_SIZE - 1];
              IsLeastRecent(old(uses), old(order), victim) && !victim.file.isOpen
    {
      var last := tail;
      assert last == order[size - 1] && NodeOk(table, order, size - 1);
      LastIsLeast(uses, order);
      DropNode(table, order, uses, size - 1);
      last.file := last.file.(isOpen := false);
      DeleteNode(last.key, size - 1);
      size := size - 1;
    }
  }

  /** Putting a key twice breaks the cache. */
  method PutTwiceExample(key: FileKey) returns (cache: FileCache)
    ensures !cache.Valid()
  {
    cache := new FileCache();
    cache.Put(key, LocalFile(key, true));
    cache.Put(key, LocalFile(key, true));
  }

  /** The node at position `i` went to the front; the others kept their order. */
  ghost predicate MovedToFront(order: seq<FileNode>, order': seq<FileNode>, i: nat)
    requires i < |order|
  {
    order' == [order[i]] + RemoveAt(order, i)
  }
}
