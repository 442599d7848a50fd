/**
 Page images of the database file: node pages, leaf pages, free pages and overflow
 pages, the cells they hold and the sizes that bound them
 (lib/pager/leaf_page/leaf_page.h, lib/pager/node_page/node_page.h, lib/shared.h, lib/btree/btree.h).
 */
module Pages {

  type PageNo = nat
  type Key = nat
  type Byte = b: int | 0 <= b < 256

  datatype Option<+T> = None | Some(value: T)

  const NULL_PAGE: PageNo := 0
  const FIRST_PAGE: PageNo := 1

  /** Keys are 32-bit unsigned integers. */
  const KEY_LIMIT: nat := 0x1_0000_0000
  const UINT32_LIMIT: nat := 0x1_0000_0000

  const PAGE_SIZE: nat := 4096
  const LEAF_HEADER_SIZE: nat := 40
  const LEAF_CELL_SIZE: nat := 16
  const NODE_HEADER_SIZE: nat := 32
  const NODE_CELL_SIZE: nat := 16
  const OVERFLOW_HEADER_SIZE: nat := 24
  const CHUNK_SIZE: nat := PAGE_SIZE - OVERFLOW_HEADER_SIZE

  const LEAF_CAPACITY: nat := (PAGE_SIZE - LEAF_HEADER_SIZE) / LEAF_CELL_SIZE
  const NODE_CAPACITY: nat := (PAGE_SIZE - NODE_HEADER_SIZE) / NODE_CELL_SIZE

  /** A cell of a page: in a node the value is the left child, in a leaf the record. */
  datatype Cell<+V> = Cell(key: Key, val: V)

  /** What a leaf cell says of its payload: its size and the head of its overflow chain. */
  datatype Record = Record(size: nat, page: PageNo)

  type NodeCell = Cell<PageNo>
  type LeafCell = Cell<Record>

  datatype Page =
    | NodePage(seps: seq<NodeCell>, right: PageNo)
    | LeafPage(cells: seq<LeafCell>, prev: PageNo, next: PageNo)
    | FreePage(nextFree: PageNo)
    | OverflowPage(nextOverflow: PageNo, bytes: seq<Byte>)
    | BlankPage

  type PageMap = map<PageNo, Page>

  /** Occupancy limits of a tree. The default limits meet `Sound`. */
  datatype Config = Config(leafMin: nat, leafMax: nat, nodeMin: nat, nodeMax: nat) {
    predicate Sound() {
      && 1 <= leafMin && 2 * leafMin <= leafMax + 1 && leafMax <= LEAF_CAPACITY
      && 1 <= nodeMin && 2 * nodeMin <= nodeMax && nodeMax <= NODE_CAPACITY
    }
  }

  const DEFAULT_CONFIG: Config :=
    Config(LEAF_CAPACITY / 2, LEAF_CAPACITY, NODE_CAPACITY / 2, NODE_CAPACITY)

  // ---------- sorted cells ----------

  ghost predicate Sorted<V>(s: seq<Cell<V>>) {
    forall i, j :: 0 <= i < j < |s| ==> s[i].key < s[j].key
  }

  /** The number of cells in front of the first cell whose key is not below `k`. */
  ghost function Rank<V>(s: seq<Cell<V>>, k: Key): (r: nat)
    ensures r <= |s|
    ensures forall i :: 0 <= i < r ==> s[i].key < k
    ensures r < |s| ==> k <= s[r].key
  {
    if s == [] || k <= s[0].key then 0 else 1 + Rank(s[1..], k)
  }

  ghost predicate HasKey<V>(s: seq<Cell<V>>, k: Key) {
    exists i :: 0 <= i < |s| && s[i].key == k
  }

  ghost function InsertAt<T>(s: seq<T>, i: nat, x: T): (r: seq<T>)
    requires i <= |s|
    ensures |r| == |s| + 1
    ensures forall j {:trigger r[j]} :: 0 <= j < i ==> r[j] == s[j]
    ensures r[i] == x
    ensures forall j {:trigger r[j]} :: i < j <= |s| ==> r[j] == s[j - 1]
  {
    s[..i] + [x] + s[i..]
  }

  ghost function RemoveAt<T>(s: seq<T>, i: nat): (r: seq<T>)
    requires i < |s|
    ensures |r| == |s| - 1
    ensures forall j {:trigger r[j]} :: 0 <= j < i ==> r[j] == s[j]
    ensures forall j {:trigger r[j]} :: i <= j < |s| - 1 ==> r[j] == s[j + 1]
  {
    s[..i] + s[i + 1..]
  }

  ghost function InsertCell<V>(s: seq<Cell<V>>, c: Cell<V>): (r: seq<Cell<V>>)
    ensures |r| == |s| + 1
  {
    InsertAt(s, Rank(s, c.key), c)
  }

  lemma RankUnique<V>(s: seq<Cell<V>>, k: Key, r: nat)
    requires r <= |s|
    requires forall i :: 0 <= i < r ==> s[i].key < k
    requires r < |s| ==> k <= s[r].key
    ensures Rank(s, k) == r
  {
  }

  lemma InsertSorted<V>(s: seq<Cell<V>>, c: Cell<V>)
    requires Sorted(s) && !HasKey(s, c.key)
    ensures Sorted(InsertCell(s, c))
  {
    var r := Rank(s, c.key);
    var t := InsertCell(s, c);
    forall i, j | 0 <= i < j < |t|
      ensures t[i].key < t[j].key
    {
      if j == r {
      } else if i == r {
        assert s[r].key != c.key;
        assert s[r].key <= s[j - 1].key;
      } else {
        var i' := if i < r then i else i - 1;
        var j' := if j < r then j else j - 1;
        assert s[i'].key < s[j'].key;
      }
    }
  }

  // ---------- children of a node page ----------

  /** Child `i` of a node page; child `|seps|` is the rightmost one. */
  function Child(g: Page, i: nat): PageNo
    requires g.NodePage? && i <= |g.seps|
  {
    if i < |g.seps| then g.seps[i].val else g.right
  }

  /** Replaces child `i`, which is either the left child of a cell or the right child. */
  function SetChild(g: Page, i: nat, c: PageNo): Page
    requires g.NodePage? && i <= |g.seps|
  {
    if i < |g.seps| then g.(seps := g.seps[i := g.seps[i].(val := c)]) else g.(right := c)
  }

  ghost function CellsIn(pages: PageMap, p: PageNo): nat {
    if p in pages && pages[p].LeafPage? then |pages[p].cells| else 0
  }

  ghost function SepsIn(pages: PageMap, p: PageNo): nat {
    if p in pages && pages[p].NodePage? then |pages[p].seps| else 0
  }

  /** The keys below child `i` are in [SepLo, SepHi). */
  ghost function SepLo(g: Page, lo: nat, i: nat): nat
    requires g.NodePage? && i <= |g.seps|
  {
    if i == 0 then lo else g.seps[i - 1].key
  }

  ghost function SepHi(g: Page, hi: nat, i: nat): nat
    requires g.NodePage? && i <= |g.seps|
  {
    if i == |g.seps| then hi else g.seps[i].key
  }
}
