/**
 The state of a buffer pool on values: frames, frame table, free list, live guards and the
 contents that the pages are meant to have. Module BufferPoolModel has the pool itself.
 */
module PoolState {
  import opened Pages
  import opened Encoding
  import opened StorageModel
  import opened EvictorModel

  /** A frame: whether it was written since it was loaded or flushed, its bytes, its pins. */
  datatype Frame = Frame(dirty: bool, data: Bytes, pins: nat)

  type FrameTable = map<PageKey, FrameId>

  // ---------- free and mapped frames ----------

  ghost predicate FreeAt(table: FrameTable, free: seq<FrameId>, n: nat, i: nat)
    requires i < |free|
  {
    && free[i] < n && (forall k :: k in table ==> table[k] != free[i])
    && forall j :: 0 <= j < |free| && j != i ==> free[j] != free[i]
  }

  ghost predicate MappedAt(table: FrameTable, n: nat, k: PageKey) {
    k in table ==> table[k] < n && forall k' :: k' in table && k' != k ==> table[k'] != table[k]
  }

  /** Free and mapped frames are a partition of all frames, and no frame is mapped twice. */
  ghost predicate Partitioned(table: FrameTable, free: seq<FrameId>, n: nat) {
    && (forall i {:trigger FreeAt(table, free, n, i)} :: 0 <= i < |free| ==> FreeAt(table, free, n, i))
    && (forall k {:trigger MappedAt(table, n, k)} :: MappedAt(table, n, k))
    && |free| + |table| == n
  }

  /** Counting: no frame is left out. */
  lemma EveryFrame(table: FrameTable, free: seq<FrameId>, n: nat, f: FrameId)
    requires Partitioned(table, free, n) && f < n
    ensures f in free <==> forall k :: k in table ==> table[k] != f
  {
    var listed := FreeSet(table, free, n);
    var mapped := MappedSet(table, n);
    assert listed !! mapped;
    FullSubset(listed + mapped, n);
    assert f in listed + mapped;
  }

  lemma FullSubset(s: set<FrameId>, n: nat)
    requires |s| == n && forall x :: x in s ==> x < n
    ensures forall x: nat :: x < n ==> x in s
  {
    assert s <= FirstN(n);
    var rest := FirstN(n) - s;
    assert FirstN(n) == s + rest;
    assert |rest| == 0;
  }

  ghost function FirstN(n: nat): (r: set<nat>)
    ensures |r| == n && forall x: nat :: x in r <==> x < n
  {
    if n == 0 then {} else FirstN(n - 1) + {n - 1}
  }

  lemma {:induction false} FreeSet(table: FrameTable, free: seq<FrameId>, n: nat) returns (r: set<FrameId>)
    requires forall i {:trigger FreeAt(table, free, n, i)} :: 0 <= i < |free| ==> FreeAt(table, free, n, i)
    ensures |r| == |free| && forall x :: x in r <==> x in free
    ensures forall x :: x in r ==> x < n && forall k :: k in table ==> table[k] != x
    decreases |free|
  {
    r := {};
    if free != [] {
      var m := |free| - 1;
      var rest := free[..m];
      forall i | 0 <= i < m
        ensures FreeAt(table, rest, n, i)
      {
        assert FreeAt(table, free, n, i);
      }
      r := FreeSet(table, rest, n);
      assert FreeAt(table, free, n, m) && free == rest + [free[m]];
      assert free[m] !in rest;
      r := r + {free[m]};
    }
  }

  lemma {:induction false} MappedSet(table: FrameTable, n: nat) returns (r: set<FrameId>)
    requires forall k {:trigger MappedAt(table, n, k)} :: MappedAt(table, n, k)
    ensures |r| == |table| && forall x :: x in r <==> exists k :: k in table && table[k] == x
    ensures forall x :: x in r ==> x < n
    decreases |table|
  {
    r := {};
    if table != map[] {
      var k :| k in table;
      var rest := table - {k};
      assert rest.Keys == table.Keys - {k};
      forall x
        ensures MappedAt(rest, n, x)
      {
        assert MappedAt(table, n, x);
      }
      r := MappedSet(rest, n);
      assert MappedAt(table, n, k) && table == rest[k := table[k]];
      r := r + {table[k]};
    }
  }

  /** The first free frame gets a page. */
  lemma MapFrame(table: FrameTable, free: seq<FrameId>, n: nat, k: PageKey)
    requires Partitioned(table, free, n) && free != [] && k !in table
    ensures Partitioned(table[k := free[0]], free[1..], n)
  {
    var table', free' := table[k := free[0]], free[1..];
    assert FreeAt(table, free, n, 0);
    forall i | 0 <= i < |free'|
      ensures FreeAt(table', free', n, i)
    {
      assert FreeAt(table, free, n, i + 1);
    }
    forall x
      ensures MappedAt(table', n, x)
    {
      assert MappedAt(table, n, x);
    }
    assert |table'| == |table| + 1 by { assert table'.Keys == table.Keys + {k}; }
  }

  /** A frame loses its page. */
  lemma UnmapFrame(table: FrameTable, free: seq<FrameId>, n: nat, k: PageKey)
    requires Partitioned(table, free, n) && k in table
    ensures Partitioned(table - {k}, free + [table[k]], n)
    ensures table[k] < n && table[k] !in free
  {
    var table', free' := table - {k}, free + [table[k]];
    assert MappedAt(table, n, k);
    forall i | 0 <= i < |free|
      ensures free[i] != table[k]
    {
      assert FreeAt(table, free, n, i);
    }
    forall i | 0 <= i < |free'|
      ensures FreeAt(table', free', n, i)
    {
      if i < |free| { assert FreeAt(table, free, n, i); }
    }
    forall x
      ensures MappedAt(table', n, x)
    {
      assert MappedAt(table, n, x);
    }
    assert |table'| == |table| - 1 by { assert table'.Keys == table.Keys - {k}; }
  }

  // ---------- pins ----------

  /** What a live guard is on. */
  datatype Hold = Hold(frame: FrameId, key: PageKey)

  /** The guards that pin a frame. */
  ghost function Holders<G>(held: map<G, Hold>, f: FrameId): set<G> {
    set g | g in held && held[g].frame == f
  }

  lemma HoldersAdd<G>(held: map<G, Hold>, g: G, h: Hold, x: FrameId)
    requires g !in held
    ensures |Holders(held[g := h], x)| == |Holders(held, x)| + if x == h.frame then 1 else 0
  {
    if x == h.frame {
      assert Holders(held[g := h], x) == Holders(held, x) + {g};
    } else {
      assert Holders(held[g := h], x) == Holders(held, x);
    }
  }

  /** A guard goes. */
  lemma HoldersDrop<G>(held: map<G, Hold>, g: G, x: FrameId)
    requires g in held
    ensures |Holders(held - {g}, x)| == |Holders(held, x)| - if x == held[g].frame then 1 else 0
    ensures x == held[g].frame ==> |Holders(held, x)| > 0
  {
    assert (held - {g})[g := held[g]] == held;
    HoldersAdd(held - {g}, g, held[g], x);
  }

  /** One guard takes the place of another. */
  lemma HoldersMove<G>(held: map<G, Hold>, g: G, h: G, x: FrameId)
    requires g in held && h !in held
    ensures |Holders((held - {g})[h := held[g]], x)| == |Holders(held, x)|
  {
    HoldersDrop(held, g, x);
    HoldersAdd(held - {g}, h, held[g], x);
  }

  // ---------- frames ----------

  /** The pins of a frame are its live guards; an evictable frame has none and holds a page. */
  ghost predicate SlotOk<G>(frames: seq<Frame>, held: map<G, Hold>, tr: Trace, free: seq<FrameId>, f: FrameId) {
    if f < |frames| then
      && |frames[f].data| == PAGE_SIZE
      && frames[f].pins == |Holders(held, f)|
      && (IsEvictable(tr, f) ==> frames[f].pins == 0 && f !in free)
    else !IsEvictable(tr, f)
  }

  ghost predicate SlotsOk<G>(frames: seq<Frame>, held: map<G, Hold>, tr: Trace, free: seq<FrameId>) {
    forall f {:trigger SlotOk(frames, held, tr, free, f)} :: SlotOk(frames, held, tr, free, f)
  }

  /** A mapped page is in its frame, and in storage too when the frame is clean; another page is
      in storage. */
  ghost predicate PageKept(frames: seq<Frame>, table: FrameTable, content: FlatMap, flat: FlatMap, k: PageKey) {
    && (k in content <==> k in flat)
    && (k in table ==>
          && k in content && table[k] < |frames|
          && frames[table[k]].data == content[k]
          && (!frames[table[k]].dirty ==> flat[k] == content[k]))
    && (k in content && k !in table ==> flat[k] == content[k])
  }

  /** The page is mapped to a clean frame. */
  ghost predicate CleanAt(frames: seq<Frame>, table: FrameTable, k: PageKey) {
    k in table && table[k] < |frames| && !frames[table[k]].dirty
  }

  /** The frame of page `k` holds the stored bytes of page `key` as well as its table entry. What was
      written to `k` is still in storage, unless the frame was dirty. */
  ghost predicate Overwritten(frames: seq<Frame>, table: FrameTable, content: FlatMap, flat: FlatMap, k: PageKey,
                              frames': seq<Frame>, table': FrameTable, key: PageKey, pins: nat) {
    && k in table && k != key && table[k] < |frames| && key in flat
    && table' == table[key := table[k]]
    && frames' == frames[table[k] := Frame(false, flat[key], pins)]
    && k in content && frames[table[k]].data == content[k]
    && k in flat && (flat[k] == content[k] || frames[table[k]].dirty)
  }

  /** The evictor's victim was overwritten. */
  ghost predicate VictimOverwritten(frames: seq<Frame>, table: FrameTable, content: FlatMap, flat: FlatMap, tr: Trace,
                                    lruK: nat, frames': seq<Frame>, table': FrameTable, key: PageKey, pins: nat)
    requires lruK > 0
  {
    exists k :: Overwritten(frames, table, content, flat, k, frames', table', key, pins) && IsVictim(tr, lruK, table[k])
  }

  /** Two pages are mapped to one frame. */
  ghost predicate Shared(table: FrameTable) {
    exists k, k' :: k in table && k' in table && k != k' && table[k] == table[k']
  }

  lemma OverwrittenShares(frames: seq<Frame>, table: FrameTable, content: FlatMap, flat: FlatMap, tr: Trace, lruK: nat,
                          frames': seq<Frame>, table': FrameTable, key: PageKey, pins: nat)
    requires lruK > 0 && VictimOverwritten(frames, table, content, flat, tr, lruK, frames', table', key, pins)
    ensures Shared(table')
  {
    var k :| Overwritten(frames, table, content, flat, k, frames', table', key, pins) && IsVictim(tr, lruK, table[k]);
    assert k in table' && key in table' && table'[k] == table'[key];
  }

  lemma OverwrittenPinned(frames: seq<Frame>, table: FrameTable, content: FlatMap, flat: FlatMap, tr: Trace, lruK: nat,
                          frames': seq<Frame>, table': FrameTable, key: PageKey, f: FrameId, frames'': seq<Frame>)
    requires lruK > 0 && VictimOverwritten(frames, table, content, flat, tr, lruK, frames', table', key, 0)
    requires f < |frames'| && key in table' && table'[key] == f
    requires frames'' == frames'[f := frames'[f].(pins := frames'[f].pins + 1)]
    ensures VictimOverwritten(frames, table, content, flat, tr, lruK, frames'', table', key, 1)
  {
    var k :| Overwritten(frames, table, content, flat, k, frames', table', key, 0) && IsVictim(tr, lruK, table[k]);
    assert Overwritten(frames, table, content, flat, k, frames'', table', key, 1);
  }

  ghost predicate PagesKept(frames: seq<Frame>, table: FrameTable, content: FlatMap, flat: FlatMap) {
    forall k {:trigger PageKept(frames, table, content, flat, k)} :: PageKept(frames, table, content, flat, k)
  }

  /** A live guard is on the frame of its page. */
  ghost predicate OnMapped<G>(held: map<G, Hold>, table: FrameTable) {
    forall g :: g in held ==> held[g].key in table && table[held[g].key] == held[g].frame
  }

  /** An access to a frame that is then marked as not evictable. */
  ghost function Touched(tr: Trace, f: FrameId): Trace {
    Snoc(Snoc(tr, Access(f)), Mark(f, false))
  }

  lemma TouchedEvictable(tr: Trace, f: FrameId, x: FrameId)
    ensures IsEvictable(Touched(tr, f), x) == (x != f && IsEvictable(tr, x))
  {
    if x == f {
      Affected(tr, Access(f));
      Affected(Snoc(tr, Access(f)), Mark(f, false));
    } else {
      Unaffected(tr, Access(f), x);
      Unaffected(Snoc(tr, Access(f)), Mark(f, false), x);
    }
  }

  /** The steps of the pool keep the slots. */
  lemma SlotsTouched<G>(frames: seq<Frame>, held: map<G, Hold>, tr: Trace, free: seq<FrameId>, f: FrameId)
    requires SlotsOk(frames, held, tr, free)
    ensures SlotsOk(frames, held, Touched(tr, f), free)
  {
    forall x
      ensures SlotOk(frames, held, Touched(tr, f), free, x)
    {
      assert SlotOk(frames, held, tr, free, x);
      TouchedEvictable(tr, f, x);
    }
  }

  lemma SlotsLoaded<G>(frames: seq<Frame>, held: map<G, Hold>, tr: Trace, table: FrameTable, free: seq<FrameId>,
                       data: Bytes)
    requires SlotsOk(frames, held, tr, free) && Partitioned(table, free, |frames|) && OnMapped(held, table)
    requires free != [] && |data| == PAGE_SIZE
    ensures free[0] < |frames|
            && SlotsOk(frames[free[0] := Frame(false, data, 0)], held, Touched(tr, free[0]), free[1..])
  {
    var f := free[0];
    assert FreeAt(table, free, |frames|, 0);
    assert Holders(held, f) == {};
    var frames', free' := frames[f := Frame(false, data, 0)], free[1..];
    forall x
      ensures SlotOk(frames', held, Touched(tr, f), free', x)
    {
      assert SlotOk(frames, held, tr, free, x);
      TouchedEvictable(tr, f, x);
    }
  }

  lemma SlotsPinned<G>(frames: seq<Frame>, held: map<G, Hold>, tr: Trace, free: seq<FrameId>, g: G, h: Hold)
    requires SlotsOk(frames, held, tr, free) && h.frame < |frames| && g !in held && !IsEvictable(tr, h.frame)
    ensures var f := h.frame;
            SlotsOk(frames[f := frames[f].(pins := frames[f].pins + 1)], held[g := h], Snoc(tr, Access(f)), free)
  {
    var f := h.frame;
    var frames' := frames[f := frames[f].(pins := frames[f].pins + 1)];
    var held' := held[g := h];
    forall x
      ensures SlotOk(frames', held', Snoc(tr, Access(f)), free, x)
    {
      assert SlotOk(frames, held, tr, free, x);
      HoldersAdd(held, g, h, x);
      if x == f { Affected(tr, Access(f)); } else { Unaffected(tr, Access(f), x); }
    }
  }

  /** Dropping a guard; the last one of a frame makes the frame evictable. */
  lemma SlotsUnpinned<G>(frames: seq<Frame>, held: map<G, Hold>, tr: Trace, table: FrameTable, free: seq<FrameId>, g: G)
    requires SlotsOk(frames, held, tr, free) && Partitioned(table, free, |frames|) && OnMapped(held, table)
    requires g in held && held[g].frame < |frames|
    ensures var f := held[g].frame;
            && frames[f].pins > 0
            && SlotsOk(frames[f := frames[f].(pins := frames[f].pins - 1)], held - {g},
                       if frames[f].pins == 1 then Snoc(tr, Mark(f, true)) else tr, free)
  {
    var f := held[g].frame;
    assert SlotOk(frames, held, tr, free, f);
    HoldersDrop(held, g, f);
    EveryFrame(table, free, |frames|, f);
    var frames' := frames[f := frames[f].(pins := frames[f].pins - 1)];
    var tr' := if frames[f].pins == 1 then Snoc(tr, Mark(f, true)) else tr;
    var held' := held - {g};
    forall x
      ensures SlotOk(frames', held', tr', free, x)
    {
      assert SlotOk(frames, held, tr, free, x);
      HoldersDrop(held, g, x);
      if x != f { Unaffected(tr, Mark(f, true), x); }
    }
  }

  lemma SlotsMoved<G>(frames: seq<Frame>, held: map<G, Hold>, tr: Trace, free: seq<FrameId>, g: G, h: G)
    requires SlotsOk(frames, held, tr, free) && g in held && h !in held
    ensures SlotsOk(frames, (held - {g})[h := held[g]], tr, free)
  {
    var held' := (held - {g})[h := held[g]];
    forall x
      ensures SlotOk(frames, held', tr, free, x)
    {
      assert SlotOk(frames, held, tr, free, x);
      HoldersMove(held, g, h, x);
    }
  }

  /** An unpinned frame is reset and taken out of the evictor. */
  lemma SlotsReset<G>(frames: seq<Frame>, held: map<G, Hold>, tr: Trace, free: seq<FrameId>, f: FrameId)
    requires SlotsOk(frames, held, tr, free) && f < |frames| && frames[f].pins == 0
    ensures SlotsOk(frames[f := Frame(false, Zeros(PAGE_SIZE), 0)], held, Snoc(tr, Gone(f)), free + [f])
  {
    var frames' := frames[f := Frame(false, Zeros(PAGE_SIZE), 0)];
    var free' := free + [f];
    forall x
      ensures SlotOk(frames', held, Snoc(tr, Gone(f)), free', x)
    {
      assert SlotOk(frames, held, tr, free, x);
      if x == f { Affected(tr, Gone(f)); } else { Unaffected(tr, Gone(f), x); }
    }
  }

  /** New data or a new dirty bit in a frame. */
  lemma SlotsWritten<G>(frames: seq<Frame>, held: map<G, Hold>, tr: Trace, free: seq<FrameId>, f: FrameId, dirty: bool,
                        data: Bytes)
    requires SlotsOk(frames, held, tr, free) && f < |frames| && |data| == PAGE_SIZE
    ensures SlotsOk(frames[f := frames[f].(dirty := dirty, data := data)], held, tr, free)
  {
    var frames' := frames[f := frames[f].(dirty := dirty, data := data)];
    forall x
      ensures SlotOk(frames', held, tr, free, x)
    {
      assert SlotOk(frames, held, tr, free, x);
    }
  }

  // ---------- the steps of the pool keep the pages ----------

  lemma PagesLoaded(frames: seq<Frame>, table: FrameTable, free: seq<FrameId>, content: FlatMap, flat: FlatMap,
                    k: PageKey)
    requires PagesKept(frames, table, content, flat) && Partitioned(table, free, |frames|)
    requires free != [] && k in flat && k !in table
    ensures free[0] < |frames|
            && PagesKept(frames[free[0] := Frame(false, flat[k], 0)], table[k := free[0]], content, flat)
  {
    var f := free[0];
    assert FreeAt(table, free, |frames|, 0);
    var frames', table' := frames[f := Frame(false, flat[k], 0)], table[k := f];
    forall x
      ensures PageKept(frames', table', content, flat, x)
    {
      assert PageKept(frames, table, content, flat, x);
    }
  }

  /** Pins do not matter to the pages. */
  lemma PagesPinned(frames: seq<Frame>, frames': seq<Frame>, table: FrameTable, content: FlatMap, flat: FlatMap)
    requires PagesKept(frames, table, content, flat) && |frames'| == |frames|
    requires forall f :: 0 <= f < |frames| ==> frames'[f].data == frames[f].data && frames'[f].dirty == frames[f].dirty
    ensures PagesKept(frames', table, content, flat)
  {
    forall x
      ensures PageKept(frames', table, content, flat, x)
    {
      assert PageKept(frames, table, content, flat, x);
    }
  }

  lemma PagesUnmapped(frames: seq<Frame>, table: FrameTable, free: seq<FrameId>, content: FlatMap, flat: FlatMap,
                      k: PageKey)
    requires PagesKept(frames, table, content, flat) && Partitioned(table, free, |frames|) && k in table
    ensures k in content && k in flat && table[k] < |frames|
    ensures PagesKept(frames[table[k] := Frame(false, Zeros(PAGE_SIZE), 0)], table - {k}, content[k := flat[k]], flat)
    ensures !frames[table[k]].dirty ==> content[k := flat[k]] == content
  {
    assert PageKept(frames, table, content, flat, k) && MappedAt(table, |frames|, k);
    var frames' := frames[table[k] := Frame(false, Zeros(PAGE_SIZE), 0)];
    var table', content' := table - {k}, content[k := flat[k]];
    forall x
      ensures PageKept(frames', table', content', flat, x)
    {
      assert PageKept(frames, table, content, flat, x);
    }
  }

  lemma PagesWritten(frames: seq<Frame>, table: FrameTable, n: nat, content: FlatMap, flat: FlatMap, k: PageKey,
                     data: Bytes)
    requires PagesKept(frames, table, content, flat) && n == |frames| && MappedAt(table, n, k) && k in table
    ensures PagesKept(frames[table[k] := frames[table[k]].(dirty := true, data := data)], table, content[k := data],
            flat)
  {
    var frames' := frames[table[k] := frames[table[k]].(dirty := true, data := data)];
    var content' := content[k := data];
    forall x
      ensures PageKept(frames', table, content', flat, x)
    {
      assert PageKept(frames, table, content, flat, x) && PageKept(frames, table, content, flat, k);
    }
  }

  lemma PagesFlushed(frames: seq<Frame>, table: FrameTable, n: nat, content: FlatMap, flat: FlatMap, k: PageKey)
    requires PagesKept(frames, table, content, flat) && n == |frames| && MappedAt(table, n, k) && k in table
    ensures k in content && k in flat
    ensures PagesKept(frames[table[k] := frames[table[k]].(dirty := false)], table, content, flat[k := content[k]])
  {
    assert PageKept(frames, table, content, flat, k);
    var frames' := frames[table[k] := frames[table[k]].(dirty := false)];
    var flat' := flat[k := content[k]];
    forall x
      ensures PageKept(frames', table, content, flat', x)
    {
      assert PageKept(frames, table, content, flat, x);
    }
  }

  // ---------- all of it ----------

  ghost predicate StateOk<G>(frames: seq<Frame>, table: FrameTable, free: seq<FrameId>, held: map<G, Hold>, tr: Trace,
                             content: FlatMap, flat: FlatMap)
  {
    && Partitioned(table, free, |frames|)
    && SlotsOk(frames, held, tr, free)
    && PagesKept(frames, table, content, flat)
    && OnMapped(held, table)
    && AllKnown(table, tr)
  }

  /** The evictor knows every mapped frame. */
  ghost predicate AllKnown(table: FrameTable, tr: Trace) {
    forall k :: k in table ==> Accesses(tr, table[k]) != []
  }

  /** An event keeps the frames known, unless it takes one out. */
  lemma KnownAfter(table: FrameTable, tr: Trace, e: Event)
    requires !e.Gone? && forall k :: k in table && table[k] != e.f ==> Accesses(tr, table[k]) != []
    requires e.Mark? ==> forall k :: k in table ==> Accesses(tr, table[k]) != []
    ensures AllKnown(table, Snoc(tr, e))
  {
    Affected(tr, e);
    forall k | k in table
      ensures Accesses(Snoc(tr, e), table[k]) != []
    {
      if table[k] != e.f { Unaffected(tr, e, table[k]); }
    }
  }

  lemma KnownTouched(table: FrameTable, tr: Trace, f: FrameId)
    requires forall k :: k in table && table[k] != f ==> Accesses(tr, table[k]) != []
    ensures AllKnown(table, Touched(tr, f))
  {
    KnownAfter(table, tr, Access(f));
    KnownAfter(table, Snoc(tr, Access(f)), Mark(f, false));
  }

  lemma KnownWithout(table: FrameTable, n: nat, tr: Trace, k: PageKey)
    requires AllKnown(table, tr) && k in table && MappedAt(table, n, k)
    ensures AllKnown(table - {k}, Snoc(tr, Gone(table[k])))
  {
    forall x | x in table && x != k
      ensures Accesses(Snoc(tr, Gone(table[k])), table[x]) != []
    {
      Unaffected(tr, Gone(table[k]), table[x]);
    }
  }

  lemma StateLoaded<G>(frames: seq<Frame>, table: FrameTable, free: seq<FrameId>, held: map<G, Hold>, tr: Trace,
                       content: FlatMap, flat: FlatMap, k: PageKey)
    requires StateOk(frames, table, free, held, tr, content, flat)
    requires free != [] && k in flat && k !in table && |flat[k]| == PAGE_SIZE
    ensures var f := free[0];
            && f < |frames|
            && StateOk(frames[f := Frame(false, flat[k], 0)], table[k := f], free[1..], held, Touched(tr, f), content,
               flat)
  {
    MapFrame(table, free, |frames|, k);
    SlotsLoaded(frames, held, tr, table, free, flat[k]);
    PagesLoaded(frames, table, free, content, flat, k);
    KnownTouched(table[k := free[0]], tr, free[0]);
  }

  lemma StatePinned<G>(frames: seq<Frame>, table: FrameTable, free: seq<FrameId>, held: map<G, Hold>, tr: Trace,
                       content: FlatMap, flat: FlatMap, g: G, f: FrameId, k: PageKey)
    requires StateOk(frames, table, free, held, tr, content, flat)
    requires f < |frames| && k in table && table[k] == f && g !in held && !IsEvictable(tr, f)
    ensures StateOk(frames[f := frames[f].(pins := frames[f].pins + 1)], table, free, held[g := Hold(f, k)],
            Snoc(tr, Access(f)), content, flat)
  {
    SlotsPinned(frames, held, tr, free, g, Hold(f, k));
    KnownAfter(table, tr, Access(f));
    PagesPinned(frames, frames[f := frames[f].(pins := frames[f].pins + 1)], table, content, flat);
  }

  /** Storage grew by a page. */
  lemma StateGrown<G>(frames: seq<Frame>, table: FrameTable, free: seq<FrameId>, held: map<G, Hold>, tr: Trace,
                      content: FlatMap, flat: FlatMap, k: PageKey)
    requires StateOk(frames, table, free, held, tr, content, flat) && k !in flat
    ensures k !in table && k !in content
    ensures StateOk(frames, table, free, held, tr, content[k := Zeros(PAGE_SIZE)], flat[k := Zeros(PAGE_SIZE)])
  {
    assert PageKept(frames, table, content, flat, k);
    var content', flat' := content[k := Zeros(PAGE_SIZE)], flat[k := Zeros(PAGE_SIZE)];
    forall x
      ensures PageKept(frames, table, content', flat', x)
    {
      assert PageKept(frames, table, content, flat, x);
    }
  }

  lemma StateUnmapped<G>(frames: seq<Frame>, table: FrameTable, free: seq<FrameId>, held: map<G, Hold>, tr: Trace,
                         content: FlatMap, flat: FlatMap, k: PageKey)
    requires StateOk(frames, table, free, held, tr, content, flat)
    requires k in table && table[k] < |frames| && frames[table[k]].pins == 0
    ensures k in content && k in flat
    ensures var f := table[k];
            StateOk(frames[f := Frame(false, Zeros(PAGE_SIZE), 0)], table - {k}, free + [f], held, Snoc(tr, Gone(f)),
              content[k := flat[k]], flat)
    ensures !frames[table[k]].dirty ==> content[k := flat[k]] == content
  {
    assert MappedAt(table, |frames|, k);
    UnmapFrame(table, free, |frames|, k);
    KnownWithout(table, |frames|, tr, k);
    assert SlotOk(frames, held, tr, free, table[k]);
    assert Holders(held, table[k]) == {};
    assert forall g :: g in held ==> g !in Holders(held, table[k]);
    SlotsReset(frames, held, tr, free, table[k]);
    PagesUnmapped(frames, table, free, content, flat, k);
  }

  lemma StateFlushed<G>(frames: seq<Frame>, table: FrameTable, free: seq<FrameId>, held: map<G, Hold>, tr: Trace,
                        content: FlatMap, flat: FlatMap, k: PageKey)
    requires StateOk(frames, table, free, held, tr, content, flat) && k in table && table[k] < |frames|
    ensures k in content
    ensures StateOk(frames[table[k] := frames[table[k]].(dirty := false)], table, free, held, tr, content,
            flat[k := content[k]])
  {
    var f := table[k];
    assert MappedAt(table, |frames|, k) && SlotOk(frames, held, tr, free, f);
    SlotsWritten(frames, held, tr, free, f, false, frames[f].data);
    PagesFlushed(frames, table, |frames|, content, flat, k);
  }

  lemma StateWritten<G>(frames: seq<Frame>, table: FrameTable, free: seq<FrameId>, held: map<G, Hold>, tr: Trace,
                        content: FlatMap, flat: FlatMap, k: PageKey, data: Bytes)
    requires StateOk(frames, table, free, held, tr, content, flat) && k in table && table[k] < |frames|
             && |data| == PAGE_SIZE
    ensures StateOk(frames[table[k] := frames[table[k]].(dirty := true, data := data)], table, free, held, tr,
            content[k := data], flat)
  {
    assert MappedAt(table, |frames|, k);
    SlotsWritten(frames, held, tr, free, table[k], true, data);
    PagesWritten(frames, table, |frames|, content, flat, k, data);
  }

  lemma StateUnpinned<G>(frames: seq<Frame>, table: FrameTable, free: seq<FrameId>, held: map<G, Hold>, tr: Trace,
                         content: FlatMap, flat: FlatMap, g: G)
    requires StateOk(frames, table, free, held, tr, content, flat) && g in held
    ensures var f := held[g].frame;
            && f < |frames| && frames[f].pins > 0
            && StateOk(frames[f := frames[f].(pins := frames[f].pins - 1)], table, free, held - {g},
                       if frames[f].pins == 1 then Snoc(tr, Mark(f, true)) else tr, content, flat)
            && (frames[f].pins == 1 ==> IsEvictable(Snoc(tr, Mark(f, true)), f))
  {
    Affected(tr, Mark(held[g].frame, true));
    assert MappedAt(table, |frames|, held[g].key);
    KnownAfter(table, tr, Mark(held[g].frame, true));
    SlotsUnpinned(frames, held, tr, table, free, g);
    PagesPinned(frames, frames[held[g].frame := frames[held[g].frame].(pins := frames[held[g].frame].pins - 1)], table,
      content, flat);
  }

  lemma StateMoved<G>(frames: seq<Frame>, table: FrameTable, free: seq<FrameId>, held: map<G, Hold>, tr: Trace,
                      content: FlatMap, flat: FlatMap, g: G, h: G)
    requires StateOk(frames, table, free, held, tr, content, flat) && g in held && h !in held
    ensures StateOk(frames, table, free, (held - {g})[h := held[g]], tr, content, flat)
  {
    SlotsMoved(frames, held, tr, free, g, h);
  }

  lemma StateTouched<G>(frames: seq<Frame>, table: FrameTable, free: seq<FrameId>, held: map<G, Hold>, tr: Trace,
                        content: FlatMap, flat: FlatMap, f: FrameId)
    requires StateOk(frames, table, free, held, tr, content, flat)
    ensures StateOk(frames, table, free, held, Touched(tr, f), content, flat)
  {
    SlotsTouched(frames, held, tr, free, f);
    KnownTouched(table, tr, f);
  }

  /** What a valid state says of frames: free or holding one page, pinned by its live guards, and
      evictable only without any. */
  lemma StateMeans<G>(frames: seq<Frame>, table: FrameTable, free: seq<FrameId>, held: map<G, Hold>, tr: Trace,
                      content: FlatMap, flat: FlatMap, f: FrameId)
    requires StateOk(frames, table, free, held, tr, content, flat) && f < |frames|
    ensures f in free <==> !exists k :: k in table && table[k] == f
    ensures forall k, k' :: k in table && k' in table && table[k] == f == table[k'] ==> k == k'
    ensures frames[f].pins == |Holders(held, f)|
    ensures IsEvictable(tr, f) ==> frames[f].pins == 0 && f !in free
    ensures forall k :: k in table && table[k] == f ==> k in content && k in flat && frames[f].data == content[k]
                                                         && (!frames[f].dirty ==> flat[k] == content[k])
  {
    assert SlotOk(frames, held, tr, free, f);
    EveryFrame(table, free, |frames|, f);
    forall k, k' | k in table && k' in table && table[k] == f == table[k']
      ensures k == k'
    {
      assert MappedAt(table, |frames|, k);
    }
    forall k | k in table && table[k] == f
      ensures k in content && k in flat && frames[f].data == content[k] && (!frames[f].dirty ==> flat[k] == content[k])
    {
      assert PageKept(frames, table, content, flat, k);
    }
  }
}
