/**
 The buffer pool and its page guards (lib/pager/bufferpool/bufferpool.cpp,
 lib/pager/bufferpool/frameheader.cpp, lib/pager/bufferpool/pageguard.cpp). Each method is one
 step taken under the pool latch; any interleaving of threads is a sequence of such steps.

 The ghost field `content` holds the bytes last written to every page.
 */
module BufferPoolModel {
  import opened Pages
  import opened Encoding
  import opened FileCacheModel
  import opened StorageModel
  import opened EvictorModel
  import opened PoolState

  const EVICTOR_K: nat := 2

  datatype FetchResult = Fetched | NoFrame | StorageFailed

  datatype NewPageResult = Allocated(key: PageKey) | NoFrameLeft | SizeAssertFailed | NoSuchTable

  /** A read or write guard. One that was moved from has no frame. */
  class PageGuard {
    const pool: BufferPool
    const writable: bool
    var key: PageKey
    var frame: Option<FrameId>
    var valid: bool

    constructor (pool: BufferPool, key: PageKey, frame: Option<FrameId>, writable: bool, valid: bool)
      ensures this.pool == pool && this.key == key && this.frame == frame && this.writable == writable
              && this.valid == valid
    {
      this.pool, this.key, this.frame, this.writable, this.valid := pool, key, frame, writable, valid;
    }

    /** The bytes of the page: those written last. */
    method GetData() returns (data: Bytes)
      requires pool.Valid() && this in pool.held
      ensures key in pool.content && data == pool.content[key]
    {
      assert pool.GuardFits(this, pool.held[this])
             && PageKept(pool.frames, pool.frameTable, pool.content, pool.engine.flat, key);
      return pool.frames[frame.value].data;
    }

    /** A page that is not dirty is in storage. */
    method IsDirty() returns (dirty: bool)
      requires pool.Valid() && this in pool.held
      ensures dirty <==> !CleanAt(pool.frames, pool.frameTable, key)
      ensures !dirty ==>
                key in pool.content && key in pool.engine.flat && pool.engine.flat[key] == pool.content[key]
    {
      assert pool.GuardFits(this, pool.held[this])
             && PageKept(pool.frames, pool.frameTable, pool.content, pool.engine.flat, key);
      return pool.frames[frame.value].dirty;
    }

    /** Writes new bytes through `get_data_mut`. */
    method SetData(data: Bytes)
      requires pool.Valid() && this in pool.held && writable && |data| == PAGE_SIZE
      modifies pool`frames, pool`content
      ensures pool.Valid() && pool.content == old(pool.content)[key := data]
    {
      assert pool.GuardFits(this, pool.held[this]) && MappedAt(pool.frameTable, pool.numFrames, key);
      ghost var frames0, content0 := pool.frames, pool.content;
      var f := frame.value;
      pool.frames := pool.frames[f := pool.frames[f].(dirty := true)];
      pool.frames := pool.frames[f := pool.frames[f].(data := data)];
      pool.content := pool.content[key := data];
      StateWritten(frames0, pool.frameTable, pool.freeList, pool.held, pool.evictor.trace, content0, pool.engine.flat,
        key, data);
      assert pool.frames == frames0[f := frames0[f].(dirty := true, data := data)];
      assert StateOk(pool.frames, pool.frameTable, pool.freeList, pool.held, pool.evictor.trace, pool.content,
             pool.engine.flat);
    }

    method Flush()
      requires pool.Valid() && this in pool.held
      modifies pool`frames, pool.engine`files, pool.engine`flat, pool.engine.cache, pool.engine.cache.order
      ensures pool.Valid()
      ensures key in pool.content && pool.engine.flat == old(pool.engine.flat)[key := pool.content[key]]
    {
      assert pool.GuardFits(this, pool.held[this]) && MappedAt(pool.frameTable, pool.numFrames, key);
      pool.FlushFrame(key, frame.value);
    }

    /** Gives the pin back; a second call does nothing. The last guard of a page leaves the frame to
        the evictor. */
    method Drop()
      requires pool.Valid() && frame != None && (valid ==> this in pool.held)
      modifies this`valid, pool`frames, pool`held, pool.evictor
      ensures pool.Valid() && !valid && pool.held == old(pool.held) - {this}
      ensures old(valid) && (forall g :: g in pool.held ==> pool.held[g].key != key) ==>
                IsEvictable(pool.evictor.trace, frame.value)
    {
      ghost var held: map<PageGuard, Hold> := pool.held;
      assert forall g :: g in held ==> pool.GuardFits(g, held[g]);
      if !valid {
        return;
      }
      valid := false;
      pool.Unpin(this, frame.value);
      assert forall g :: g in pool.held ==> old(pool.GuardFits(g, held[g]));
      pool.PinsOfPage(key);
    }

    /** Move construction: a new guard takes the place of this one. */
    method MoveOut() returns (g: PageGuard)
      requires pool.Valid() && (valid ==> this in pool.held)
      modifies this`valid, this`frame, pool`held
      ensures pool.Valid() && fresh(g) && !valid && frame == None
      ensures g.pool == pool && g.key == key && g.valid == old(valid) && g.frame == old(frame) && g.writable == writable
      ensures pool.held == if old(valid) then (old(pool.held) - {this})[g := old(pool.held)[this]] else old(pool.held)
    {
      g := new PageGuard(pool, key, frame, writable, valid);
      TakeOver(g);
    }

    /** Another guard, which is not live, takes the place of this one. */
    method TakeOver(g: PageGuard)
      requires pool.Valid() && (valid ==> this in pool.held) && g !in pool.held && g.pool == pool && g != this
      modifies this`valid, this`frame, g`key, g`frame, g`valid, pool`held
      ensures pool.Valid() && !valid && frame == None
      ensures g.key == key && g.valid == old(valid) && g.frame == old(frame)
      ensures pool.held == if old(valid) then (old(pool.held) - {this})[g := old(pool.held)[this]] else old(pool.held)
    {
      assert forall x :: x in pool.held ==> pool.GuardFits(x, pool.held[x]);
      if valid {
        pool.Handover(this, g);
      }
      HandFields(g);
    }

    /** The fields of a guard go to another, which is live in its place. */
    method HandFields(g: PageGuard)
      requires pool.PartsValid() && g != this && this !in pool.held
      requires valid ==> g in pool.held && pool.GuardFits(this, pool.held[g])
      requires !valid ==> g !in pool.held
      requires g.pool == pool && forall x :: x in pool.held && x != g ==> pool.GuardFits(x, pool.held[x])
      modifies this`valid, this`frame, g`key, g`frame, g`valid
      ensures pool.PartsValid() && pool.GuardsOk() && !valid && frame == None
      ensures g.key == key && g.valid == old(valid) && g.frame == old(frame)
    {
      g.key, g.frame, g.valid := key, frame, valid;
      valid, frame := false, None;
    }

    /** Move assignment: this guard drops its page and takes the other's. */
    method MoveFrom(that: PageGuard)
      requires pool.Valid() && that.pool == pool && that.writable == writable
      requires (valid ==> this in pool.held && frame != None) && (that.valid ==> that in pool.held)
      modifies this, that, pool`frames, pool`held, pool.evictor
      ensures pool.Valid()
      ensures that == this ==> pool.held == old(pool.held) && valid == old(valid)
      ensures that != this ==>
              key == old(that.key) && valid == old(that.valid) && frame == old(that.frame) && !that.valid
      ensures that != this && !old(that.valid) ==> pool.held == old(pool.held) - {this}
      ensures that != this && old(that.valid) ==>
              pool.held == (old(pool.held) - {this} - {that})[this := old(pool.held)[that]]
    {
      if this != that {
        assert (this in pool.held ==> pool.GuardFits(this, pool.held[this]))
               && (that in pool.held ==> pool.GuardFits(that, pool.held[that]));
        if valid {
          Drop();
        }
        that.TakeOver(this);
      }
    }
  }

  class BufferPool {
    const numFrames: nat
    const engine: StorageEngine
    const evictor: LRUKEvictor
    /** Whether the program's assertions are compiled in. */
    const asserts: bool
    var frames: seq<Frame>
    var frameTable: FrameTable
    var freeList: seq<FrameId>
    /** The live guards. */
    ghost var held: map<PageGuard, Hold>
    ghost var content: FlatMap

    ghost predicate PartsValid()
      reads this, engine, engine.cache, engine.cache.order, evictor
    {
      engine.Valid() && engine.pageSize == PAGE_SIZE && evictor.Valid() && |frames| == numFrames
    }

    /** A live guard knows its page and frame. */
    ghost predicate GuardFits(g: PageGuard, h: Hold)
      reads g
    {
      g.valid && g.pool == this && g.frame == Some(h.frame) && g.key == h.key
    }

    ghost predicate GuardsOk()
      reads this`held, held.Keys
    {
      forall g {:trigger GuardFits(g, held[g])} :: g in held ==> GuardFits(g, held[g])
    }

    ghost predicate Valid()
      reads this, engine, engine.cache, engine.cache.order, evictor, held.Keys
    {
      && PartsValid()
      && StateOk(frames, frameTable, freeList, held, evictor.trace, content, engine.flat)
      && GuardsOk()
    }

    constructor (numFrames: nat, engine: StorageEngine, asserts: bool)
      requires engine.Valid() && engine.pageSize == PAGE_SIZE
      ensures Valid() && this.engine == engine && this.numFrames == numFrames && this.asserts == asserts
      ensures content == engine.flat && held == map[] && frameTable == map[]
      ensures fresh(evictor)
    {
      this.numFrames, this.engine, this.asserts := numFrames, engine, asserts;
      frames := seq(numFrames, _ => Frame(false, Zeros(PAGE_SIZE), 0));
      freeList := seq(numFrames, i => i);
      frameTable, held, content := map[], map[], engine.flat;
      evictor := new LRUKEvictor(EVICTOR_K);
    }

    /** The number of mapped pages; the program asserts that every other frame is free. */
    method Size() returns (n: nat)
      requires Valid()
      ensures n == |frameTable| == numFrames - |freeList|
    {
      assert |freeList| + |frameTable| == numFrames;
      return |frameTable|;
    }

    // ---------- steps inside the latch ----------

    /** The next fetch of a page that is not mapped takes a frame from the evictor. */
    ghost predicate NeedsVictim()
      reads this`freeList, evictor
    {
      freeList == [] && !NoneEvictable(evictor.trace)
    }

    /** Makes sure that there is a free frame. A frame that comes from the evictor stays in the
        frame table. */
    method EnsureFreeFrame() returns (ok: bool)
      requires Valid()
      modifies this`freeList, evictor
      ensures evictor.Valid()
      ensures ok <==> old(freeList) != [] || old(NeedsVictim())
      ensures !old(NeedsVictim()) ==> freeList == old(freeList) && evictor.trace == old(evictor.trace)
      ensures old(NeedsVictim()) ==>
                && |freeList| == 1 && IsVictim(old(evictor.trace), evictor.k, freeList[0])
                && evictor.trace == Snoc(old(evictor.trace), Gone(freeList[0]))
                && freeList[0] < numFrames && exists k :: k in frameTable && frameTable[k] == freeList[0]
    {
      if freeList != [] {
        return true;
      }
      var evicted := evictor.Evict();
      if evicted == None {
        return false;
      }
      var f := evicted.value;
      assert SlotOk(frames, held, old(evictor.trace), freeList, f);
      EveryFrame(frameTable, freeList, numFrames, f);
      ghost var k :| k in frameTable && frameTable[k] == f;
      freeList := freeList + [f];
      assert freeList[0] == frameTable[k];
      return true;
    }

    /** Loads a page into the first free frame. */
    method InsertFrame(key: PageKey) returns (ok: bool, f: FrameId)
      requires PartsValid() && freeList != [] && freeList[0] < numFrames
      modifies this`frames, this`frameTable, this`freeList, evictor, engine`files, engine.cache, engine.cache.order
      ensures PartsValid()
      ensures ok <==> key in engine.flat
      ensures !ok ==>
                frames == old(frames) && frameTable == old(frameTable) && freeList == old(freeList)
                && evictor.trace == old(evictor.trace)
      ensures ok ==>
                && f == old(freeList)[0] && freeList == old(freeList)[1..] && frameTable == old(frameTable)[key := f]
                && |engine.flat[key]| == PAGE_SIZE && frames == old(frames)[f := Frame(false, engine.flat[key], 0)]
                && evictor.trace == Touched(old(evictor.trace), f)
      ensures forall i :: 0 <= i < |engine.cache.order| ==>
                engine.cache.order[i] in old(engine.cache.order) || fresh(engine.cache.order[i])
    {
      f := freeList[0];
      var data;
      ok, data := ReadStored(key);
      if !ok {
        return;
      }
      freeList := freeList[1..];
      frames := frames[f := Frame(false, Zeros(PAGE_SIZE), 0)];
      frames := frames[f := frames[f].(data := data)];
      frameTable := frameTable[key := f];
      Touch(f);
      return true, f;
    }

    method ReadStored(key: PageKey) returns (ok: bool, data: Bytes)
      requires engine.Valid() && engine.pageSize == PAGE_SIZE
      modifies engine`files, engine.cache, engine.cache.order
      ensures engine.Valid()
      ensures ok <==> key in engine.flat
      ensures ok ==> |data| == PAGE_SIZE && data == engine.flat[key]
      ensures forall i :: 0 <= i < |engine.cache.order| ==>
                engine.cache.order[i] in old(engine.cache.order) || fresh(engine.cache.order[i])
    {
      var r, buffer := engine.ReadPage(key, []);
      return r == Ok, if |buffer| < PAGE_SIZE then buffer else buffer[..PAGE_SIZE];
    }

    /** Records an access and takes the frame out of the evictor's reach. */
    method Touch(f: FrameId)
      requires evictor.Valid()
      modifies evictor
      ensures evictor.Valid() && evictor.trace == Touched(old(evictor.trace), f)
    {
      evictor.RecordAccess(f);
      evictor.SetEvictable(f, false);
    }

    /** Brings a page that is not mapped into a frame. */
    method Load(key: PageKey) returns (r: FetchResult, f: FrameId)
      requires Valid() && key !in frameTable
      modifies this`frames, this`frameTable, this`freeList, evictor, engine`files, engine.cache, engine.cache.order
      ensures PartsValid()
      ensures r == NoFrame <==> old(freeList) == [] && !old(NeedsVictim())
      ensures r == Fetched ==>
                key in engine.flat && f < numFrames && frameTable == old(frameTable)[key := f]
                && !IsEvictable(evictor.trace, f)
      ensures r == StorageFailed ==> key !in engine.flat
      ensures r != Fetched ==> frameTable == old(frameTable)
      ensures !old(NeedsVictim()) ==> Valid()
      ensures old(NeedsVictim()) ==> !Partitioned(frameTable, freeList, numFrames)
      ensures old(NeedsVictim()) && r == Fetched ==>
                VictimOverwritten(old(frames), old(frameTable), content, engine.flat, old(evictor.trace), evictor.k,
                  frames, frameTable, key, 0)
      ensures forall i :: 0 <= i < |engine.cache.order| ==>
                engine.cache.order[i] in old(engine.cache.order) || fresh(engine.cache.order[i])
    {
      f := 0;
      ghost var branch, tr, table, frames0 := NeedsVictim(), evictor.trace, frameTable, frames;
      var ok := EnsureFreeFrame();
      if !ok {
        return NoFrame, f;
      }
      ghost var shared: PageKey;
      if branch {
        shared :| shared in frameTable && frameTable[shared] == freeList[0];
        assert PageKept(frames0, table, content, engine.flat, shared);
      } else {
        assert Valid() && FreeAt(table, freeList, numFrames, 0);
      }
      ok, f := InsertPage(key);
      if !ok {
        return StorageFailed, f;
      }
      if branch {
        assert frameTable[shared] == frameTable[key] && shared != key;
        assert Overwritten(frames0, table, content, engine.flat, shared, frames, frameTable, key, 0);
      }
      return Fetched, f;
    }

    /** `insert_frame`: in a valid pool it keeps the pool valid. */
    method InsertPage(key: PageKey) returns (ok: bool, f: FrameId)
      requires PartsValid() && freeList != [] && freeList[0] < numFrames && key !in frameTable
      modifies this`frames, this`frameTable, this`freeList, evictor, engine`files, engine.cache, engine.cache.order
      ensures PartsValid()
      ensures ok <==> key in engine.flat
      ensures !ok ==> frameTable == old(frameTable) && freeList == old(freeList)
      ensures ok ==> f == old(freeList)[0] && frameTable == old(frameTable)[key := f] && freeList == old(freeList)[1..]
                     && !IsEvictable(evictor.trace, f)
      ensures ok ==> frames == old(frames)[f := Frame(false, engine.flat[key], 0)]
      ensures old(Valid()) ==> Valid()
      ensures forall i :: 0 <= i < |engine.cache.order| ==>
                engine.cache.order[i] in old(engine.cache.order) || fresh(engine.cache.order[i])
    {
      ghost var valid := Valid();
      ghost var frames0, tr, table, free := frames, evictor.trace, frameTable, freeList;
      ok, f := InsertFrame(key);
      if ok {
        TouchedEvictable(tr, f, f);
        if valid {
          StateLoaded(frames0, table, free, held, tr, content, engine.flat, key);
          assert StateOk(frames, frameTable, freeList, held, evictor.trace, content, engine.flat);
        }
      }
    }

    /** The constructor of a guard: one pin more, one access more. */
    method Pin(key: PageKey, f: FrameId, writable: bool) returns (g: PageGuard)
      requires evictor.Valid() && f < |frames|
      modifies this`frames, this`held, evictor
      ensures evictor.Valid() && fresh(g) && g !in old(held)
      ensures g.pool == this && g.key == key && g.frame == Some(f) && g.valid && g.writable == writable
      ensures frames == old(frames)[f := old(frames)[f].(pins := old(frames)[f].pins + 1)]
      ensures held == old(held)[g := Hold(f, key)] && evictor.trace == Snoc(old(evictor.trace), Access(f))
    {
      g := new PageGuard(this, key, Some(f), writable, true);
      frames := frames[f := frames[f].(pins := frames[f].pins + 1)];
      evictor.RecordAccess(f);
      held := held[g := Hold(f, key)];
    }

    /** The steps of `drop` under the latch. */
    method Unpin(g: PageGuard, f: FrameId)
      requires PartsValid() && StateOk(frames, frameTable, freeList, held, evictor.trace, content, engine.flat)
      requires g in held && held[g].frame == f
      modifies this`frames, this`held, evictor
      ensures PartsValid() && StateOk(frames, frameTable, freeList, held, evictor.trace, content, engine.flat)
      ensures held == old(held) - {g}
      ensures f < |frames| && (frames[f].pins == 0 ==> IsEvictable(evictor.trace, f))
    {
      ghost var frames0, held0, tr := frames, held, evictor.trace;
      StateUnpinned(frames0, frameTable, freeList, held0, tr, content, engine.flat, g);
      var pins := frames[f].pins;
      frames := frames[f := frames[f].(pins := pins - 1)];
      if pins == 1 {
        evictor.SetEvictable(f, true);
      }
      held := held - {g};
      assert StateOk(frames, frameTable, freeList, held, evictor.trace, content, engine.flat);
    }

    ghost method Handover(g: PageGuard, h: PageGuard)
      requires PartsValid() && StateOk(frames, frameTable, freeList, held, evictor.trace, content, engine.flat)
      requires g in held && h !in held
      modifies this`held
      ensures PartsValid() && StateOk(frames, frameTable, freeList, held, evictor.trace, content, engine.flat)
      ensures held == (old(held) - {g})[h := old(held)[g]]
    {
      StateMoved(frames, frameTable, freeList, held, evictor.trace, content, engine.flat, g, h);
      held := (held - {g})[h := held[g]];
    }

    // ---------- operations ----------

    /** `read_page` and `write_page`: a guard on the page, which is loaded when it is not mapped.
        Without a free or evictable frame the guard is not a valid one. */
    method FetchPage(key: PageKey, writable: bool) returns (r: FetchResult, g: PageGuard)
      requires Valid()
      modifies this`frames, this`frameTable, this`freeList, this`held, evictor, engine`files, engine.cache,
               engine.cache.order
      ensures fresh(g) && (g.valid <==> r == Fetched) && g.pool == this && g.key == key && g.writable == writable
      ensures r == NoFrame <==> key !in old(frameTable) && old(freeList) == [] && !old(NeedsVictim())
      ensures r == StorageFailed ==> key !in engine.flat
      ensures r == Fetched ==> key in frameTable && held == old(held)[g := Hold(frameTable[key], key)]
      ensures r != Fetched ==> held == old(held)
      ensures key in old(frameTable) || !old(NeedsVictim()) ==> Valid()
      ensures key !in old(frameTable) && old(NeedsVictim()) ==>
                !Partitioned(frameTable, freeList, numFrames) && (r == Fetched ==> Shared(frameTable))
      ensures key !in old(frameTable) && old(NeedsVictim()) && r == Fetched ==>
                VictimOverwritten(old(frames), old(frameTable), content, engine.flat, old(evictor.trace), evictor.k,
                  frames, frameTable, key, 1)
      ensures forall i :: 0 <= i < |engine.cache.order| ==>
                engine.cache.order[i] in old(engine.cache.order) || fresh(engine.cache.order[i])
    {
      if key in frameTable {
        var f := frameTable[key];
        assert MappedAt(frameTable, numFrames, key);
        TouchMapped(f);
        r := Fetched;
        g := PinFetched(key, f, writable);
      } else {
        ghost var taken, frames0, table, tr := NeedsVictim(), frames, frameTable, evictor.trace;
        r, g := FetchUnmapped(key, writable);
        if taken && r == Fetched {
          OverwrittenShares(frames0, table, content, engine.flat, tr, evictor.k, frames, frameTable, key, 1);
        }
      }
    }

    method FetchUnmapped(key: PageKey, writable: bool) returns (r: FetchResult, g: PageGuard)
      requires Valid() && key !in frameTable
      modifies this`frames, this`frameTable, this`freeList, this`held, evictor, engine`files, engine.cache,
               engine.cache.order
      ensures fresh(g) && (g.valid <==> r == Fetched) && g.pool == this && g.key == key && g.writable == writable
      ensures r == NoFrame <==> old(freeList) == [] && !old(NeedsVictim())
      ensures r == StorageFailed ==> key !in engine.flat
      ensures r == Fetched ==> key in frameTable && held == old(held)[g := Hold(frameTable[key], key)]
      ensures r != Fetched ==> held == old(held)
      ensures !old(NeedsVictim()) ==> Valid()
      ensures old(NeedsVictim()) ==> !Partitioned(frameTable, freeList, numFrames)
      ensures old(NeedsVictim()) && r == Fetched ==>
                VictimOverwritten(old(frames), old(frameTable), content, engine.flat, old(evictor.trace), evictor.k,
                  frames, frameTable, key, 1)
      ensures forall i :: 0 <= i < |engine.cache.order| ==>
                engine.cache.order[i] in old(engine.cache.order) || fresh(engine.cache.order[i])
    {
      ghost var taken, frames0, table, tr := NeedsVictim(), frames, frameTable, evictor.trace;
      var f;
      r, f := Load(key);
      if r == Fetched {
        g := PinLoaded(key, f, writable, taken, frames0, table, tr);
      } else {
        g := new PageGuard(this, key, None, writable, false);
      }
    }

    method PinLoaded(key: PageKey, f: FrameId, writable: bool, ghost taken: bool, ghost frames0: seq<Frame>,
                     ghost table: FrameTable, ghost tr: Trace) returns (g: PageGuard)
      requires PartsValid() && key in frameTable && frameTable[key] == f < numFrames && !IsEvictable(evictor.trace, f)
      requires taken ==>
                VictimOverwritten(frames0, table, content, engine.flat, tr, evictor.k, frames, frameTable, key, 0)
      modifies this`frames, this`held, evictor
      ensures fresh(g) && g.valid && g.pool == this && g.key == key && g.writable == writable
      ensures held == old(held)[g := Hold(f, key)]
      ensures old(Valid()) ==> Valid()
      ensures taken ==>
                VictimOverwritten(frames0, table, content, engine.flat, tr, evictor.k, frames, frameTable, key, 1)
    {
      ghost var loaded := frames;
      g := PinFetched(key, f, writable);
      if taken {
        OverwrittenPinned(frames0, table, content, engine.flat, tr, evictor.k, loaded, frameTable, key, f, frames);
      }
    }

    method TouchMapped(f: FrameId)
      requires Valid()
      modifies evictor
      ensures Valid() && !IsEvictable(evictor.trace, f)
    {
      ghost var tr := evictor.trace;
      Touch(f);
      StateTouched(frames, frameTable, freeList, held, tr, content, engine.flat, f);
      TouchedEvictable(tr, f, f);
    }

    method PinFetched(key: PageKey, f: FrameId, writable: bool) returns (g: PageGuard)
      requires PartsValid() && key in frameTable && frameTable[key] == f < numFrames && !IsEvictable(evictor.trace, f)
      modifies this`frames, this`held, evictor
      ensures fresh(g) && g.valid && g.pool == this && g.key == key && g.writable == writable
      ensures held == old(held)[g := Hold(f, key)]
      ensures frames == old(frames)[f := old(frames)[f].(pins := old(frames)[f].pins + 1)]
      ensures old(Valid()) ==> Valid()
    {
      ghost var valid := Valid();
      ghost var frames0, held0, tr := frames, held, evictor.trace;
      g := Pin(key, f, writable);
      if valid {
        StatePinned(frames0, frameTable, freeList, held0, tr, content, engine.flat, g, f, key);
        assert StateOk(frames, frameTable, freeList, held, evictor.trace, content, engine.flat);
        assert forall x :: x in held0 ==> old(GuardFits(x, held[x]));
      }
    }

    /** A new page of a table, loaded into a frame that no guard pins and that is not evictable. */
    method NewPage(tbl: TableId) returns (r: NewPageResult)
      requires Valid()
      modifies this`frames, this`frameTable, this`freeList, this`content, evictor, engine, engine.cache,
               engine.cache.order
      ensures r == NoFrameLeft <==> old(freeList) == [] && !old(NeedsVictim())
      ensures r == SizeAssertFailed <==> asserts && old(NeedsVictim())
      ensures !old(NeedsVictim()) ==> Valid() && held == old(held)
      ensures !old(NeedsVictim()) && r.Allocated? ==>
                && r.key.0 == tbl && r.key !in old(content) && r.key in frameTable
                && content == old(content)[r.key := Zeros(PAGE_SIZE)]
                && engine.flat == old(engine.flat)[r.key := Zeros(PAGE_SIZE)]
      ensures !r.Allocated? ==>
              content == old(content) && engine.flat == old(engine.flat) && frameTable == old(frameTable)
      ensures old(NeedsVictim()) ==> !Partitioned(frameTable, freeList, numFrames)
    {
      ghost var branch, table := NeedsVictim(), frameTable;
      var ok := EnsureFreeFrame();
      if !ok {
        return NoFrameLeft;
      }
      if !branch {
        assert Valid() && FreeAt(table, freeList, numFrames, 0);
      }
      if asserts && |freeList| + |frameTable| != numFrames {
        return SizeAssertFailed;
      }
      assert branch || |frameTable| < numFrames;
      var key;
      ok, key := AllocateIn(tbl);
      if !ok {
        return NoSuchTable;
      }
      var f;
      ok, f := InsertPage(key);
      return Allocated(key);
    }

    /** `allocate_page`: no page that is mapped is allocated again. */
    method AllocateIn(tbl: TableId) returns (ok: bool, key: PageKey)
      requires PartsValid() && PagesKept(frames, frameTable, content, engine.flat)
      modifies this`content, engine, engine.cache, engine.cache.order
      ensures PartsValid()
      ensures !ok ==> content == old(content) && engine.flat == old(engine.flat)
      ensures ok ==> key.0 == tbl && key !in old(content) && key !in frameTable
                     && content == old(content)[key := Zeros(PAGE_SIZE)]
                     && engine.flat == old(engine.flat)[key := Zeros(PAGE_SIZE)]
      ensures old(Valid()) ==> Valid()
      ensures forall i :: 0 <= i < |engine.cache.order| ==>
              engine.cache.order[i] in old(engine.cache.order) || fresh(engine.cache.order[i])
    {
      ghost var valid, content0, flat0 := Valid(), content, engine.flat;
      var r;
      r, key := engine.AllocatePage(tbl);
      if r != Ok {
        return false, key;
      }
      ok := true;
      assert PageKept(frames, frameTable, content, flat0, key);
      content := content[key := Zeros(PAGE_SIZE)];
      if valid {
        StateGrown(frames, frameTable, freeList, held, evictor.trace, content0, flat0, key);
        assert StateOk(frames, frameTable, freeList, held, evictor.trace, content, engine.flat);
      }
    }

    /** Unmaps a page that no guard pins. What was written to it and not flushed is lost. */
    method EvictPage(key: PageKey) returns (r: bool)
      requires Valid()
      modifies this`frames, this`frameTable, this`freeList, this`content, evictor
      ensures Valid() && held == old(held)
      ensures r <==> forall g :: g in held ==> held[g].key != key
      ensures key !in old(frameTable) || !r ==>
              frameTable == old(frameTable) && freeList == old(freeList) && content == old(content)
      ensures key in old(frameTable) && r ==>
                && frameTable == old(frameTable) - {key} && freeList == old(freeList) + [old(frameTable)[key]]
                && key in engine.flat && content == old(content)[key := engine.flat[key]]
      ensures (key in old(frameTable) && r && old(frameTable)[key] < |old(frames)|
               && !old(frames)[old(frameTable)[key]].dirty) ==> content == old(content)
    {
      if key !in frameTable {
        return true;
      }
      var f := frameTable[key];
      assert MappedAt(frameTable, numFrames, key) && SlotOk(frames, held, evictor.trace, freeList, f);
      PinsOfPage(key);
      if frames[f].pins > 0 {
        return false;
      }
      Unmap(key, f);
      return true;
    }

    method Unmap(key: PageKey, f: FrameId)
      requires Valid() && key in frameTable && frameTable[key] == f && f < |frames| && frames[f].pins == 0
      modifies this`frames, this`frameTable, this`freeList, this`content, evictor
      ensures Valid()
      ensures frameTable == old(frameTable) - {key} && freeList == old(freeList) + [f]
      ensures key in engine.flat && content == old(content)[key := engine.flat[key]]
      ensures !old(frames)[f].dirty ==> content == old(content)
    {
      ghost var frames0, table, free, tr, content0 := frames, frameTable, freeList, evictor.trace, content;
      frameTable := frameTable - {key};
      frames := frames[f := Frame(false, Zeros(PAGE_SIZE), 0)];
      freeList := freeList + [f];
      evictor.Remove(f);
      StateUnmapped(frames0, table, free, held, tr, content0, engine.flat, key);
      content := content[key := engine.flat[key]];
      assert StateOk(frames, frameTable, freeList, held, evictor.trace, content, engine.flat);
    }

    /** The guards on a page's frame are those on the page. */
    lemma PinsOfPage(key: PageKey)
      requires Valid() && key in frameTable
      ensures frameTable[key] < |frames|
      ensures frames[frameTable[key]].pins == |set g | g in held && held[g].key == key|
      ensures frames[frameTable[key]].pins == 0 <==> forall g :: g in held ==> held[g].key != key
    {
      var f := frameTable[key];
      assert MappedAt(frameTable, numFrames, key) && SlotOk(frames, held, evictor.trace, freeList, f);
      assert Holders(held, f) == set g | g in held && held[g].key == key;
      if g :| g in held && held[g].key == key {
        assert g in Holders(held, f);
      }
      if |Holders(held, f)| > 0 {
        var g :| g in Holders(held, f);
      }
    }

    method GetPinCount(key: PageKey) returns (pins: Option<nat>)
      requires Valid()
      ensures pins == None <==> key !in frameTable
      ensures pins != None ==> pins.value == |set g | g in held && held[g].key == key|
    {
      if key !in frameTable {
        return None;
      }
      PinsOfPage(key);
      return Some(frames[frameTable[key]].pins);
    }

    /** Writes a mapped page to storage. */
    method FlushPage(key: PageKey) returns (r: bool)
      requires Valid()
      modifies this`frames, engine`files, engine`flat, engine.cache, engine.cache.order
      ensures Valid()
      ensures r <==> key in frameTable
      ensures !r ==> frames == old(frames) && engine.flat == old(engine.flat)
      ensures r ==> key in content && engine.flat == old(engine.flat)[key := content[key]]
      ensures r ==>
                frameTable[key] < |old(frames)|
                && frames == old(frames)[frameTable[key] := old(frames)[frameTable[key]].(dirty := false)]
    {
      if key !in frameTable {
        return false;
      }
      FlushFrame(key, frameTable[key]);
      return true;
    }

    method FlushFrame(key: PageKey, f: FrameId)
      requires Valid() && key in frameTable && f == frameTable[key]
      modifies this`frames, engine`files, engine`flat, engine.cache, engine.cache.order
      ensures Valid()
      ensures key in content && engine.flat == old(engine.flat)[key := content[key]]
      ensures f < |old(frames)| && frames == old(frames)[f := old(frames)[f].(dirty := false)]
      ensures CleanAt(frames, frameTable, key)
      ensures forall k :: CleanAt(old(frames), frameTable, k) ==> CleanAt(frames, frameTable, k)
      ensures forall i :: 0 <= i < |engine.cache.order| ==>
              engine.cache.order[i] in old(engine.cache.order) || fresh(engine.cache.order[i])
    {
      assert MappedAt(frameTable, numFrames, key) && PageKept(frames, frameTable, content, engine.flat, key);
      assert SlotOk(frames, held, evictor.trace, freeList, f);
      ghost var frames0, flat0 := frames, engine.flat;
      var data := frames[f].data;
      var r, ignored := engine.WritePage(key, data);
      assert Fit(data, PAGE_SIZE) == data;
      frames := frames[f := frames[f].(dirty := false)];
      StateFlushed(frames0, frameTable, freeList, held, evictor.trace, content, flat0, key);
      assert StateOk(frames, frameTable, freeList, held, evictor.trace, content, engine.flat);
    }

    /** Writes every mapped page to storage. */
    method FlushAllPages()
      requires Valid()
      modifies this`frames, engine`files, engine`flat, engine.cache, engine.cache.order
      ensures Valid() && engine.flat == content
      ensures forall k :: k in frameTable ==> CleanAt(frames, frameTable, k)
    {
      var todo := frameTable.Keys;
      while todo != {}
        invariant Valid() && todo <= frameTable.Keys
        invariant forall k :: k in frameTable && k !in todo ==> CleanAt(frames, frameTable, k)
        invariant forall i :: 0 <= i < |engine.cache.order| ==>
                  engine.cache.order[i] in old(engine.cache.order) || fresh(engine.cache.order[i])
        decreases |todo|
      {
        var k :| k in todo;
        assert MappedAt(frameTable, numFrames, k);
        FlushFrame(k, frameTable[k]);
        todo := todo - {k};
      }
      AllFlushed();
    }

    lemma AllFlushed()
      requires Valid() && forall k :: k in frameTable ==> CleanAt(frames, frameTable, k)
      ensures engine.flat == content
    {
      forall k
        ensures (k in content <==> k in engine.flat) && (k in content ==> content[k] == engine.flat[k])
      {
        assert PageKept(frames, frameTable, content, engine.flat, k);
        if k in frameTable { assert CleanAt(frames, frameTable, k); }
      }
    }
  }

  // ---------- the evictor branch is taken ----------

  /** With one frame, a second page is fetched once the first has lost its guard, and both are
      mapped to the frame. */
  method SharedFrameExample() returns (pool: BufferPool)
    ensures Shared(pool.frameTable)
  {
    var key;
    pool, key := TwoPages();
    FetchAndDrop(pool, (0, 0));
    OnlyPage(pool, (0, 0), key);
    var r, g := pool.FetchPage(key, false);
  }

  /** In the same state, a new page ends in the failed size assertion. */
  method SizeAssertExample() returns (r: NewPageResult)
    ensures r == SizeAssertFailed
  {
    var pool, key := TwoPages();
    FetchAndDrop(pool, (0, 0));
    OnlyPage(pool, (0, 0), key);
    r := pool.NewPage(0);
  }

  /** A page is written, its guard dropped and its frame evicted: what was written is lost. */
  method LostWriteExample(data: Bytes) returns (pool: BufferPool, key: PageKey)
    requires |data| == PAGE_SIZE
    ensures key in pool.content && pool.content[key] == Zeros(PAGE_SIZE)
  {
    pool, key := TwoPages();
    WriteAndDrop(pool, key, data);
    assert pool.content[key] == data;
    var evicted := pool.EvictPage(key);
  }

  method WriteAndDrop(pool: BufferPool, key: PageKey, data: Bytes)
    requires pool.Valid() && pool.numFrames == 1 && pool.frameTable == map[] && pool.held == map[]
    requires key in pool.engine.flat && |data| == PAGE_SIZE
    modifies pool, pool.evictor, pool.engine, pool.engine.cache, pool.engine.cache.order
    ensures pool.Valid() && key in pool.frameTable && pool.held == map[]
    ensures key in pool.content && pool.content[key] == data && pool.engine.flat == old(pool.engine.flat)
  {
    assert |pool.freeList| == 1;
    var r, g := pool.FetchPage(key, true);
    SetAndDrop(pool, g, data);
  }

  method SetAndDrop(pool: BufferPool, g: PageGuard, data: Bytes)
    requires pool.Valid() && g.pool == pool && g in pool.held && g.writable && |data| == PAGE_SIZE
    modifies g`valid, pool`frames, pool`held, pool`content, pool.evictor
    ensures pool.Valid() && pool.held == old(pool.held) - {g} && pool.content == old(pool.content)[g.key := data]
  {
    g.SetData(data);
    assert pool.GuardFits(g, pool.held[g]);
    g.Drop();
  }

  /** A pool with one frame over a table with two pages. */
  method TwoPages() returns (pool: BufferPool, key: PageKey)
    ensures fresh(pool) && fresh(pool.engine) && fresh(pool.evictor) && fresh(pool.engine.cache)
    ensures forall i :: 0 <= i < |pool.engine.cache.order| ==> fresh(pool.engine.cache.order[i])
    ensures pool.Valid() && pool.asserts && pool.numFrames == 1 && pool.frameTable == map[] && pool.held == map[]
    ensures (0, 0) in pool.engine.flat && key in pool.engine.flat && key != (0, 0)
    ensures pool.engine.flat[key] == Zeros(PAGE_SIZE)
  {
    var engine;
    engine, key := TwoPageTable();
    pool := new BufferPool(1, engine, true);
  }

  method TwoPageTable() returns (engine: StorageEngine, key: PageKey)
    ensures fresh(engine) && fresh(engine.cache)
    ensures forall i :: 0 <= i < |engine.cache.order| ==> fresh(engine.cache.order[i])
    ensures engine.Valid() && engine.pageSize == PAGE_SIZE
    ensures (0, 0) in engine.flat && key in engine.flat && key != (0, 0)
    ensures engine.flat[key] == Zeros(PAGE_SIZE)
  {
    engine := new StorageEngine(4, PAGE_SIZE);
    var created := engine.CreateTable(0);
    assert created == Ok && (0, 0) in engine.flat;
    var grown;
    grown, key := engine.AllocatePage(0);
  }

  /** Reads a page in an empty pool and drops the guard: the frame is left to the evictor. */
  method FetchAndDrop(pool: BufferPool, key: PageKey)
    requires pool.Valid() && pool.numFrames == 1 && pool.frameTable == map[] && pool.held == map[]
    requires key in pool.engine.flat
    modifies pool, pool.evictor, pool.engine, pool.engine.cache, pool.engine.cache.order
    ensures pool.Valid() && key in pool.frameTable && !NoneEvictable(pool.evictor.trace)
    ensures pool.engine.flat == old(pool.engine.flat)
    ensures forall i :: 0 <= i < |pool.engine.cache.order| ==>
              pool.engine.cache.order[i] in old(pool.engine.cache.order) || fresh(pool.engine.cache.order[i])
  {
    assert |pool.freeList| == 1;
    var r, g := pool.FetchPage(key, false);
    assert pool.GuardFits(g, pool.held[g]);
    g.Drop();
    assert IsEvictable(pool.evictor.trace, g.frame.value);
  }

  /** A pool with one frame that holds a page has no other page and no free frame. */
  lemma OnlyPage(pool: BufferPool, k: PageKey, other: PageKey)
    requires pool.Valid() && pool.numFrames == 1 && k in pool.frameTable && other != k
    ensures pool.freeList == [] && other !in pool.frameTable
  {
    var rest := pool.frameTable.Keys - {k};
    assert pool.frameTable.Keys == {k} + rest;
    assert |rest| == 0;
  }
}
