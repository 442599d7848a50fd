/**
 Pages of many tables in segment files, opened through the bounded cache of file handles
 (lib/storage/storage_utils.h, lib/storage/storage.cpp). The ghost field `flat` is what the
 engine is meant to be: a map from a table and a page number to the bytes of the page.

 The file system is a map from segment files to their bytes, on which every call succeeds.
 */
module StorageModel {
  import opened Pages
  import opened Encoding
  import opened FileCacheModel

  type PageKey = (TableId, nat)
  type FlatMap = map<PageKey, Bytes>

  // ---------- addressing ----------

  function PgnoToSegid(pgno: nat, pagesPerSegment: nat): nat
    requires pagesPerSegment > 0
  {
    pgno / pagesPerSegment
  }

  function PgnoToFileOffset(pgno: nat, pagesPerSegment: nat, pageSize: nat): nat
    requires pagesPerSegment > 0
  {
    (pgno % pagesPerSegment) * pageSize
  }

  /** Two pages of one table are in different segments, or at places a page apart. */
  lemma PlacesApart(p: nat, q: nat, n: nat, size: nat)
    requires n > 0 && p != q
    ensures PgnoToSegid(p, n) == PgnoToSegid(q, n) ==>
              || PgnoToFileOffset(p, n, size) + size <= PgnoToFileOffset(q, n, size)
              || PgnoToFileOffset(q, n, size) + size <= PgnoToFileOffset(p, n, size)
  {
    if p / n == q / n {
      var a, b := p % n, q % n;
      assert p == n * (p / n) + a && q == n * (q / n) + b;
      if a < b { SlotsApart(a, b, size); } else { SlotsApart(b, a, size); }
    }
  }

  lemma SlotsApart(a: nat, b: nat, size: nat)
    requires a < b
    ensures a * size + size <= b * size
  {
    assert b * size == a * size + size + (b - a - 1) * size;
  }

  // ---------- files ----------

  type Files = map<FileKey, Bytes>

  function Zeros(n: nat): (r: Bytes)
    ensures |r| == n && forall i :: 0 <= i < n ==> r[i] == 0
  {
    seq(n, _ => 0)
  }

  /** The first `len` bytes of a buffer, filled up with zeros. */
  function Fit(buffer: Bytes, len: nat): (r: Bytes)
    ensures |r| == len
  {
    if |buffer| < len then buffer + Zeros(len - |buffer|) else buffer[..len]
  }

  /** `pwrite`: a write behind the end leaves zeros in between. */
  function WriteAt(file: Bytes, data: Bytes, offset: nat): Bytes {
    if offset + |data| <= |file| then file[..offset] + data + file[offset + |data|..]
    else Fit(file, offset) + data
  }

  /** `pread`: as many bytes as there are. */
  function ReadAt(file: Bytes, offset: nat, len: nat): Bytes {
    if offset >= |file| then [] else if offset + len <= |file| then file[offset..offset + len] else file[offset..]
  }

  /** A page read over the front of a buffer. */
  function Overlay(page: Bytes, buffer: Bytes): Bytes {
    if |buffer| > |page| then page + buffer[|page|..] else page
  }

  // ---------- the invariant ----------

  datatype TableMetadata = TableMetadata(lastPgno: nat, totalPages: nat)

  const DEFAULT_TABLE_METADATA_PGNO: nat := 0

  ghost function PageCount(tables: map<TableId, TableMetadata>, t: TableId): nat {
    if t in tables then tables[t].totalPages else 0
  }

  /** How many of the first `total` pages of a table are in segment `seg`. */
  ghost function SegmentPages(total: nat, seg: nat, n: nat): nat {
    if total <= seg * n then 0 else if total - seg * n <= n then total - seg * n else n
  }

  /** There are files for the segments that have pages, and they are no longer than that. */
  ghost predicate FileOk(files: Files, tables: map<TableId, TableMetadata>, k: FileKey, n: nat, size: nat) {
    var pages := SegmentPages(PageCount(tables, k.0), k.1, n);
    && (k in files <==> pages > 0)
    && (k in files ==> |files[k]| == pages * size)
  }

  /** The page is in the file and at the place that its number says. */
  ghost predicate PageAt(files: Files, flat: FlatMap, k: PageKey, n: nat, size: nat)
    requires n > 0
  {
    k in flat ==>
      var f, offset := (k.0, PgnoToSegid(k.1, n)), PgnoToFileOffset(k.1, n, size);
      f in files && offset + size <= |files[f]| && flat[k] == files[f][offset..offset + size]
  }

  ghost predicate KnownPage(tables: map<TableId, TableMetadata>, flat: FlatMap, k: PageKey) {
    k in flat <==> k.1 < PageCount(tables, k.0)
  }

  ghost predicate DiskOk(files: Files, tables: map<TableId, TableMetadata>, flat: FlatMap, n: nat, size: nat) {
    && n > 0
    && (forall k: FileKey {:trigger FileOk(files, tables, k, n, size)} :: FileOk(files, tables, k, n, size))
    && (forall k: PageKey {:trigger PageAt(files, flat, k, n, size)} :: PageAt(files, flat, k, n, size))
    && (forall k: PageKey {:trigger KnownPage(tables, flat, k)} :: KnownPage(tables, flat, k))
    && (forall t {:trigger tables[t]} :: t in tables ==> tables[t].totalPages == tables[t].lastPgno + 1)
  }

  /** Where a known page is. */
  lemma PagePlace(files: Files, tables: map<TableId, TableMetadata>, flat: FlatMap, k: PageKey, n: nat, size: nat)
    requires DiskOk(files, tables, flat, n, size)
    requires k.1 < PageCount(tables, k.0)
    ensures var f, offset := (k.0, PgnoToSegid(k.1, n)), PgnoToFileOffset(k.1, n, size);
            && f in files && offset + size <= |files[f]|
            && k in flat && flat[k] == files[f][offset..offset + size]
  {
    assert KnownPage(tables, flat, k);
    assert PageAt(files, flat, k, n, size);
  }

  /** Writing one page changes that page of the flat map and no other. */
  lemma WriteOnePage(files: Files, tables: map<TableId, TableMetadata>, flat: FlatMap, k: PageKey, data: Bytes, n: nat,
                     size: nat)
    requires DiskOk(files, tables, flat, n, size)
    requires k in flat && |data| == size
    ensures var f, offset := (k.0, PgnoToSegid(k.1, n)), PgnoToFileOffset(k.1, n, size);
            f in files && DiskOk(files[f := WriteAt(files[f], data, offset)], tables, flat[k := data], n, size)
  {
    var f, offset := (k.0, PgnoToSegid(k.1, n)), PgnoToFileOffset(k.1, n, size);
    assert KnownPage(tables, flat, k) && PageAt(files, flat, k, n, size);
    var files', flat' := files[f := WriteAt(files[f], data, offset)], flat[k := data];
    assert |files'[f]| == |files[f]|;
    forall x: FileKey
      ensures FileOk(files', tables, x, n, size)
    {
      assert FileOk(files, tables, x, n, size);
    }
    forall x: PageKey
      ensures PageAt(files', flat', x, n, size) && KnownPage(tables, flat', x)
    {
      assert KnownPage(tables, flat, x);
      PageWritten(files, flat, k, data, n, size, x);
    }
  }

  lemma PageWritten(files: Files, flat: FlatMap, k: PageKey, data: Bytes, n: nat, size: nat, x: PageKey)
    requires n > 0 && k in flat && |data| == size
    requires PageAt(files, flat, k, n, size) && PageAt(files, flat, x, n, size)
    ensures var f, offset := (k.0, PgnoToSegid(k.1, n)), PgnoToFileOffset(k.1, n, size);
            PageAt(files[f := WriteAt(files[f], data, offset)], flat[k := data], x, n, size)
  {
    var f, offset := (k.0, PgnoToSegid(k.1, n)), PgnoToFileOffset(k.1, n, size);
    var g, at := (x.0, PgnoToSegid(x.1, n)), PgnoToFileOffset(x.1, n, size);
    if x.0 == k.0 && x != k {
      PlacesApart(x.1, k.1, n, size);
    }
    if x in flat {
      PlaceWritten(files, f, offset, data, g, at, if x == k then data else flat[x]);
    }
  }

  lemma PlaceWritten(files: Files, f: FileKey, offset: nat, data: Bytes, g: FileKey, at: nat, page: Bytes)
    requires f in files && offset + |data| <= |files[f]| && |page| == |data|
    requires g in files && at + |page| <= |files[g]|
    requires if g == f && at == offset then page == data else page == files[g][at..at + |page|]
    requires g == f && at != offset ==> at + |data| <= offset || offset + |data| <= at
    ensures var files' := files[f := WriteAt(files[f], data, offset)];
            at + |page| <= |files'[g]| && files'[g][at..at + |page|] == page
  {
    if g == f && at == offset {
      assert WriteAt(files[f], data, offset)[offset..offset + |data|] == data;
    } else if g == f {
      SliceKept(files[f], data, offset, at, |page|);
    }
  }

  /** A write leaves the bytes in front of it and behind it. */
  lemma SliceKept(file: Bytes, data: Bytes, offset: nat, at: nat, len: nat)
    requires offset + |data| <= |file| && (at + len <= offset || offset + |data| <= at)
    ensures at + len <= |file| ==>
            at + len <= |WriteAt(file, data, offset)| && WriteAt(file, data, offset)[at..at + len] == file[at..at + len]
  {
  }

  // ---------- a page more ----------

  /** The page behind the last one begins where its segment file ends. */
  lemma NextPlace(total: nat, n: nat, seg: nat)
    requires n > 0
    ensures SegmentPages(total, total / n, n) == total % n
    ensures SegmentPages(total + 1, total / n, n) == total % n + 1
    ensures seg != total / n ==> SegmentPages(total + 1, seg, n) == SegmentPages(total, seg, n)
  {
    var s, r := total / n, total % n;
    assert total == s * n + r;
    if seg < s {
      SlotsApart(seg, s, n);
    } else if seg > s {
      SlotsApart(s, seg, n);
    }
  }

  /** Writing a page behind the last one adds that page to the flat map and changes no other. */
  lemma AddPage(files: Files, tables: map<TableId, TableMetadata>, flat: FlatMap, t: TableId, data: Bytes, n: nat,
                size: nat)
    requires DiskOk(files, tables, flat, n, size) && |data| == size
    ensures var p := PageCount(tables, t);
            var f, offset := (t, PgnoToSegid(p, n)), PgnoToFileOffset(p, n, size);
            && (t, p) !in flat
            && (f in files ==> |files[f]| == offset) && (f !in files ==> offset == 0)
            && DiskOk(files[f := (if f in files then files[f] else []) + data], tables[t := TableMetadata(p, p + 1)],
               flat[(t, p) := data], n, size)
  {
    var p := PageCount(tables, t);
    var f, offset := (t, PgnoToSegid(p, n)), PgnoToFileOffset(p, n, size);
    var file := if f in files then files[f] else [];
    var files', tables', flat' := files[f := file + data], tables[t := TableMetadata(p, p + 1)], flat[(t, p) := data];
    assert FileOk(files, tables, f, n, size) && KnownPage(tables, flat, (t, p));
    NextPlace(p, n, f.1);
    assert |file| == offset;
    forall x: FileKey
      ensures FileOk(files', tables', x, n, size)
    {
      assert FileOk(files, tables, x, n, size);
      FileGrown(files, tables, t, data, n, size, x);
    }
    forall x: PageKey
      ensures PageAt(files', flat', x, n, size) && KnownPage(tables', flat', x)
    {
      assert KnownPage(tables, flat, x) && PageAt(files, flat, x, n, size);
      var g, at := (x.0, PgnoToSegid(x.1, n)), PgnoToFileOffset(x.1, n, size);
      if x == (t, p) {
        PlaceAppended(files, f, data, g, at, data);
      } else if x in flat {
        PlaceAppended(files, f, data, g, at, flat[x]);
      }
    }
  }

  lemma FileGrown(files: Files, tables: map<TableId, TableMetadata>, t: TableId, data: Bytes, n: nat, size: nat,
                  x: FileKey)
    requires n > 0 && |data| == size && FileOk(files, tables, x, n, size)
    ensures var p := PageCount(tables, t); var f := (t, PgnoToSegid(p, n));
            FileOk(files[f := (if f in files then files[f] else []) + data], tables[t := TableMetadata(p, p + 1)], x, n,
              size)
  {
    var p := PageCount(tables, t);
    NextPlace(p, n, x.1);
    OneMore(p % n, size);
  }

  lemma PlaceAppended(files: Files, f: FileKey, data: Bytes, g: FileKey, at: nat, page: Bytes)
    requires |page| == |data|
    requires if g in files && at + |page| <= |files[g]| then page == files[g][at..at + |page|]
             else g == f && page == data && at == if f in files then |files[f]| else 0
    ensures var files' := files[f := (if f in files then files[f] else []) + data];
            g in files' && at + |page| <= |files'[g]| && files'[g][at..at + |page|] == page
  {
  }

  lemma OneMore(k: nat, size: nat)
    ensures (k + 1) * size == k * size + size
  {
  }

  // ---------- the engine ----------

  /** How an operation on a page or a table ends. The last one is a failed assertion. */
  datatype IoResult = Ok | PastLastPage | OpenFailed | TableExists | NoTable

  class StorageEngine {
    const segmentSize: nat
    const pageSize: nat
    const cache: FileCache
    var tables: map<TableId, TableMetadata>
    /** The file system: table directories and the bytes of segment files. */
    var dirs: set<TableId>
    var files: Files
    ghost var flat: FlatMap

    ghost predicate Valid()
      reads this, cache, cache.order
    {
      && DiskOk(files, tables, flat, segmentSize, pageSize)
      && dirs == tables.Keys
      && CacheOk()
    }

    ghost predicate CacheOk()
      reads this`files, cache, cache.order
    {
      cache.Valid() && forall k :: k in cache.table ==> k in files
    }

    /** An engine on an empty directory. */
    constructor (segmentSize: nat, pageSize: nat)
      requires segmentSize > 0
      ensures Valid() && flat == map[] && tables == map[] && this.segmentSize == segmentSize
              && this.pageSize == pageSize
      ensures fresh(cache) && cache.order == []
    {
      this.segmentSize, this.pageSize := segmentSize, pageSize;
      tables, dirs, files, flat := map[], {}, map[], map[];
      cache := new FileCache();
    }

    /** A handle on a segment file, which is created when it does not exist. */
    method OpenSegment(tbl: TableId, seg: SegmentId) returns (file: Option<LocalFile>)
      requires CacheOk()
      modifies this`files, cache, cache.order
      ensures CacheOk()
      ensures forall i :: 0 <= i < |cache.order| ==> cache.order[i] in old(cache.order) || fresh(cache.order[i])
      ensures (tbl, seg) in old(cache.table) || tbl in dirs <==> file != None
      ensures file != None ==> file == Some(LocalFile((tbl, seg), true))
      ensures file == None ==> files == old(files)
      ensures file != None ==> files == if (tbl, seg) in old(files) then old(files) else old(files)[(tbl, seg) := []]
    {
      var key := (tbl, seg);
      var cached := cache.Exists(key);
      if cached {
        file := FromCache(key);
        return;
      }
      if tbl !in dirs {
        return None;
      }
      if key !in files {
        files := files[key := []];
      }
      IntoCache(key);
      file := FromCache(key);
    }

    method FromCache(key: FileKey) returns (file: Option<LocalFile>)
      requires CacheOk() && key in cache.table
      modifies cache, cache.order
      ensures CacheOk() && file == Some(LocalFile(key, true))
      ensures forall i :: 0 <= i < |cache.order| ==> cache.order[i] in old(cache.order)
    {
      file := cache.Get(key);
    }

    method IntoCache(key: FileKey)
      requires CacheOk() && key !in cache.table && key in files
      modifies cache, cache.order
      ensures CacheOk() && key in cache.table
      ensures forall i :: 0 <= i < |cache.order| ==> cache.order[i] in old(cache.order) || fresh(cache.order[i])
    {
      cache.Put(key, LocalFile(key, true));
    }

    // ---------- pages ----------

    /** The last page of a table. A table that is not known has no directory, so that opening its
        first segment fails. */
    method GetLatestPage(tbl: TableId) returns (latest: Option<nat>)
      requires Valid()
      modifies this`files, cache, cache.order
      ensures Valid() && files == old(files)
      ensures latest == if tbl in tables then Some(tables[tbl].lastPgno) else None
      ensures forall i :: 0 <= i < |cache.order| ==> cache.order[i] in old(cache.order) || fresh(cache.order[i])
    {
      if tbl in tables {
        return Some(tables[tbl].lastPgno);
      }
      var seg := PgnoToSegid(DEFAULT_TABLE_METADATA_PGNO, segmentSize);
      assert FileOk(files, tables, (tbl, seg), segmentSize, pageSize);
      var first := OpenSegment(tbl, seg);
      return None;
    }

    /** A handle on the segment of a page that exists. */
    method GetSegment(tbl: TableId, pgno: nat) returns (file: LocalFile)
      requires Valid() && (tbl, pgno) in flat
      modifies this`files, cache, cache.order
      ensures Valid() && files == old(files)
      ensures file == LocalFile((tbl, PgnoToSegid(pgno, segmentSize)), true)
      ensures forall i :: 0 <= i < |cache.order| ==> cache.order[i] in old(cache.order) || fresh(cache.order[i])
    {
      assert KnownPage(tables, flat, (tbl, pgno));
      PagePlace(files, tables, flat, (tbl, pgno), segmentSize, pageSize);
      var seg := PgnoToSegid(pgno, segmentSize);
      assert tbl in dirs && (tbl, seg) in files;
      var handle := OpenSegment(tbl, seg);
      return handle.value;
    }

    /** Reads a page over the front of the buffer, which grows when it is shorter than a page. */
    method ReadPage(key: PageKey, buffer: Bytes) returns (r: IoResult, out: Bytes)
      requires Valid()
      modifies this`files, cache, cache.order
      ensures Valid() && files == old(files)
      ensures r == Ok ==> key in flat && |flat[key]| == pageSize && out == Overlay(flat[key], buffer)
      ensures r == PastLastPage ==> key.0 in tables && key !in flat && out == buffer
      ensures r == OpenFailed ==> key.0 !in tables && key !in flat && out == buffer
      ensures r == Ok || r == PastLastPage || r == OpenFailed
      ensures forall i :: 0 <= i < |cache.order| ==> cache.order[i] in old(cache.order) || fresh(cache.order[i])
    {
      var (tbl, pgno) := key;
      assert KnownPage(tables, flat, key);
      var latest := GetLatestPage(tbl);
      if latest == None {
        return OpenFailed, buffer;
      }
      if pgno > latest.value {
        return PastLastPage, buffer;
      }
      PagePlace(files, tables, flat, key, segmentSize, pageSize);
      var seg := GetSegment(tbl, pgno);
      var offset := PgnoToFileOffset(pgno, segmentSize, pageSize);
      return Ok, Overlay(ReadAt(files[seg.path], offset, pageSize), buffer);
    }

    /** Writes the first page of the buffer, which is filled up with zeros when it is shorter. */
    method WritePage(key: PageKey, buffer: Bytes) returns (r: IoResult, out: Bytes)
      requires Valid()
      modifies this`files, this`flat, cache, cache.order
      ensures Valid()
      ensures r == Ok ==> key in old(flat) && flat == old(flat)[key := Fit(buffer, pageSize)]
      ensures r == PastLastPage ==> key.0 in tables && key !in flat
      ensures r == OpenFailed ==> key.0 !in tables && key !in flat
      ensures r == Ok || r == PastLastPage || r == OpenFailed
      ensures r != Ok ==> flat == old(flat) && out == buffer
      ensures r == Ok ==> out == if |buffer| < pageSize then Fit(buffer, pageSize) else buffer
      ensures forall i :: 0 <= i < |cache.order| ==> cache.order[i] in old(cache.order) || fresh(cache.order[i])
    {
      var (tbl, pgno) := key;
      assert KnownPage(tables, flat, key);
      var latest := GetLatestPage(tbl);
      if latest == None {
        return OpenFailed, buffer;
      }
      if pgno > latest.value {
        return PastLastPage, buffer;
      }
      var seg := GetSegment(tbl, pgno);
      var offset := PgnoToFileOffset(pgno, segmentSize, pageSize);
      WriteOnePage(files, tables, flat, key, Fit(buffer, pageSize), segmentSize, pageSize);
      WriteFile(seg, Fit(buffer, pageSize), offset);
      flat := flat[key := Fit(buffer, pageSize)];
      return Ok, if |buffer| < pageSize then Fit(buffer, pageSize) else buffer;
    }

    method WriteFile(file: LocalFile, data: Bytes, offset: nat)
      requires file.isOpen && file.path in files
      modifies `files
      ensures files == old(files)[file.path := WriteAt(old(files)[file.path], data, offset)]
    {
      files := files[file.path := WriteAt(files[file.path], data, offset)];
    }

    /** Appends a page of zeros to the table. */
    method AllocatePage(tbl: TableId) returns (r: IoResult, key: PageKey)
      requires Valid()
      modifies this, cache, cache.order
      ensures Valid()
      ensures r == Ok <==> tbl in old(tables)
      ensures r == Ok ==>
                && key.0 == tbl && key !in old(flat) && (forall p: nat :: p < key.1 ==> (tbl, p) in old(flat))
                && flat == old(flat)[key := Zeros(pageSize)] && tables.Keys == old(tables).Keys
      ensures r != Ok ==> r == NoTable && flat == old(flat) && tables == old(tables)
      ensures forall i :: 0 <= i < |cache.order| ==> cache.order[i] in old(cache.order) || fresh(cache.order[i])
    {
      key := (tbl, 0);
      if tbl !in dirs {
        return NoTable, key;
      }
      var latest := GetLatestPage(tbl);
      var pgno := latest.value + 1;
      assert forall p: nat :: p < pgno ==> KnownPage(tables, flat, (tbl, p));
      AppendPage(tbl, pgno, Zeros(pageSize));
      tables := tables[tbl := TableMetadata(tables[tbl].lastPgno + 1, tables[tbl].totalPages + 1)];
      return Ok, (tbl, pgno);
    }

    /** Writes the page behind the last one of a table, in a new segment file if need be. */
    method AppendPage(tbl: TableId, pgno: nat, data: Bytes)
      requires DiskOk(files, tables, flat, segmentSize, pageSize) && CacheOk()
      requires tbl in dirs && pgno == PageCount(tables, tbl) && |data| == pageSize
      modifies this`files, this`flat, cache, cache.order
      ensures DiskOk(files, tables[tbl := TableMetadata(pgno, pgno + 1)], flat, segmentSize, pageSize) && CacheOk()
      ensures (tbl, pgno) !in old(flat) && flat == old(flat)[(tbl, pgno) := data]
      ensures forall i :: 0 <= i < |cache.order| ==> cache.order[i] in old(cache.order) || fresh(cache.order[i])
    {
      ghost var before := files;
      AddPage(files, tables, flat, tbl, data, segmentSize, pageSize);
      var seg := OpenSegment(tbl, PgnoToSegid(pgno, segmentSize));
      var offset := PgnoToFileOffset(pgno, segmentSize, pageSize);
      ghost var file := if seg.value.path in before then before[seg.value.path] else [];
      assert WriteAt(file, data, offset) == file + data;
      WriteFile(seg.value, data, offset);
      flat := flat[(tbl, pgno) := data];
      assert files == before[seg.value.path := file + data];
    }

    /** Makes the directory of a new table and its first page, which holds the table's metadata. */
    method CreateTable(tbl: TableId) returns (r: IoResult)
      requires Valid()
      modifies this, cache, cache.order
      ensures Valid()
      ensures r == TableExists <==> tbl in old(tables)
      ensures r != TableExists ==>
              r == Ok && flat == old(flat)[(tbl, 0) := Fit(MetadataBytes(TableMetadata(0, 1)), pageSize)]
      ensures r == Ok ==> (forall p :: (tbl, p) !in old(flat)) && tables.Keys == old(tables).Keys + {tbl}
      ensures r == TableExists ==> flat == old(flat) && tables == old(tables)
      ensures forall i :: 0 <= i < |cache.order| ==> cache.order[i] in old(cache.order) || fresh(cache.order[i])
    {
      if tbl in dirs {
        return TableExists;
      }
      assert forall p :: KnownPage(tables, flat, (tbl, p));
      dirs := dirs + {tbl};
      var metadata := TableMetadata(DEFAULT_TABLE_METADATA_PGNO, DEFAULT_TABLE_METADATA_PGNO + 1);
      var buffer := ToBytes(metadata);
      AppendPage(tbl, 0, Fit(buffer, pageSize));
      tables := tables[tbl := metadata];
      return Ok;
    }
  }

  method ToBytes(m: TableMetadata) returns (buffer: Bytes)
    ensures buffer == MetadataBytes(m)
  {
    buffer := AppendUint([], 8, m.lastPgno);
    buffer := AppendUint(buffer, 8, m.totalPages);
    assert buffer == MetadataBytes(m);
  }

  function MetadataBytes(m: TableMetadata): Bytes {
    BigEndian(m.lastPgno, 8) + BigEndian(m.totalPages, 8)
  }
}
