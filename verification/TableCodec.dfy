/**
 Table definitions as the catalog stores them (lib/catalog/catalog.cpp, lib/catalog/schema.h).
 Lengths are written in 16 bits, and so much of a name or of the column list is written.
 */
module TableCodec {
  import opened Pages
  import opened Encoding
  import opened RecordModel

  datatype Table = Table(schemaType: Byte, name: Bytes, tblName: Bytes, columns: seq<Column>)

  function Cut<T>(s: seq<T>): (r: seq<T>)
    ensures |r| < UINT16_LIMIT && (r == s <==> |s| < UINT16_LIMIT)
  {
    s[..|s| % UINT16_LIMIT]
  }

  // ---------- encoding ----------

  function TypeByte(ty: DataType): Byte {
    match ty
    case INTEGER => 1
    case BOOLEAN => 2
    case TEXT => 3
  }

  function StringBytes(s: Bytes): Bytes {
    BigEndian(|s|, 2) + s
  }

  function ColumnBytes(c: Column): Bytes {
    [TypeByte(c.dataType)] + (StringBytes(Cut(c.name)) + (BoolBytes(c.isPrimaryKey) + BoolBytes(c.isNullable)))
  }

  function ColumnsBytes(columns: seq<Column>): Bytes {
    if columns == [] then [] else ColumnBytes(columns[0]) + ColumnsBytes(columns[1..])
  }

  function TableBytes(t: Table, root: PageNo): Bytes {
    [t.schemaType] + (StringBytes(Cut(t.name)) + (StringBytes(Cut(t.tblName)) + TailBytes(root, Cut(t.columns))))
  }

  method SerializeString(buffer: Bytes, s: Bytes) returns (r: Bytes)
    ensures r == buffer + StringBytes(Cut(s))
  {
    var len := |s| % UINT16_LIMIT;
    r := AppendUint(buffer, 2, len);
    ghost var start := r;
    var i := 0;
    while i < len
      invariant i <= len && r == start + s[..i]
    {
      r := r + [s[i]];
      i := i + 1;
    }
  }

  method SerializeColumn(buffer: Bytes, c: Column) returns (r: Bytes)
    ensures r == buffer + ColumnBytes(c)
  {
    r := buffer + [TypeByte(c.dataType)];
    r := SerializeString(r, c.name);
    r := AppendBool(r, c.isPrimaryKey);
    r := AppendBool(r, c.isNullable);
  }

  lemma {:induction false} ColumnsSnoc(columns: seq<Column>, i: nat)
    requires i < |columns|
    ensures ColumnsBytes(columns[..i + 1]) == ColumnsBytes(columns[..i]) + ColumnBytes(columns[i])
    decreases |columns|
  {
    if i == 0 {
      assert columns[..1][1..] == [];
    } else {
      assert columns[..i + 1][1..] == columns[1..][..i];
      assert columns[..i][1..] == columns[1..][..i - 1];
      ColumnsSnoc(columns[1..], i - 1);
    }
  }

  method SerializeColumns(buffer: Bytes, columns: seq<Column>, n: nat) returns (r: Bytes)
    requires n <= |columns|
    ensures r == buffer + ColumnsBytes(columns[..n])
  {
    r := buffer;
    var i := 0;
    while i < n
      invariant i <= n && r == buffer + ColumnsBytes(columns[..i])
    {
      ColumnsSnoc(columns, i);
      r := SerializeColumn(r, columns[i]);
      i := i + 1;
    }
  }

  method SerializeTable(t: Table, root: PageNo) returns (r: Bytes)
    ensures r == TableBytes(t, root)
  {
    r := [t.schemaType];
    r := SerializeString(r, t.name);
    r := SerializeString(r, t.tblName);
    r := AppendUint(r, 8, root);
    var numCols := |t.columns| % UINT16_LIMIT;
    r := AppendUint(r, 2, numCols);
    r := SerializeColumns(r, t.columns, numCols);
  }

  // ---------- decoding ----------

  function ReadUintAt(bytes: Bytes, offset: nat, n: nat): Read<nat> {
    if Fits(bytes, offset, n) then Read(FromBigEndian(bytes[offset..offset + n]), offset + n) else Underflow
  }

  function DecodeString(bytes: Bytes, offset: nat): Read<Bytes> {
    match ReadUintAt(bytes, offset, 2)
    case Underflow => Underflow
    case Read(n, at) => if Fits(bytes, at, n) then Read(bytes[at..at + n], at + n) else Underflow
  }

  function DecodeType(b: Byte): Option<DataType> {
    if b == 1 then Some(INTEGER) else if b == 2 then Some(BOOLEAN) else if b == 3 then Some(TEXT) else None
  }

  function DecodeColumn(bytes: Bytes, offset: nat): Read<Column> {
    if !Fits(bytes, offset, 1) || DecodeType(bytes[offset]) == None then Underflow
    else
      match DecodeString(bytes, offset + 1)
      case Underflow => Underflow
      case Read(name, at) =>
        if Fits(bytes, at, 2) then
          Read(Column(DecodeType(bytes[offset]).value, name, bytes[at] != 0, bytes[at + 1] != 0), at + 2)
        else Underflow
  }

  function DecodeColumns(bytes: Bytes, offset: nat, n: nat): Read<seq<Column>>
    decreases n
  {
    if n == 0 then Read([], offset)
    else
      match DecodeColumn(bytes, offset)
      case Underflow => Underflow
      case Read(c, at) =>
        AfterColumns([c], DecodeColumns(bytes, at, n - 1))
  }

  function AfterColumns(columns: seq<Column>, rest: Read<seq<Column>>): Read<seq<Column>> {
    match rest
    case Underflow => Underflow
    case Read(more, end) => Read(columns + more, end)
  }

  /** The root page and the columns. */
  function DecodeTail(bytes: Bytes, offset: nat): Read<(nat, seq<Column>)> {
    match ReadUintAt(bytes, offset, 8)
    case Underflow => Underflow
    case Read(root, at) =>
      match ReadUintAt(bytes, at, 2)
      case Underflow => Underflow
      case Read(n, at') =>
        match DecodeColumns(bytes, at', n)
        case Underflow => Underflow
        case Read(columns, end) => Read((root, columns), end)
  }

  /** The table and the root page, if they take exactly all bytes. */
  function DecodeTable(bytes: Bytes): Option<(Table, nat)> {
    if !Fits(bytes, 0, 1) then None
    else
      match DecodeString(bytes, 1)
      case Underflow => None
      case Read(name, at1) =>
        match DecodeString(bytes, at1)
        case Underflow => None
        case Read(tblName, at2) =>
          match DecodeTail(bytes, at2)
          case Underflow => None
          case Read((root, columns), end) =>
            if end == |bytes| then Some((Table(bytes[0], name, tblName, columns), root)) else None
  }

  method DeserializeString(bytes: Bytes, offset: nat) returns (r: Read<Bytes>)
    ensures r == DecodeString(bytes, offset)
  {
    var n := ReadUint16(bytes, offset);
    if n == Underflow {
      return Underflow;
    }
    r := ReadStr(bytes, n.value, n.offset);
  }

  method DeserializeColumn(bytes: Bytes, offset: nat) returns (r: Read<Column>)
    ensures r == DecodeColumn(bytes, offset)
  {
    if offset >= |bytes| || DecodeType(bytes[offset]) == None {
      return Underflow;
    }
    var name := DeserializeString(bytes, offset + 1);
    if name == Underflow || name.offset + 2 > |bytes| {
      return Underflow;
    }
    var at := name.offset;
    return Read(Column(DecodeType(bytes[offset]).value, name.value, bytes[at] != 0, bytes[at + 1] != 0), at + 2);
  }

  lemma AfterColumnsStep(columns: seq<Column>, c: Column, rest: Read<seq<Column>>)
    ensures AfterColumns(columns, AfterColumns([c], rest)) == AfterColumns(columns + [c], rest)
  {
    if rest.Read? {
      assert columns + ([c] + rest.value) == columns + [c] + rest.value;
    }
  }

  /** One column more of those that the whole reading is made of. */
  lemma ColumnsStep(whole: Read<seq<Column>>, columns: seq<Column>, bytes: Bytes, offset: nat, n: nat)
    requires n > 0 && whole == AfterColumns(columns, DecodeColumns(bytes, offset, n))
    ensures match DecodeColumn(bytes, offset)
            case Underflow => whole == Underflow
            case Read(c, at) => whole == AfterColumns(columns + [c], DecodeColumns(bytes, at, n - 1))
  {
    var first := DecodeColumn(bytes, offset);
    if first.Read? { AfterColumnsStep(columns, first.value, DecodeColumns(bytes, first.offset, n - 1)); }
  }

  lemma ColumnsEnds(columns: seq<Column>, bytes: Bytes, offset: nat)
    ensures AfterColumns(columns, DecodeColumns(bytes, offset, 0)) == Read(columns, offset)
  {
    assert columns + [] == columns;
  }

  lemma ColumnsBegin(whole: Read<seq<Column>>)
    ensures AfterColumns([], whole) == whole
  {
    if whole.Read? { assert [] + whole.value == whole.value; }
  }

  method DeserializeColumns(bytes: Bytes, start: nat, n: nat) returns (r: Read<seq<Column>>)
    ensures r == DecodeColumns(bytes, start, n)
  {
    var columns: seq<Column> := [];
    var offset := start;
    var i := 0;
    ghost var whole := DecodeColumns(bytes, start, n);
    ColumnsBegin(whole);
    while i < n
      invariant i <= n
      invariant whole == AfterColumns(columns, DecodeColumns(bytes, offset, n - i))
    {
      ColumnsStep(whole, columns, bytes, offset, n - i);
      var c := DeserializeColumn(bytes, offset);
      if c == Underflow {
        return Underflow;
      }
      columns := columns + [c.value];
      offset := c.offset;
      i := i + 1;
    }
    ColumnsEnds(columns, bytes, offset);
    return Read(columns, offset);
  }

  /** Nothing where the program would read behind the payload or fail its final assertion. */
  method DeserializeTable(bytes: Bytes) returns (r: Option<(Table, nat)>)
    ensures r == DecodeTable(bytes)
  {
    if |bytes| == 0 {
      return None;
    }
    var name := DeserializeString(bytes, 1);
    if name == Underflow {
      return None;
    }
    var tblName := DeserializeString(bytes, name.offset);
    if tblName == Underflow {
      return None;
    }
    var tail := DeserializeTail(bytes, tblName.offset);
    if tail == Underflow || tail.offset != |bytes| {
      return None;
    }
    var (root, columns) := tail.value;
    return Some((Table(bytes[0], name.value, tblName.value, columns), root));
  }

  method DeserializeTail(bytes: Bytes, offset: nat) returns (r: Read<(nat, seq<Column>)>)
    ensures r == DecodeTail(bytes, offset)
  {
    var root := ReadUint64(bytes, offset);
    if root == Underflow {
      return Underflow;
    }
    var n := ReadUint16(bytes, root.offset);
    if n == Underflow {
      return Underflow;
    }
    var columns := DeserializeColumns(bytes, n.offset, n.value);
    if columns == Underflow {
      return Underflow;
    }
    return Read((root.value, columns.value), columns.offset);
  }

  // ---------- the round trip ----------

  lemma UintRoundTrip(bytes: Bytes, offset: nat, v: nat, n: nat, rest: Bytes)
    requires offset <= |bytes| && bytes[offset..] == BigEndian(v, n) + rest
    ensures ReadUintAt(bytes, offset, n) == Read(v % Power256(n), offset + n) && bytes[offset + n..] == rest
  {
    Slices(bytes, offset, BigEndian(v, n), rest);
    DigitsRoundTrip(v, n);
  }

  lemma Uint16RoundTrip(bytes: Bytes, offset: nat, v: nat, rest: Bytes)
    requires v < UINT16_LIMIT && offset <= |bytes| && bytes[offset..] == BigEndian(v, 2) + rest
    ensures ReadUintAt(bytes, offset, 2) == Read(v, offset + 2) && bytes[offset + 2..] == rest
  {
    Powers();
    UintRoundTrip(bytes, offset, v, 2, rest);
  }

  lemma Uint64RoundTrip(bytes: Bytes, offset: nat, v: nat, rest: Bytes)
    requires offset <= |bytes| && bytes[offset..] == BigEndian(v, 8) + rest
    ensures ReadUintAt(bytes, offset, 8) == Read(v % UINT64_LIMIT, offset + 8) && bytes[offset + 8..] == rest
  {
    Powers();
    UintRoundTrip(bytes, offset, v, 8, rest);
  }

  lemma StringRoundTrip(bytes: Bytes, offset: nat, s: Bytes, rest: Bytes)
    requires |s| < UINT16_LIMIT && offset <= |bytes| && bytes[offset..] == StringBytes(s) + rest
    ensures DecodeString(bytes, offset) == Read(s, offset + 2 + |s|)
    ensures offset + 2 + |s| <= |bytes| && bytes[offset + 2 + |s|..] == rest
  {
    assert bytes[offset..] == BigEndian(|s|, 2) + (s + rest);
    Uint16RoundTrip(bytes, offset, |s|, s + rest);
    Slices(bytes, offset + 2, s, rest);
  }

  function CutColumn(c: Column): Column {
    c.(name := Cut(c.name))
  }

  lemma ColumnRoundTrip(bytes: Bytes, offset: nat, c: Column, rest: Bytes)
    requires offset <= |bytes| && bytes[offset..] == ColumnBytes(c) + rest
    ensures DecodeColumn(bytes, offset) == Read(CutColumn(c), offset + |ColumnBytes(c)|)
    ensures offset + |ColumnBytes(c)| <= |bytes| && bytes[offset + |ColumnBytes(c)|..] == rest
  {
    var name, flags := Cut(c.name), BoolBytes(c.isPrimaryKey) + BoolBytes(c.isNullable);
    assert bytes[offset..] == [TypeByte(c.dataType)] + (StringBytes(name) + (flags + rest));
    FirstByte(bytes, offset, TypeByte(c.dataType), StringBytes(name) + (flags + rest));
    StringRoundTrip(bytes, offset + 1, name, flags + rest);
    var at := offset + 3 + |name|;
    FlagsRoundTrip(bytes, at, c, rest);
    ColumnRead(bytes, offset, c, at);
  }

  lemma FirstByte(bytes: Bytes, offset: nat, b: Byte, rest: Bytes)
    requires offset <= |bytes| && bytes[offset..] == [b] + rest
    ensures offset < |bytes| && bytes[offset] == b && bytes[offset + 1..] == rest
  {
    assert bytes[offset] == bytes[offset..][0];
    assert bytes[offset + 1..] == bytes[offset..][1..];
  }

  lemma FlagsRoundTrip(bytes: Bytes, at: nat, c: Column, rest: Bytes)
    requires at <= |bytes| && bytes[at..] == BoolBytes(c.isPrimaryKey) + BoolBytes(c.isNullable) + rest
    ensures at + 2 <= |bytes| && bytes[at + 2..] == rest
    ensures (bytes[at] != 0 <==> c.isPrimaryKey) && (bytes[at + 1] != 0 <==> c.isNullable)
  {
    assert bytes[at..] == BoolBytes(c.isPrimaryKey) + (BoolBytes(c.isNullable) + rest);
    FirstByte(bytes, at, BoolBytes(c.isPrimaryKey)[0], BoolBytes(c.isNullable) + rest);
    FirstByte(bytes, at + 1, BoolBytes(c.isNullable)[0], rest);
  }

  lemma ColumnRead(bytes: Bytes, offset: nat, c: Column, at: nat)
    requires offset < |bytes| && bytes[offset] == TypeByte(c.dataType)
    requires DecodeString(bytes, offset + 1) == Read(Cut(c.name), at) && at + 2 <= |bytes|
    requires (bytes[at] != 0 <==> c.isPrimaryKey) && (bytes[at + 1] != 0 <==> c.isNullable)
    ensures DecodeColumn(bytes, offset) == Read(CutColumn(c), at + 2)
  {
  }

  function CutColumns(columns: seq<Column>): seq<Column> {
    if columns == [] then [] else [CutColumn(columns[0])] + CutColumns(columns[1..])
  }

  lemma {:induction false} CutColumnsSame(columns: seq<Column>)
    ensures |CutColumns(columns)| == |columns|
    ensures CutColumns(columns) == columns <==> forall i :: 0 <= i < |columns| ==> |columns[i].name| < UINT16_LIMIT
    decreases |columns|
  {
    if columns != [] {
      CutColumnsSame(columns[1..]);
      assert columns == [columns[0]] + columns[1..];
      assert CutColumns(columns)[1..] == CutColumns(columns[1..]);
    }
  }

  lemma {:induction false} ColumnsRoundTrip(bytes: Bytes, offset: nat, columns: seq<Column>)
    requires offset <= |bytes| && bytes[offset..] == ColumnsBytes(columns)
    ensures DecodeColumns(bytes, offset, |columns|) == Read(CutColumns(columns), |bytes|)
    decreases |columns|
  {
    if columns != [] {
      var at := ReadFirst(bytes, offset, columns);
      ColumnsRoundTrip(bytes, at, columns[1..]);
      FirstColumn(bytes, offset, at, columns);
    }
  }

  /** The first column is read, and the others follow it. */
  lemma ReadFirst(bytes: Bytes, offset: nat, columns: seq<Column>) returns (at: nat)
    requires offset <= |bytes| && columns != [] && bytes[offset..] == ColumnsBytes(columns)
    ensures DecodeColumn(bytes, offset) == Read(CutColumn(columns[0]), at)
    ensures at <= |bytes| && bytes[at..] == ColumnsBytes(columns[1..])
  {
    at := offset + |ColumnBytes(columns[0])|;
    FirstBytes(columns);
    ColumnRoundTrip(bytes, offset, columns[0], ColumnsBytes(columns[1..]));
  }

  lemma FirstBytes(columns: seq<Column>)
    requires columns != []
    ensures ColumnsBytes(columns) == ColumnBytes(columns[0]) + ColumnsBytes(columns[1..])
  {
  }

  lemma FirstColumn(bytes: Bytes, offset: nat, at: nat, columns: seq<Column>)
    requires columns != [] && DecodeColumn(bytes, offset) == Read(CutColumn(columns[0]), at)
    requires DecodeColumns(bytes, at, |columns[1..]|) == Read(CutColumns(columns[1..]), |bytes|)
    ensures DecodeColumns(bytes, offset, |columns|) == Read(CutColumns(columns), |bytes|)
  {
  }

  /** What of a table is written. */
  function CutTable(t: Table): Table {
    Table(t.schemaType, Cut(t.name), Cut(t.tblName), CutColumns(Cut(t.columns)))
  }

  /** Names and the column list are short enough for their 16-bit lengths. */
  predicate ShortTable(t: Table) {
    && |t.name| < UINT16_LIMIT && |t.tblName| < UINT16_LIMIT && |t.columns| < UINT16_LIMIT
    && forall i :: 0 <= i < |t.columns| ==> |t.columns[i].name| < UINT16_LIMIT
  }

  lemma WrittenTable(t: Table)
    ensures CutTable(t) == t <==> ShortTable(t)
  {
    CutColumnsSame(Cut(t.columns));
  }

  /** What is read back is short. */
  lemma CutIsShort(t: Table)
    ensures ShortTable(CutTable(t))
  {
    CutColumnsShort(Cut(t.columns));
  }

  lemma {:induction false} CutColumnsShort(columns: seq<Column>)
    ensures |CutColumns(columns)| == |columns|
    ensures forall i :: 0 <= i < |columns| ==> |CutColumns(columns)[i].name| < UINT16_LIMIT
    decreases |columns|
  {
    if columns != [] {
      CutColumnsShort(columns[1..]);
    }
  }

  /** The 64 bits of the root page that are read back are those that were written. */
  lemma SameTableBytes(t: Table, root: PageNo)
    ensures TableBytes(t, root % UINT64_LIMIT) == TableBytes(t, root)
  {
    Powers();
    SameDigits(root, 8);
  }

  /** Decoding gives back 64 bits of the root page and what of the table was written: both as
      they were if and only if the root page fits 64 bits and all lengths fit 16 bits. */
  lemma TableRoundTrip(t: Table, root: PageNo)
    ensures DecodeTable(TableBytes(t, root)) == Some((CutTable(t), root % UINT64_LIMIT))
    ensures CutTable(t) == t <==> ShortTable(t)
    ensures DecodeTable(TableBytes(t, root)) == Some((t, root)) <==> ShortTable(t) && root < UINT64_LIMIT
  {
    DecodeWritten(t, root);
    WrittenTable(t);
  }

  lemma DecodeWritten(t: Table, root: PageNo)
    ensures DecodeTable(TableBytes(t, root)) == Some((CutTable(t), root % UINT64_LIMIT))
  {
    var bytes := TableBytes(t, root);
    var name, tblName, columns := Cut(t.name), Cut(t.tblName), Cut(t.columns);
    var tail := TailBytes(root, columns);
    assert bytes[0..] == bytes;
    Slices(bytes, 0, [t.schemaType], StringBytes(name) + (StringBytes(tblName) + tail));
    StringRoundTrip(bytes, 1, name, StringBytes(tblName) + tail);
    var at1 := 1 + 2 + |name|;
    StringRoundTrip(bytes, at1, tblName, tail);
    var at2 := at1 + 2 + |tblName|;
    TailRoundTrip(bytes, at2, root, columns);
    Assemble(bytes, name, at1, tblName, at2, root % UINT64_LIMIT, columns);
  }

  lemma Assemble(bytes: Bytes, name: Bytes, at1: nat, tblName: Bytes, at2: nat, root: nat, columns: seq<Column>)
    requires |bytes| > 0 && DecodeString(bytes, 1) == Read(name, at1) && DecodeString(bytes, at1) == Read(tblName, at2)
    requires ReadUintAt(bytes, at2, 8) == Read(root, at2 + 8)
             && ReadUintAt(bytes, at2 + 8, 2) == Read(|columns|, at2 + 10)
    requires DecodeColumns(bytes, at2 + 10, |columns|) == Read(CutColumns(columns), |bytes|)
    ensures DecodeTable(bytes) == Some((Table(bytes[0], name, tblName, CutColumns(columns)), root))
  {
    assert DecodeTail(bytes, at2) == Read((root, CutColumns(columns)), |bytes|);
  }

  function TailBytes(root: PageNo, columns: seq<Column>): Bytes {
    BigEndian(root, 8) + (BigEndian(|columns|, 2) + ColumnsBytes(columns))
  }

  lemma TailRoundTrip(bytes: Bytes, offset: nat, root: PageNo, columns: seq<Column>)
    requires |columns| < UINT16_LIMIT
    requires offset <= |bytes| && bytes[offset..] == TailBytes(root, columns)
    ensures ReadUintAt(bytes, offset, 8) == Read(root % UINT64_LIMIT, offset + 8)
    ensures ReadUintAt(bytes, offset + 8, 2) == Read(|columns|, offset + 10)
    ensures DecodeColumns(bytes, offset + 10, |columns|) == Read(CutColumns(columns), |bytes|)
  {
    Uint64RoundTrip(bytes, offset, root, BigEndian(|columns|, 2) + ColumnsBytes(columns));
    Uint16RoundTrip(bytes, offset + 8, |columns|, ColumnsBytes(columns));
    ColumnsRoundTrip(bytes, offset + 10, columns);
  }
}
