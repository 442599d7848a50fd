/**
 Rows as bytes: a header, a bitmap of nulls when a column may be null, and the values in column
 order (lib/record/record.cpp, lib/record/record.h). The methods are the program's loops; the
 functions say what they compute, and the lemmas that decoding undoes encoding.
 */
module RecordModel {
  import opened Pages
  import opened Encoding

  datatype DataType = INTEGER | BOOLEAN | TEXT

  datatype Column = Column(dataType: DataType, name: Bytes, isPrimaryKey: bool, isNullable: bool)

  datatype Value = Null | Integer(v: Int64) | Text(text: Bytes) | Bool(b: bool)

  type Row = seq<Value>

  const ROW_HASNULL: nat := 1

  datatype SerializeResult = Serialized(bytes: Bytes) | NullViolation

  // ---------- the null bitmap ----------

  /** `1 << b` for a bit of a byte. */
  function Mask(b: nat): bv8 {
    if b == 0 then 1 else if b == 1 then 2 else if b == 2 then 4 else if b == 3 then 8
    else if b == 4 then 16 else if b == 5 then 32 else if b == 6 then 64 else 128
  }

  predicate HasBit(x: bv8, b: nat) {
    x & Mask(b) != 0
  }

  /** Bit `i` of a bitmap, eight to a byte, least significant first. */
  predicate BitAt(bits: seq<bv8>, i: nat)
    requires i / 8 < |bits|
  {
    HasBit(bits[i / 8], i % 8)
  }

  function BitmapSize(n: nat): nat {
    (n + 7) / 8
  }

  function ToByte(x: bv8): Byte {
    x as int as Byte
  }

  function BitmapBytes(bits: seq<bv8>): (r: Bytes)
    ensures |r| == |bits| && forall i :: 0 <= i < |bits| ==> r[i] == ToByte(bits[i])
  {
    seq(|bits|, i requires 0 <= i < |bits| => ToByte(bits[i]))
  }

  function FromByte(x: Byte): bv8 {
    x as bv8
  }

  function BitmapAt(bytes: Bytes, offset: nat, size: nat): (r: seq<bv8>)
    requires offset + size <= |bytes|
    ensures |r| == size
  {
    seq(size, i requires 0 <= i < size => FromByte(bytes[offset + i]))
  }

  lemma BitmapRoundTrip(bytes: Bytes, offset: nat, bits: seq<bv8>)
    requires offset + |bits| <= |bytes| && bytes[offset..offset + |bits|] == BitmapBytes(bits)
    ensures BitmapAt(bytes, offset, |bits|) == bits
  {
    forall i | 0 <= i < |bits|
      ensures FromByte(bytes[offset + i]) == bits[i]
    {
      assert bytes[offset + i] == bytes[offset..offset + |bits|][i];
    }
  }

  lemma SetOneBit(x: bv8, b: nat, c: nat)
    requires b < 8 && c < 8
    ensures HasBit(x | Mask(b), c) <==> c == b || HasBit(x, c)
  {
  }

  /** Sets one bit and leaves the others. */
  method SetBit(bits: seq<bv8>, idx: nat) returns (r: seq<bv8>)
    requires idx / 8 < |bits|
    ensures |r| == |bits|
    ensures forall i: nat :: i / 8 < |bits| ==> (BitAt(r, i) <==> i == idx || BitAt(bits, i))
  {
    r := bits[idx / 8 := bits[idx / 8] | Mask(idx % 8)];
    forall i: nat | i / 8 < |bits|
      ensures BitAt(r, i) <==> i == idx || BitAt(bits, i)
    {
      SetOneBit(bits[idx / 8], idx % 8, i % 8);
    }
  }

  /** The bits of the null values among the first `n`, and no other bit. */
  ghost predicate MarksNulls(bits: seq<bv8>, row: Row, n: nat)
    requires n <= |row|
  {
    && |bits| == BitmapSize(|row|)
    && forall i: nat :: i / 8 < |bits| ==> (BitAt(bits, i) <==> i < n && row[i].Null?)
  }

  // ---------- encoding ----------

  function EncodeValue(v: Value): Bytes {
    match v
    case Null => []
    case Integer(i) => BigEndian(ToUint64(i), 8)
    case Bool(b) => BoolBytes(b)
    case Text(s) => BigEndian(|s|, 4) + s
  }

  function EncodeValues(row: Row): Bytes {
    if row == [] then [] else EncodeValue(row[0]) + EncodeValues(row[1..])
  }

  predicate AnyNullable(columns: seq<Column>) {
    exists i :: 0 <= i < |columns| && columns[i].isNullable
  }

  function Header(columns: seq<Column>): Bytes {
    BigEndian(0, 8) + BigEndian(0, 8) + BigEndian(if AnyNullable(columns) then ROW_HASNULL else 0, 2)
  }

  ghost predicate IsEncoding(bytes: Bytes, row: Row, columns: seq<Column>) {
    exists bits :: MarksNulls(bits, row, |row|)
      && bytes == Header(columns) + (if AnyNullable(columns) then BitmapBytes(bits) else []) + EncodeValues(row)
  }

  predicate ViolatesNull(row: Row, columns: seq<Column>)
    requires |row| == |columns|
  {
    exists i :: 0 <= i < |row| && row[i].Null? && !columns[i].isNullable
  }

  predicate TextFits(v: Value) {
    v.Text? ==> |v.text| < UINT32_LIMIT
  }

  method SerializeValue(buf: Bytes, v: Value) returns (r: Bytes)
    requires TextFits(v)
    ensures r == buf + EncodeValue(v)
  {
    match v
    case Null => return buf;
    case Integer(i) => r := AppendUint(buf, 8, ToUint64(i));
    case Bool(b) => r := AppendBool(buf, b);
    case Text(s) =>
      r := AppendUint(buf, 4, |s|);
      r := r + s;
  }

  method BuildFlags(columns: seq<Column>) returns (flags: nat)
    ensures flags == if AnyNullable(columns) then ROW_HASNULL else 0
  {
    flags := 0;
    var i := 0;
    while i < |columns|
      invariant i <= |columns| && (flags == 0 || flags == ROW_HASNULL)
      invariant flags == ROW_HASNULL <==> exists j :: 0 <= j < i && columns[j].isNullable
    {
      if columns[i].isNullable {
        flags := ROW_HASNULL;
      }
      i := i + 1;
    }
  }

  method SerializeHeader(flags: nat) returns (buffer: Bytes)
    ensures buffer == BigEndian(0, 8) + BigEndian(0, 8) + BigEndian(flags, 2)
  {
    buffer := AppendUint([], 8, 0);
    buffer := AppendUint(buffer, 8, 0);
    buffer := AppendUint(buffer, 2, flags);
  }

  /** The row has as many values as the table has columns, and no text of 2^32 bytes; the program
      asserts both. */
  method Serialize(row: Row, columns: seq<Column>) returns (r: SerializeResult)
    requires |row| == |columns| && forall i :: 0 <= i < |row| ==> TextFits(row[i])
    ensures r == NullViolation <==> ViolatesNull(row, columns)
    ensures r != NullViolation ==> IsEncoding(r.bytes, row, columns)
  {
    var flags := BuildFlags(columns);
    var buffer := SerializeHeader(flags);
    var nullbytes, values, ok := SerializeColumns(row, columns);
    if !ok {
      return NullViolation;
    }
    if flags == ROW_HASNULL {
      buffer := buffer + BitmapBytes(nullbytes);
    }
    buffer := buffer + values;
    return Serialized(buffer);
  }

  /** The bitmap and the values, column by column. */
  method SerializeColumns(row: Row, columns: seq<Column>) returns (nullbytes: seq<bv8>, values: Bytes, ok: bool)
    requires |row| == |columns| && forall i :: 0 <= i < |row| ==> TextFits(row[i])
    ensures ok <==> !ViolatesNull(row, columns)
    ensures ok ==> MarksNulls(nullbytes, row, |row|) && values == EncodeValues(row)
  {
    nullbytes, values := seq(BitmapSize(|columns|), _ => 0 as bv8), [];
    var i := 0;
    while i < |row|
      invariant i <= |row|
      invariant MarksNulls(nullbytes, row, i)
      invariant values == EncodeValues(row[..i])
      invariant forall j :: 0 <= j < i && row[j].Null? ==> columns[j].isNullable
    {
      EncodeValuesSnoc(row, i);
      if row[i].Null? && !columns[i].isNullable {
        return nullbytes, values, false;
      } else if row[i].Null? {
        nullbytes := SetBit(nullbytes, i);
      } else {
        values := SerializeValue(values, row[i]);
      }
      i := i + 1;
    }
    assert row[..i] == row;
    return nullbytes, values, true;
  }

  // ---------- decoding ----------

  function DecodeValue(bytes: Bytes, offset: nat, ty: DataType): Read<Value> {
    match ty
    case BOOLEAN =>
      if Fits(bytes, offset, 1) then Read(Bool(bytes[offset] != 0), offset + 1) else Underflow
    case INTEGER =>
      if Fits(bytes, offset, 8) then
        Read(Integer(ToInt64(FromBigEndian(bytes[offset..offset + 8]))), offset + 8)
      else Underflow
    case TEXT =>
      if Fits(bytes, offset, 4) then
        var n := FromBigEndian(bytes[offset..offset + 4]);
        if Fits(bytes, offset + 4, n) then Read(Text(bytes[offset + 4..offset + 4 + n]), offset + 4 + n) else Underflow
      else Underflow
  }

  function DecodeColumn(bytes: Bytes, offset: nat, ty: DataType, isNull: bool): Read<Value> {
    if isNull then Read(Null, offset) else DecodeValue(bytes, offset, ty)
  }

  /** The columns from `i` on. */
  function DecodeFrom(bytes: Bytes, offset: nat, columns: seq<Column>, i: nat, nulls: seq<bool>): Read<Row>
    requires i <= |columns| == |nulls|
    decreases |columns| - i
  {
    if i == |columns| then Read([], offset)
    else
      match DecodeColumn(bytes, offset, columns[i].dataType, nulls[i])
      case Underflow => Underflow
      case Read(v, next) => Before([v], DecodeFrom(bytes, next, columns, i + 1, nulls))
  }

  function Before(row: Row, rest: Read<Row>): Read<Row> {
    match rest
    case Underflow => Underflow
    case Read(more, offset) => Read(row + more, offset)
  }

  /** What a null bitmap says of `n` columns; without one, no value is null. */
  function Nulls(bits: Option<seq<bv8>>, n: nat): (r: seq<bool>)
    requires bits.Some? ==> BitmapSize(n) <= |bits.value|
    ensures |r| == n
    ensures forall i :: 0 <= i < n ==> (r[i] <==> bits.Some? && BitAt(bits.value, i))
  {
    if n == 0 then [] else Nulls(bits, n - 1) + [bits.Some? && BitAt(bits.value, n - 1)]
  }

  function DecodeRow(bytes: Bytes, columns: seq<Column>): Read<Row> {
    var n := |columns|;
    if !Fits(bytes, 0, 18) then Underflow
    else if FromBigEndian(bytes[16..18]) % 2 != ROW_HASNULL then
      DecodeFrom(bytes, 18, columns, 0, Nulls(None, n))
    else if !Fits(bytes, 18, BitmapSize(n)) then Underflow
    else DecodeFrom(bytes, 18 + BitmapSize(n), columns, 0, Nulls(Some(BitmapAt(bytes, 18, BitmapSize(n))), n))
  }

  method DeserializeValue(bytes: Bytes, offset: nat, ty: DataType) returns (r: Read<Value>)
    ensures r == DecodeValue(bytes, offset, ty)
  {
    match ty
    case BOOLEAN =>
      var u := ReadUint8(bytes, offset);
      if u == Underflow {
        return Underflow;
      }
      assert bytes[offset..offset + 1][..0] == [];
      return Read(Bool(u.value != 0), u.offset);
    case INTEGER =>
      var u := ReadUint64(bytes, offset);
      if u == Underflow {
        return Underflow;
      }
      return Read(Integer(ToInt64(u.value)), u.offset);
    case TEXT =>
      var u := ReadUint32(bytes, offset);
      if u == Underflow {
        return Underflow;
      }
      var s := ReadStr(bytes, u.value, u.offset);
      if s == Underflow {
        return Underflow;
      }
      return Read(Text(s.value), s.offset);
  }

  /** With more than 65535 columns the program's 16-bit loop counter never gets to the end. */
  method Deserialize(bytes: Bytes, columns: seq<Column>) returns (r: Read<Row>)
    requires |columns| < UINT16_LIMIT
    ensures r == DecodeRow(bytes, columns)
  {
    var xmin := ReadUint64(bytes, 0);
    if xmin == Underflow {
      return Underflow;
    }
    var xmax := ReadUint64(bytes, xmin.offset);
    if xmax == Underflow {
      return Underflow;
    }
    var flags := ReadUint16(bytes, xmax.offset);
    if flags == Underflow {
      return Underflow;
    }
    var offset: nat := flags.offset;
    var bitmap: Option<seq<bv8>> := None;
    if flags.value % 2 == ROW_HASNULL {
      if !Fits(bytes, offset, BitmapSize(|columns|)) {
        return Underflow;
      }
      bitmap := Some(BitmapAt(bytes, offset, BitmapSize(|columns|)));
      offset := offset + BitmapSize(|columns|);
    }
    r := DeserializeColumns(bytes, offset, columns, bitmap);
  }

  method IsNull(bitmap: Option<seq<bv8>>, col: nat, n: nat) returns (r: bool)
    requires col < n && (bitmap.Some? ==> |bitmap.value| == BitmapSize(n))
    ensures r == Nulls(bitmap, n)[col]
  {
    return bitmap.Some? && BitAt(bitmap.value, col);
  }

  method DeserializeColumn(bytes: Bytes, offset: nat, ty: DataType, isNull: bool) returns (r: Read<Value>)
    ensures r == DecodeColumn(bytes, offset, ty, isNull)
  {
    if isNull {
      return Read(Null, offset);
    }
    r := DeserializeValue(bytes, offset, ty);
  }

  method DeserializeColumns(bytes: Bytes, start: nat, columns: seq<Column>, bitmap: Option<seq<bv8>>)
    returns (r: Read<Row>)
    requires bitmap.Some? ==> |bitmap.value| == BitmapSize(|columns|)
    ensures r == DecodeFrom(bytes, start, columns, 0, Nulls(bitmap, |columns|))
  {
    ghost var nulls := Nulls(bitmap, |columns|);
    var offset := start;
    var row: Row := [];
    BeforeNone(DecodeFrom(bytes, start, columns, 0, nulls));
    var i := 0;
    while i < |columns|
      invariant i <= |columns|
      invariant DecodeFrom(bytes, start, columns, 0, nulls) == Before(row, DecodeFrom(bytes, offset, columns, i, nulls))
    {
      var isNull := IsNull(bitmap, i, |columns|);
      var v := DeserializeColumn(bytes, offset, columns[i].dataType, isNull);
      if v == Underflow {
        return Underflow;
      }
      BeforeTwice(row, [v.value], DecodeFrom(bytes, v.offset, columns, i + 1, nulls));
      row := row + [v.value];
      offset := v.offset;
      i := i + 1;
    }
    assert row + [] == row;
    return Read(row, offset);
  }

  lemma BeforeNone(rest: Read<Row>)
    ensures Before([], rest) == rest
  {
    if rest.Read? {
      assert [] + rest.value == rest.value;
    }
  }

  lemma BeforeTwice(a: Row, b: Row, rest: Read<Row>)
    ensures Before(a, Before(b, rest)) == Before(a + b, rest)
  {
    if rest.Read? {
      assert a + (b + rest.value) == a + b + rest.value;
    }
  }

  // ---------- the round trip ----------

  predicate HasType(v: Value, c: Column) {
    match v
    case Null => c.isNullable
    case Integer(_) => c.dataType == INTEGER
    case Bool(_) => c.dataType == BOOLEAN
    case Text(s) => c.dataType == TEXT && |s| < UINT32_LIMIT
  }

  predicate WellTyped(row: Row, columns: seq<Column>) {
    |row| == |columns| && forall i :: 0 <= i < |row| ==> HasType(row[i], columns[i])
  }

  lemma ValueRoundTrip(bytes: Bytes, offset: nat, v: Value, c: Column)
    requires HasType(v, c) && !v.Null?
    requires var e := EncodeValue(v); offset + |e| <= |bytes| && bytes[offset..offset + |e|] == e
    ensures DecodeValue(bytes, offset, c.dataType) == Read(v, offset + |EncodeValue(v)|)
  {
    Powers();
    match v
    case Integer(i) => DigitsRoundTrip(ToUint64(i), 8);
    case Bool(b) =>
      assert bytes[offset] == bytes[offset..offset + 1][0];
    case Text(s) =>
      DigitsRoundTrip(|s|, 4);
      var e := EncodeValue(v);
      assert bytes[offset..offset + 4] == e[..4] && bytes[offset + 4..offset + |e|] == e[4..];
  }

  lemma {:induction false} EncodeValuesSnoc(row: Row, i: nat)
    requires i < |row|
    ensures EncodeValues(row[..i + 1]) == EncodeValues(row[..i]) + EncodeValue(row[i])
    decreases |row|
  {
    if i == 0 {
      assert row[..1][1..] == [];
    } else {
      assert row[..i + 1][1..] == row[1..][..i];
      assert row[..i][1..] == row[1..][..i - 1];
      EncodeValuesSnoc(row[1..], i - 1);
    }
  }

  ghost predicate NullsAgree(row: Row, nulls: seq<bool>) {
    |nulls| == |row| && forall i :: 0 <= i < |row| ==> (nulls[i] <==> row[i].Null?)
  }

  lemma Slices(bytes: Bytes, offset: nat, e: Bytes, more: Bytes)
    requires offset <= |bytes| && bytes[offset..] == e + more
    ensures offset + |e| <= |bytes| && bytes[offset..offset + |e|] == e && bytes[offset + |e|..] == more
  {
    assert bytes[offset..offset + |e|] == bytes[offset..][..|e|];
    assert bytes[offset + |e|..] == bytes[offset..][|e|..];
  }

  /** One column: `at` is the offset behind its value. */
  lemma DecodeStep(bytes: Bytes, offset: nat, at: nat, v: Value, columns: seq<Column>, i: nat, nulls: seq<bool>)
    requires i < |columns| == |nulls| && HasType(v, columns[i]) && (nulls[i] <==> v.Null?)
    requires at == offset + |EncodeValue(v)| && at <= |bytes| && bytes[offset..at] == EncodeValue(v)
    ensures DecodeFrom(bytes, offset, columns, i, nulls) == Before([v], DecodeFrom(bytes, at, columns, i + 1, nulls))
  {
    if !v.Null? {
      ValueRoundTrip(bytes, offset, v, columns[i]);
    }
  }

  lemma {:induction false} RestRoundTrip(bytes: Bytes, offset: nat, row: Row, columns: seq<Column>, i: nat,
                                         nulls: seq<bool>)
    requires WellTyped(row, columns) && i <= |row| && NullsAgree(row, nulls)
    requires offset <= |bytes| && bytes[offset..] == EncodeValues(row[i..])
    ensures DecodeFrom(bytes, offset, columns, i, nulls) == Read(row[i..], |bytes|)
    decreases |row| - i
  {
    if i < |row| {
      var v, more := row[i], row[i + 1..];
      assert row[i..][1..] == more && row[i..] == [v] + more;
      assert HasType(v, columns[i]);
      var at := offset + |EncodeValue(v)|;
      Slices(bytes, offset, EncodeValue(v), EncodeValues(more));
      DecodeStep(bytes, offset, at, v, columns, i, nulls);
      RestRoundTrip(bytes, at, row, columns, i + 1, nulls);
    }
  }

  lemma HeaderRoundTrip(bytes: Bytes, columns: seq<Column>, tail: Bytes)
    requires bytes == Header(columns) + tail
    ensures |bytes| == 18 + |tail| && bytes[18..] == tail
    ensures FromBigEndian(bytes[16..18]) == if AnyNullable(columns) then ROW_HASNULL else 0
  {
    var flags := if AnyNullable(columns) then ROW_HASNULL else 0;
    assert bytes[16..18] == BigEndian(flags, 2);
    Powers();
    DigitsRoundTrip(flags, 2);
  }

  lemma MarkedNulls(bits: seq<bv8>, row: Row)
    requires MarksNulls(bits, row, |row|)
    ensures NullsAgree(row, Nulls(Some(bits), |row|))
  {
    assert forall i :: 0 <= i < |row| ==> (BitAt(bits, i) <==> row[i].Null?);
  }

  /** A row without nulls. */
  lemma PlainRoundTrip(bytes: Bytes, row: Row, columns: seq<Column>)
    requires WellTyped(row, columns) && !AnyNullable(columns)
    requires bytes == Header(columns) + EncodeValues(row)
    ensures DecodeRow(bytes, columns) == Read(row, |bytes|)
  {
    HeaderRoundTrip(bytes, columns, EncodeValues(row));
    assert forall i :: 0 <= i < |row| ==> HasType(row[i], columns[i]);
    assert row[0..] == row;
    RestRoundTrip(bytes, 18, row, columns, 0, Nulls(None, |columns|));
  }

  lemma NullableRoundTrip(bytes: Bytes, row: Row, columns: seq<Column>, bits: seq<bv8>)
    requires WellTyped(row, columns) && AnyNullable(columns) && MarksNulls(bits, row, |row|)
    requires bytes == Header(columns) + (BitmapBytes(bits) + EncodeValues(row))
    ensures DecodeRow(bytes, columns) == Read(row, |bytes|)
  {
    HeaderRoundTrip(bytes, columns, BitmapBytes(bits) + EncodeValues(row));
    Slices(bytes, 18, BitmapBytes(bits), EncodeValues(row));
    BitmapRoundTrip(bytes, 18, bits);
    MarkedNulls(bits, row);
    assert row[0..] == row;
    RestRoundTrip(bytes, 18 + |bits|, row, columns, 0, Nulls(Some(bits), |columns|));
  }

  lemma Regroup(a: Bytes, b: Bytes, c: Bytes)
    ensures a + b + c == a + (b + c) && (b == [] ==> a + b + c == a + c)
  {
  }

  /** Decoding an encoded row gives the row back and consumes every byte. */
  lemma RowRoundTrip(bytes: Bytes, row: Row, columns: seq<Column>)
    requires WellTyped(row, columns) && IsEncoding(bytes, row, columns)
    ensures DecodeRow(bytes, columns) == Read(row, |bytes|)
  {
    var bits :| MarksNulls(bits, row, |row|)
      && bytes == Header(columns) + (if AnyNullable(columns) then BitmapBytes(bits) else []) + EncodeValues(row);
    if AnyNullable(columns) {
      Regroup(Header(columns), BitmapBytes(bits), EncodeValues(row));
      NullableRoundTrip(bytes, row, columns, bits);
    } else {
      Regroup(Header(columns), [], EncodeValues(row));
      PlainRoundTrip(bytes, row, columns);
    }
  }

  /** A well-typed row violates no null constraint, so that it is always serialized. */
  lemma WellTypedIsSerialized(row: Row, columns: seq<Column>)
    requires WellTyped(row, columns)
    ensures !ViolatesNull(row, columns) && forall i :: 0 <= i < |row| ==> TextFits(row[i])
  {
    forall i | 0 <= i < |row|
      ensures TextFits(row[i]) && (row[i].Null? ==> columns[i].isNullable)
    {
      assert HasType(row[i], columns[i]);
    }
  }
}
