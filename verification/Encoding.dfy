/**
 Big-endian numbers and strings on byte buffers (lib/encoding.cpp). Append operations extend a
 buffer; read operations return the value and the offset behind it, or nothing where the
 program throws `out_of_range`.
 */
module Encoding {
  import opened Pages

  type Bytes = seq<Byte>

  const UINT16_LIMIT: nat := 0x1_0000
  const UINT64_LIMIT: nat := 0x1_0000_0000_0000_0000
  const INT64_LIMIT: int := 0x8000_0000_0000_0000

  datatype Read<+T> = Read(value: T, offset: nat) | Underflow

  function Power256(n: nat): (r: nat)
    ensures r > 0
  {
    if n == 0 then 1 else 256 * Power256(n - 1)
  }

  /** Digit `i` of `v` to base 256, counted from the least significant one. */
  function Digit(v: nat, i: nat): Byte {
    (v / Power256(i)) % 256
  }

  /** The last `n` base-256 digits of `v`, most significant first. */
  function BigEndian(v: nat, n: nat): (r: Bytes)
    ensures |r| == n
  {
    seq(n, i requires 0 <= i < n => Digit(v, n - 1 - i))
  }

  function FromBigEndian(s: Bytes): nat {
    if s == [] then 0 else FromBigEndian(s[..|s| - 1]) * 256 + s[|s| - 1]
  }

  /** Reading digits gives the number modulo 256 to their count: the number itself if and only if
      it fits. */
  lemma {:induction false} DigitsRoundTrip(v: nat, n: nat)
    ensures FromBigEndian(BigEndian(v, n)) == v % Power256(n)
    ensures FromBigEndian(BigEndian(v, n)) == v <==> v < Power256(n)
  {
    if n > 0 {
      DigitsRoundTrip(v / 256, n - 1);
      LastDigit(v, n);
      ModStep(v, Power256(n - 1));
    }
  }

  lemma ModStep(v: nat, p: nat)
    requires p > 0
    ensures v % (256 * p) == v / 256 % p * 256 + v % 256
  {
    var q, r := v / 256, v % 256;
    var a, b := q / p, q % p;
    assert v == 256 * p * a + (256 * b + r) by {
      assert q == p * a + b;
      assert 256 * q == 256 * p * a + 256 * b;
    }
    QuotientUnique(v, 256 * p, a, 256 * b + r);
  }

  /** Only the last digits are written. */
  lemma SameDigits(v: nat, n: nat)
    ensures BigEndian(v % Power256(n), n) == BigEndian(v, n)
    decreases n
  {
    if n > 0 {
      var p, w := Power256(n - 1), v % Power256(n);
      ModStep(v, p);
      assert w / 256 == v / 256 % p && w % 256 == v % 256;
      SameDigits(v / 256, n - 1);
      LastDigit(v, n);
      LastDigit(w, n);
      assert BigEndian(v, n) == BigEndian(v, n)[..n - 1] + [BigEndian(v, n)[n - 1]];
      assert BigEndian(w, n) == BigEndian(w, n)[..n - 1] + [BigEndian(w, n)[n - 1]];
    }
  }

  lemma LastDigit(v: nat, n: nat)
    requires n > 0
    ensures BigEndian(v, n)[..n - 1] == BigEndian(v / 256, n - 1) && BigEndian(v, n)[n - 1] == v % 256
  {
    var a, b := BigEndian(v, n), BigEndian(v / 256, n - 1);
    forall i | 0 <= i < n - 1
      ensures a[i] == b[i]
    {
      NextDigit(v, n - 2 - i);
    }
    assert Digit(v, 0) == v % 256;
  }

  lemma NextDigit(v: nat, i: nat)
    ensures Digit(v, i + 1) == Digit(v / 256, i)
  {
    DivDiv(v, Power256(i));
  }

  lemma {:induction false} DigitsInRange(s: Bytes)
    ensures FromBigEndian(s) < Power256(|s|)
  {
    if s != [] {
      DigitsInRange(s[..|s| - 1]);
    }
  }

  lemma Powers()
    ensures Power256(2) == UINT16_LIMIT && Power256(4) == UINT32_LIMIT && Power256(8) == UINT64_LIMIT
  {
    assert Power256(3) == 0x100_0000;
    assert Power256(5) == 0x100_0000_0000;
    assert Power256(7) == 0x100_0000_0000_0000;
  }

  lemma DivDiv(v: nat, p: nat)
    requires p > 0
    ensures v / 256 / p == v / (256 * p)
  {
    var q, r := v / 256, v % 256;
    var a, b := q / p, q % p;
    assert v == 256 * p * a + (256 * b + r) by {
      assert q == p * a + b;
      assert 256 * q == 256 * p * a + 256 * b;
    }
    assert 256 * b + r < 256 * p;
    QuotientUnique(v, 256 * p, a, 256 * b + r);
  }

  lemma AtLeastOnce(d: nat, k: nat)
    requires k >= 1
    ensures d * k >= d
  {
    assert d * k == d + d * (k - 1);
  }

  lemma QuotientUnique(v: nat, d: nat, q: nat, r: nat)
    requires d > 0 && v == d * q + r && r < d
    ensures v / d == q && v % d == r
  {
    var q' := v / d;
    assert v == d * q' + v % d;
    assert d * (q - q') == v % d - r;
    if q' < q {
      AtLeastOnce(d, q - q');
    } else if q < q' {
      AtLeastOnce(d, q' - q);
    }
  }

  // ---------- append ----------

  /** The append loops: one byte for each shift by a multiple of eight, the highest first. */
  method AppendUint(buffer: Bytes, n: nat, val: nat) returns (r: Bytes)
    requires n <= 8
    ensures r == buffer + BigEndian(val, n)
  {
    r := buffer;
    ghost var digits := BigEndian(val, n);
    var i: int := n - 1;
    while i >= 0
      invariant -1 <= i < n
      invariant r == buffer + digits[..n - 1 - i]
    {
      r := r + [Digit(val, i)];
      assert digits[..n - i] == digits[..n - 1 - i] + [digits[n - 1 - i]];
      i := i - 1;
    }
    assert digits[..n] == digits;
  }

  method AppendBool(buffer: Bytes, val: bool) returns (r: Bytes)
    ensures r == buffer + BoolBytes(val)
  {
    return buffer + [if val then 1 else 0];
  }

  function BoolBytes(val: bool): Bytes {
    [if val then 1 else 0]
  }

  // ---------- read ----------

  predicate Fits(buffer: Bytes, offset: nat, n: nat) {
    offset + n <= |buffer|
  }

  method ReadUint8(buffer: Bytes, offset: nat) returns (r: Read<nat>)
    ensures r == if Fits(buffer, offset, 1) then Read(FromBigEndian(buffer[offset..offset + 1]), offset + 1)
            else Underflow
  {
    if offset + 1 > |buffer| {
      return Underflow;
    }
    assert buffer[offset..offset + 1][..0] == [];
    return Read(buffer[offset], offset + 1);
  }

  method ReadUint16(buffer: Bytes, offset: nat) returns (r: Read<nat>)
    ensures r == if Fits(buffer, offset, 2) then Read(FromBigEndian(buffer[offset..offset + 2]), offset + 2)
            else Underflow
  {
    if offset + 2 > |buffer| {
      return Underflow;
    }
    Digits2(buffer[offset..offset + 2]);
    return Read(buffer[offset] as nat * 0x100 + buffer[offset + 1], offset + 2);
  }

  method ReadUint32(buffer: Bytes, offset: nat) returns (r: Read<nat>)
    ensures r == if Fits(buffer, offset, 4) then Read(FromBigEndian(buffer[offset..offset + 4]), offset + 4)
            else Underflow
  {
    if offset + 4 > |buffer| {
      return Underflow;
    }
    var b := buffer[offset..offset + 4];
    Digits2(b[..2]);
    assert b[..4] == b && b[..4][..3] == b[..3] && b[..3][..2] == b[..2];
    assert FromBigEndian(b[..3]) == FromBigEndian(b[..2]) * 256 + b[2];
    return Read(b[0] as nat * 0x100_0000 + b[1] as nat * 0x1_0000 + b[2] as nat * 0x100 + b[3], offset + 4);
  }

  method ReadUint64(buffer: Bytes, offset: nat) returns (r: Read<nat>)
    ensures r == if Fits(buffer, offset, 8) then Read(FromBigEndian(buffer[offset..offset + 8]), offset + 8)
            else Underflow
  {
    if offset + 8 > |buffer| {
      return Underflow;
    }
    var val: nat := 0;
    var i := 0;
    while i < 8
      invariant i <= 8 && val == FromBigEndian(buffer[offset..offset + i])
    {
      assert buffer[offset..offset + i + 1][..i] == buffer[offset..offset + i];
      DigitsInRange(buffer[offset..offset + i]);
      val := val * 256 + buffer[offset + i] as nat;
      i := i + 1;
    }
    return Read(val, offset + 8);
  }

  lemma Digits2(b: Bytes)
    requires |b| == 2
    ensures FromBigEndian(b) == b[0] as nat * 256 + b[1]
  {
    assert b[..1][..0] == [];
    assert FromBigEndian(b[..1]) == b[0];
  }

  method ReadStr(buffer: Bytes, length: nat, offset: nat) returns (r: Read<Bytes>)
    ensures r == if Fits(buffer, offset, length) then Read(buffer[offset..offset + length], offset + length)
            else Underflow
  {
    if offset + length > |buffer| {
      return Underflow;
    }
    return Read(buffer[offset..offset + length], offset + length);
  }

  // ---------- signed numbers ----------

  type Int64 = v: int | -INT64_LIMIT <= v < INT64_LIMIT

  /** A signed number as the unsigned one with the same bits, and back. */
  function ToUint64(v: Int64): (r: nat)
    ensures r < UINT64_LIMIT
  {
    if v < 0 then v + UINT64_LIMIT else v
  }

  function ToInt64(u: nat): Int64 {
    if u >= UINT64_LIMIT then 0 else if u >= INT64_LIMIT then u - UINT64_LIMIT else u
  }
}
