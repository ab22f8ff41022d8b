/**
 * The fixed-size record of the Avro source tests: a Java `int` stored little-endian in the
 * first four bytes of a 15-byte array, and read back from them. A Java `int` is modelled by its
 * 32-bit two's complement pattern, a `bv32`, and a Java `byte` by its 8-bit pattern, a `bv8`.
 */
module FixedRecords {

  /** The size of a record's byte array. */
  const RecordSize := 15

  /** The Java `int` a 32-bit pattern stands for. */
  function Signed(b: bv32): int {
    if b < 0x8000_0000 then b as int else b as int - 0x1_0000_0000
  }

  /** `(byte) x`: the low eight bits of `x`. */
  function Byte(x: bv32): bv8 {
    (x & 0xFF) as bv8
  }

  /**
   * The four bytes the constructor stores for `i`, least significant first: byte `k` is
   * `(byte) (i >> 8 * k)`. The source's shift is arithmetic; the eight bits kept are the same
   * as with the logical shift used here, since no shift is wider than 24.
   */
  function Encoding(i: bv32): (v: seq<bv8>)
    ensures |v| == 4
  {
    [Byte(i), Byte(i >> 8), Byte(i >> 16), Byte(i >> 24)]
  }

  /** Four 32-bit values joined as little-endian bytes: shifted into place and or-ed. */
  function Join(a: bv32, b: bv32, c: bv32, d: bv32): bv32 {
    a | (b << 8) | (c << 16) | (d << 24)
  }

  /** The `int` read back from four little-endian bytes, each taken as a value 0..255. */
  function Decoding(v: seq<bv8>): bv32
    requires |v| == 4
  {
    Join(v[0] as bv32, v[1] as bv32, v[2] as bv32, v[3] as bv32)
  }

  /** Java's widening of a `byte` to an `int`, which copies its sign bit into the upper 24 bits. */
  function SignExtend(x: bv8): bv32 {
    if x < 0x80 then x as bv32 else x as bv32 | 0xFFFF_FF00
  }

  /**
   * The `int` read back from four little-endian bytes as the source reads it: each byte is
   * widened with its sign before it is shifted and or-ed in.
   */
  function DecodingAsWritten(v: seq<bv8>): bv32
    requires |v| == 4
  {
    Join(SignExtend(v[0]), SignExtend(v[1]), SignExtend(v[2]), SignExtend(v[3]))
  }

  /** Corrected reading, bytes masked with `& 0xFF`: every `int` is read back from its bytes. */
  lemma DecodeEncode(i: bv32)
    ensures Decoding(Encoding(i)) == i
  {
  }

  /** Corrected reading, bytes masked with `& 0xFF`: every four bytes are the bytes of the `int` read back from them. */
  lemma EncodeDecode(v: seq<bv8>)
    requires |v| == 4
    ensures Encoding(Decoding(v)) == v
  {
  }

  /** Corrected reading, bytes masked with `& 0xFF`: four bytes read back as the same `int` are the same bytes. */
  lemma DecodingInjective(v: seq<bv8>, w: seq<bv8>)
    requires |v| == 4 && |w| == 4
    ensures Decoding(v) == Decoding(w) <==> v == w
  {
    EncodeDecode(v);
    EncodeDecode(w);
  }

  /**
   * As written, bytes are read back as the `int` they encode when the top bits of the low three
   * are clear, and as a negative `int` (its sign bit set) when one of them is set: widening that
   * byte sets every bit above it.
   */
  lemma AsWrittenReading(v: seq<bv8>)
    requires |v| == 4
    ensures v[0] < 0x80 && v[1] < 0x80 && v[2] < 0x80 ==> DecodingAsWritten(v) == Decoding(v)
    ensures v[0] >= 0x80 || v[1] >= 0x80 || v[2] >= 0x80 ==> DecodingAsWritten(v) >= 0x8000_0000
  {
  }

  /**
   * As written, an `int` is read back from its bytes when none of its three low bytes has its
   * top bit set, and a negative `int` is read back otherwise, so no non-negative `int` with such
   * a bit set survives the round trip.
   */
  lemma RoundTripAsWritten(i: bv32)
    ensures i & 0x0080_8080 == 0 ==> DecodingAsWritten(Encoding(i)) == i
    ensures i & 0x0080_8080 != 0 ==> DecodingAsWritten(Encoding(i)) >= 0x8000_0000
  {
  }

  /** As written, the records for 200 and 456 both read back as -56. */
  lemma AsWrittenCollision()
    ensures DecodingAsWritten(Encoding(200)) == DecodingAsWritten(Encoding(456)) == 0xFFFF_FFC8
    ensures Signed(0xFFFF_FFC8) == -56
  {
  }

  class FixedRecord {
    /** The record's bytes: the `int` it was made from in the first four, zeros after them. */
    const value: array<bv8>

    /** The record made from `i`. */
    constructor (i: bv32)
      ensures fresh(value) && value[..] == Encoding(i) + seq(RecordSize - 4, _ => 0)
    {
      value := new bv8[RecordSize](_ => 0);
      new;
      value[0] := Byte(i);
      value[1] := Byte(i >> 8);
      value[2] := Byte(i >> 16);
      value[3] := Byte(i >> 24);
    }

    /** The record the no-argument constructor makes: the one for 0. */
    constructor Zero()
      ensures fresh(value) && value[..] == Encoding(0) + seq(RecordSize - 4, _ => 0)
    {
      value := new bv8[RecordSize](_ => 0);
    }

    /** The record's invariant: its array has the fixed size. */
    predicate Valid() {
      value.Length == RecordSize
    }

    /**
     * `asInt()` as the source writes it: each byte is widened with its sign before it is shifted
     * and or-ed in. The record's `int` comes back when the top bits of its three low bytes are
     * clear; otherwise the result is a negative `int`.
     */
    function AsInt(): (i: bv32)
      requires Valid()
      reads value
      ensures value[0] < 0x80 && value[1] < 0x80 && value[2] < 0x80 ==> Encoding(i) == value[..4]
      ensures value[0] >= 0x80 || value[1] >= 0x80 || value[2] >= 0x80 ==> i >= 0x8000_0000
    {
      AsWrittenReading(value[..4]);
      EncodeDecode(value[..4]);
      DecodingAsWritten(value[..4])
    }

    /**
     * Corrected `asInt()`, with each byte masked with `& 0xFF` before it is shifted: the `int`
     * whose bytes open the record's array.
     */
    function AsIntIntended(): (i: bv32)
      requires Valid()
      reads value
      ensures Encoding(i) == value[..4]
    {
      EncodeDecode(value[..4]);
      Decoding(value[..4])
    }

    /**
     * `equals` as the source writes it: the two records' `asInt()` agree. Records with the same
     * first four bytes are equal; when the top bits of both records' three low bytes are clear,
     * only those are.
     */
    predicate Equals(other: FixedRecord)
      requires Valid() && other.Valid()
      reads value, other.value
      ensures value[..4] == other.value[..4] ==> Equals(other)
      ensures (value[0] < 0x80 && value[1] < 0x80 && value[2] < 0x80 &&
               other.value[0] < 0x80 && other.value[1] < 0x80 && other.value[2] < 0x80) ==>
        (Equals(other) <==> value[..4] == other.value[..4])
    {
      AsWrittenReading(value[..4]);
      AsWrittenReading(other.value[..4]);
      DecodingInjective(value[..4], other.value[..4]);
      AsInt() == other.AsInt()
    }

    /**
     * Corrected `equals`, through the corrected `asInt()`: records are equal exactly when their
     * first four bytes agree.
     */
    predicate EqualsIntended(other: FixedRecord)
      requires Valid() && other.Valid()
      reads value, other.value
      ensures EqualsIntended(other) <==> value[..4] == other.value[..4]
    {
      DecodingInjective(value[..4], other.value[..4]);
      AsIntIntended() == other.AsIntIntended()
    }
  }

  /**
   * As written, the records made from 200 and 456 are equal, although their bytes differ and
   * the corrected `equals` tells them apart.
   */
  method AsWrittenEqualRecords() returns (equal: bool, equalIntended: bool)
    ensures equal && !equalIntended
  {
    var a := new FixedRecord(200);
    var b := new FixedRecord(456);
    assert a.value[..4] == Encoding(200) && b.value[..4] == Encoding(456);
    AsWrittenCollision();
    equal := a.Equals(b);
    equalIntended := a.EqualsIntended(b);
  }

  /**
   * The record made from `i`: the corrected `asInt()` reads `i` back from it, and so does the
   * source's when bit 7 of each of the three low bytes of `i` is clear.
   */
  method NewFixedRecord(i: bv32) returns (record: FixedRecord)
    ensures fresh(record.value) && record.Valid()
    ensures record.value[..] == Encoding(i) + seq(RecordSize - 4, _ => 0)
    ensures record.value[4..] == seq(RecordSize - 4, _ => 0)
    ensures record.AsIntIntended() == i
    ensures i & 0x0080_8080 == 0 ==> record.AsInt() == i
  {
    record := new FixedRecord(i);
    DecodeEncode(i);
    RoundTripAsWritten(i);
    assert record.value[..4] == Encoding(i);
    assert record.value[4..] == record.value[..][4..];
  }

  /**
   * `count` new records, the `k`-th made from `k`: read back as `k` by the corrected `asInt()`,
   * with zeros after its first four bytes.
   */
  method CreateFixedRecords(count: int) returns (records: seq<FixedRecord>)
    requires count < 0x8000_0000
    ensures |records| == if count < 0 then 0 else count
    ensures forall k :: 0 <= k < |records| ==> fresh(records[k].value)
    ensures forall k :: 0 <= k < |records| ==> records[k].Valid() && records[k].AsIntIntended() == k as bv32
    ensures forall k :: 0 <= k < |records| ==>
      records[k].Valid() && records[k].value[4..] == seq(RecordSize - 4, _ => 0)
    ensures forall k :: 0 <= k < |records| ==>
      records[k].value[..] == Encoding(k as bv32) + seq(RecordSize - 4, _ => 0)
  {
    records := [];
    var i := 0;
    while i < count
      invariant 0 <= i && (i <= count || i == 0) && |records| == i
      invariant forall k :: 0 <= k < i ==> fresh(records[k].value)
      invariant forall k :: 0 <= k < i ==>
        records[k].Valid() && records[k].value[..] == Encoding(k as bv32) + seq(RecordSize - 4, _ => 0)
    {
      var record := NewFixedRecord(i as bv32);
      records := records + [record];
      i := i + 1;
    }
    forall k | 0 <= k < |records|
      ensures records[k].AsIntIntended() == k as bv32
      ensures records[k].value[4..] == seq(RecordSize - 4, _ => 0)
    {
      DecodeEncode(k as bv32);
      assert records[k].value[..4] == records[k].value[..][..4];
      assert records[k].value[4..] == records[k].value[..][4..];
    }
  }
}
