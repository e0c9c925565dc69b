/** Bytes and the little-endian integers of the terminal's file formats. */
module Bytes {
  type byte = x: int | 0 <= x < 256
  type Bytes = seq<byte>
  type u32 = x: int | 0 <= x < 0x1_0000_0000

  datatype Option<+T> = None | Some(value: T) {
    predicate IsFailure() { None? }
    function PropagateFailure<U>(): Option<U> requires None? { None }
    function Extract(): T requires Some? { value }
  }

  function U16(v: int): (b: Bytes)
    requires 0 <= v < 0x1_0000
    ensures |b| == 2 && (v < 256 ==> b == [v, 0])
  {
    [v % 256, v / 256]
  }

  function ReadU16(b: Bytes): (v: nat)
    requires |b| >= 2
    ensures v < 0x1_0000
  {
    b[0] as int + 256 * (b[1] as int)
  }

  function U32(v: u32): (b: Bytes)
    ensures |b| == 4
  {
    [v % 256, v / 0x100 % 256, v / 0x1_0000 % 256, v / 0x100_0000]
  }

  function ReadU32(b: Bytes): u32
    requires |b| >= 4
  {
    b[0] as int + 0x100 * (b[1] as int) + 0x1_0000 * (b[2] as int) + 0x100_0000 * (b[3] as int)
  }

  /** Writing and reading an integer are inverse, whatever bytes follow. */
  lemma {:induction false} U16RoundTrip(v: int, rest: Bytes)
    requires 0 <= v < 0x1_0000
    ensures ReadU16(U16(v) + rest) == v
  {
    assert U16(v)[0] == v % 256 && U16(v)[1] == v / 256;
  }

  lemma {:induction false} U16Injective(b: Bytes)
    requires |b| >= 2
    ensures U16(ReadU16(b)) == b[..2]
  {
    var v := ReadU16(b);
    assert v % 256 == b[0] && v / 256 == b[1];
  }

  lemma {:induction false} U32RoundTrip(v: u32, rest: Bytes)
    ensures ReadU32(U32(v) + rest) == v
  {
    var b := U32(v);
    var q1 := v / 0x100;
    var q2 := v / 0x1_0000;
    assert q1 / 256 == q2;
    assert q2 / 256 == v / 0x100_0000;
    assert (b + rest)[0] == b[0] && (b + rest)[1] == b[1] && (b + rest)[2] == b[2] && (b + rest)[3] == b[3];
  }

  lemma {:induction false} SplitByte(low: byte, high: int)
    requires high >= 0
    ensures (low as int + 0x100 * high) % 0x100 == low && (low as int + 0x100 * high) / 0x100 == high
  {
  }

  lemma {:induction false} U32Injective(b: Bytes)
    requires |b| >= 4
    ensures U32(ReadU32(b)) == b[..4]
  {
    var top := b[3] as int;
    var upper := b[2] as int + 0x100 * top;
    var middle := b[1] as int + 0x100 * upper;
    SplitByte(b[0], middle);
    SplitByte(b[1], upper);
    SplitByte(b[2], top);
    assert ReadU32(b) == b[0] as int + 0x100 * middle;
    assert ReadU32(b) / 0x1_0000 == middle / 0x100 && ReadU32(b) / 0x100_0000 == upper / 0x100;
  }
}
