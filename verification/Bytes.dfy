/** Byte-order primitives: the 16- and 32-bit load and store macros of byteswap.h
    and the 64-bit functions of swap64.c, which work on two 32-bit halves. */
module Bytes {
  type byte = x: int | 0 <= x < 256

  datatype Encoding = LSB | MSB

  const TWO_16 := 0x1_0000
  const TWO_31 := 0x8000_0000
  const TWO_32 := 0x1_0000_0000
  const TWO_64 := 0x1_0000_0000_0000_0000

  type u16 = x: int | 0 <= x < TWO_16
  type u32 = x: int | 0 <= x < TWO_32
  type u64 = x: int | 0 <= x < TWO_64
  type i32 = x: int | -TWO_31 <= x < TWO_31

  function LoadU16(b: seq<byte>, e: Encoding): u16
    requires |b| == 2
  {
    if e.LSB? then b[1] as int * 0x100 + b[0] else b[0] as int * 0x100 + b[1]
  }

  function StoreU16(v: u16, e: Encoding): (b: seq<byte>)
    ensures |b| == 2
  {
    if e.LSB? then [v % 0x100, v / 0x100] else [v / 0x100, v % 0x100]
  }

  function Word(d3: int, d2: int, d1: int, d0: int): int {
    d3 * 0x100_0000 + d2 * 0x1_0000 + d1 * 0x100 + d0
  }

  function LoadU32(b: seq<byte>, e: Encoding): u32
    requires |b| == 4
  {
    if e.LSB? then Word(b[3], b[2], b[1], b[0]) else Word(b[0], b[1], b[2], b[3])
  }

  function StoreU32(v: u32, e: Encoding): (b: seq<byte>)
    ensures |b| == 4
  {
    if e.LSB? then [v % 0x100, v / 0x100 % 0x100, v / 0x1_0000 % 0x100, v / 0x100_0000]
    else [v / 0x100_0000, v / 0x1_0000 % 0x100, v / 0x100 % 0x100, v % 0x100]
  }

  /** The signed load: the most significant byte is read as a signed char. */
  function LoadI32(b: seq<byte>, e: Encoding): i32
    requires |b| == 4
  {
    var top := if e.LSB? then b[3] else b[0];
    LoadU32(b, e) - (if top >= 0x80 then TWO_32 else 0)
  }

  function StoreI32(v: i32, e: Encoding): (b: seq<byte>)
    ensures |b| == 4
  {
    StoreU32(if v < 0 then v + TWO_32 else v, e)
  }

  /** swap64.c: the high half comes second in little-endian order and first in
      big-endian order. */
  function LoadU64(b: seq<byte>, e: Encoding): u64
    requires |b| == 8
  {
    if e.LSB? then LoadU32(b[4..8], e) * TWO_32 + LoadU32(b[0..4], e)
    else LoadU32(b[0..4], e) * TWO_32 + LoadU32(b[4..8], e)
  }

  function StoreU64(v: u64, e: Encoding): (b: seq<byte>)
    ensures |b| == 8
  {
    if e.LSB? then StoreU32(v % TWO_32, e) + StoreU32(v / TWO_32, e)
    else StoreU32(v / TWO_32, e) + StoreU32(v % TWO_32, e)
  }

  lemma RoundTrip16(v: u16, b: seq<byte>, e: Encoding)
    requires |b| == 2
    ensures LoadU16(StoreU16(v, e), e) == v
    ensures StoreU16(LoadU16(b, e), e) == b
  {
  }

  lemma Digits32(v: u32)
    ensures v == Word(v / 0x100_0000, v / 0x1_0000 % 0x100, v / 0x100 % 0x100, v % 0x100)
  {
    assert v / 0x1_0000 == v / 0x100 / 0x100;
    assert v / 0x100_0000 == v / 0x1_0000 / 0x100;
  }

  lemma DigitsOf32(d3: byte, d2: byte, d1: byte, d0: byte, v: int)
    requires v == Word(d3, d2, d1, d0)
    ensures v / 0x100_0000 == d3 && v / 0x1_0000 % 0x100 == d2
    ensures v / 0x100 % 0x100 == d1 && v % 0x100 == d0
  {
    assert v / 0x1_0000 == d3 * 0x100 + d2;
    assert v / 0x100 == d3 * 0x1_0000 + d2 * 0x100 + d1;
  }

  lemma RoundTrip32(v: u32, b: seq<byte>, e: Encoding)
    requires |b| == 4
    ensures LoadU32(StoreU32(v, e), e) == v
    ensures StoreU32(LoadU32(b, e), e) == b
  {
    Digits32(v);
    if e.LSB? {
      DigitsOf32(b[3], b[2], b[1], b[0], LoadU32(b, e));
    } else {
      DigitsOf32(b[0], b[1], b[2], b[3], LoadU32(b, e));
    }
  }

  lemma RoundTripI32(v: i32, e: Encoding)
    ensures LoadI32(StoreI32(v, e), e) == v
  {
    var u: u32 := if v < 0 then v + TWO_32 else v;
    assert StoreI32(v, e) == StoreU32(u, e);
    RoundTrip32(u, StoreU32(u, e), e);
    TopByte(u);
  }

  lemma TopByte(u: u32)
    ensures u / 0x100_0000 >= 0x80 <==> u >= TWO_31
  {
  }

  /** A 64-bit load of two stored halves, whichever comes first. */
  lemma LoadHalves(a: seq<byte>, b: seq<byte>)
    requires |a| == |b| == 4
    ensures LoadU64(a + b, LSB) == LoadU32(b, LSB) * TWO_32 + LoadU32(a, LSB)
    ensures LoadU64(a + b, MSB) == LoadU32(a, MSB) * TWO_32 + LoadU32(b, MSB)
  {
    assert (a + b)[0..4] == a && (a + b)[4..8] == b;
  }

  lemma SplitHalves(hi: u32, lo: u32, v: int)
    requires v == hi * TWO_32 + lo
    ensures v % TWO_32 == lo && v / TWO_32 == hi
  {
  }

  lemma RoundTrip64(v: u64, b: seq<byte>, e: Encoding)
    requires |b| == 8
    ensures LoadU64(StoreU64(v, e), e) == v
    ensures StoreU64(LoadU64(b, e), e) == b
  {
    var lo, hi := v % TWO_32, v / TWO_32;
    RoundTrip32(lo, b[0..4], e);
    RoundTrip32(hi, b[4..8], e);
    var first, second := if e.LSB? then lo else hi, if e.LSB? then hi else lo;
    LoadHalves(StoreU32(first, e), StoreU32(second, e));
    assert b == b[0..4] + b[4..8];
    var w := LoadU64(b, e);
    if e.LSB? {
      SplitHalves(LoadU32(b[4..8], e), LoadU32(b[0..4], e), w);
    } else {
      SplitHalves(LoadU32(b[0..4], e), LoadU32(b[4..8], e), w);
    }
  }
}
