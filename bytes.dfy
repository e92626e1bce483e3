/** Fixed-width integers, their little- and big-endian byte encodings, UTF-8
    well-formedness and the byte-substring test used for the air marker. */
module Bytes {

  type u8 = x: int | 0 <= x < 0x100
  type u16 = x: int | 0 <= x < 0x1_0000
  type u32 = x: int | 0 <= x < 0x1_0000_0000
  type i32 = x: int | -0x8000_0000 <= x < 0x8000_0000

  const U16_MAX: int := 0xFFFF
  const U32_MAX: int := 0xFFFF_FFFF

  /** Rust's `as u16` on a wider integer: the low 16 bits of its two's complement form. */
  function AsU16(x: int): (r: u16)
    ensures 0 <= x <= U16_MAX ==> r == x
  {
    x % 0x1_0000
  }

  /** Rust's `as u32` (and wrapping u32 arithmetic): the value modulo 2^32. */
  function AsU32(x: int): (r: u32)
    ensures 0 <= x <= U32_MAX ==> r == x
  {
    x % 0x1_0000_0000
  }

  function U16Le(v: u16): (b: seq<u8>)
    ensures |b| == 2
  {
    [v % 0x100, v / 0x100]
  }

  function U16Be(v: u16): (b: seq<u8>)
    ensures |b| == 2
  {
    [v / 0x100, v % 0x100]
  }

  function U32Le(v: u32): (b: seq<u8>)
    ensures |b| == 4
  {
    var v1 := v / 0x100;
    var v2 := v1 / 0x100;
    [v % 0x100, v1 % 0x100, v2 % 0x100, v2 / 0x100]
  }

  /** A signed 32-bit value written little-endian in two's complement. */
  function I32Le(v: i32): (b: seq<u8>)
    ensures |b| == 4
  {
    U32Le(if v < 0 then v + 0x1_0000_0000 else v)
  }

  function FromU16Le(b: seq<u8>): u16
    requires |b| == 2
  {
    b[0] as int + 0x100 * b[1] as int
  }

  function FromU16Be(b: seq<u8>): u16
    requires |b| == 2
  {
    0x100 * b[0] as int + b[1] as int
  }

  function FromU32Le(b: seq<u8>): u32
    requires |b| == 4
  {
    b[0] as int + 0x100 * (b[1] as int + 0x100 * (b[2] as int + 0x100 * b[3] as int))
  }

  function FromI32Le(b: seq<u8>): i32
    requires |b| == 4
  {
    var u := FromU32Le(b);
    if u < 0x8000_0000 then u else u - 0x1_0000_0000
  }

  lemma U16LeRoundTrip(v: u16)
    ensures FromU16Le(U16Le(v)) == v
  {
  }

  lemma U16BeRoundTrip(v: u16)
    ensures FromU16Be(U16Be(v)) == v
  {
  }

  lemma U32LeRoundTrip(v: u32)
    ensures FromU32Le(U32Le(v)) == v
  {
    var v1 := v / 0x100;
    var v2 := v1 / 0x100;
    assert v2 == v2 / 0x100 * 0x100 + v2 % 0x100;
    assert v1 == v2 * 0x100 + v1 % 0x100;
    assert v == v1 * 0x100 + v % 0x100;
  }

  lemma I32LeRoundTrip(v: i32)
    ensures FromI32Le(I32Le(v)) == v
  {
    U32LeRoundTrip(if v < 0 then v + 0x1_0000_0000 else v);
  }

  /** A UTF-8 continuation byte. */
  predicate IsContinuation(b: u8) {
    0x80 <= b <= 0xBF
  }

  /** The length of the well-formed UTF-8 sequence that starts at `s[i]`, or 0
      when none does (a stray continuation byte, an overlong form, a surrogate,
      a code point past U+10FFFF or a sequence cut short), following Table 3-7
      of the Unicode Standard. */
  function Utf8SeqLen(s: seq<u8>, i: nat): (n: nat)
    requires i < |s|
    ensures n <= 4 && i + n <= |s|
  {
    var b := s[i];
    if b <= 0x7F then 1
    else if 0xC2 <= b <= 0xDF then
      if i + 2 <= |s| && IsContinuation(s[i + 1]) then 2 else 0
    else if 0xE0 <= b <= 0xEF then
      if i + 3 <= |s|
         && (if b == 0xE0 then 0xA0 <= s[i + 1] <= 0xBF
             else if b == 0xED then 0x80 <= s[i + 1] <= 0x9F
             else IsContinuation(s[i + 1]))
         && IsContinuation(s[i + 2])
      then 3 else 0
    else if 0xF0 <= b <= 0xF4 then
      if i + 4 <= |s|
         && (if b == 0xF0 then 0x90 <= s[i + 1] <= 0xBF
             else if b == 0xF4 then 0x80 <= s[i + 1] <= 0x8F
             else IsContinuation(s[i + 1]))
         && IsContinuation(s[i + 2]) && IsContinuation(s[i + 3])
      then 4 else 0
    else 0
  }

  /** The bytes of `s` from `i` on are a run of well-formed UTF-8 sequences. */
  predicate Utf8From(s: seq<u8>, i: nat)
    decreases |s| - i
  {
    i >= |s| || (Utf8SeqLen(s, i) > 0 && Utf8From(s, i + Utf8SeqLen(s, i)))
  }

  /** `s` is well-formed UTF-8 (what `String::from_utf8` accepts). */
  predicate IsUtf8(s: seq<u8>) {
    Utf8From(s, 0)
  }

  type Str = s: seq<u8> | IsUtf8(s) witness []

  /** `pat` occurs in `s` as a contiguous run of bytes (`str::contains`). */
  predicate Contains(s: seq<u8>, pat: seq<u8>) {
    exists i :: 0 <= i <= |s| && pat <= s[i..]
  }

  /** The air marker "minecraft:air", in ASCII. */
  const AIR: seq<u8> := [0x6D, 0x69, 0x6E, 0x65, 0x63, 0x72, 0x61, 0x66, 0x74, 0x3A, 0x61, 0x69, 0x72]

  /** An air-marked identifier: one that contains "minecraft:air" anywhere. */
  predicate IsAir(id: seq<u8>) {
    Contains(id, AIR)
  }
}
