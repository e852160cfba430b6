/**
 The code points accepted by the converter, and the three code unit forms it encodes them in.
 Units of every form are unsigned integers; a text is the units before the terminating zero.
 */
module CodePoints {

  const TWO_TO_THE_32: int := 0x1_0000_0000

  /** An unsigned 32-bit word. It also carries the 8-bit and 16-bit units, see `UnitLimit`. */
  type uchar32 = x: int | 0 <= x < TWO_TO_THE_32

  /** The template arguments of the generic converter: which unit type is read or written. */
  datatype Form = Utf8 | Utf16 | Utf32

  /** The size in bytes of `n` units. */
  function Bytes(f: Form, n: nat): nat {
    match f
    case Utf8 => n
    case Utf16 => 2 * n
    case Utf32 => 4 * n
  }

  /** How many whole units fit in so many bytes. */
  function UnitsIn(f: Form, bytes: nat): nat {
    match f
    case Utf8 => bytes
    case Utf16 => bytes / 2
    case Utf32 => bytes / 4
  }

  function UnitLimit(f: Form): int {
    match f
    case Utf8 => 0x100
    case Utf16 => 0x1_0000
    case Utf32 => TWO_TO_THE_32
  }

  /** A unit of `n` bytes takes on 256 to the power of `n` values. */
  function Values(n: nat): int {
    if n == 0 then 1 else 0x100 * Values(n - 1)
  }

  lemma UnitWidth(f: Form)
    ensures UnitLimit(f) == Values(Bytes(f, 1))
  {
    assert Values(4) == 0x100 * Values(3) && Values(3) == 0x100 * Values(2) && Values(2) == 0x100 * Values(1);
  }

  /** `n` units are all that fit iff they do and one more does not. */
  lemma WholeUnits(f: Form, n: nat, bytes: nat)
    ensures UnitsIn(f, bytes) == n <==> Bytes(f, n) <= bytes < Bytes(f, n + 1)
    ensures Bytes(f, n) == n * Bytes(f, 1)
  {
  }

  type Text = seq<uchar32>

  /** Units of form `f`, none of them the terminator. */
  ghost predicate IsText(f: Form, s: Text) {
    forall i :: 0 <= i < |s| ==> 0 < s[i] < UnitLimit(f)
  }

  /** Reading a text through a pointer: past the last unit there is the terminator. */
  function At(s: Text, i: nat): uchar32 {
    if i < |s| then s[i] else 0
  }

  /** The zero-terminated text of a buffer from `at` on ends at `end`. */
  ghost predicate Terminated(f: Form, p: array<uchar32>, at: nat, end: nat)
    reads p
  {
    && at <= end < p.Length
    && p[end] == 0
    && IsText(f, p[at..end])
  }

  /** The terminator is met exactly at the end. */
  lemma AtTerminator(f: Form, p: array<uchar32>, at: nat, end: nat)
    requires Terminated(f, p, at, end)
    ensures p[at] == 0 <==> at == end
  {
    if at < end {
      assert p[at] == p[at..end][0];
    }
  }

  /** Wrap-around of 32-bit arithmetic. */
  function Wrap(x: int): uchar32 {
    if 0 <= x < TWO_TO_THE_32 then x else x % TWO_TO_THE_32
  }

  /** What the converter calls a valid code point: no surrogates and no noncharacters. */
  predicate IsValid(u: int) {
    && 0 <= u <= 0x10FFFF
    && !(0xD800 <= u <= 0xDFFF)
    && !(0xFDD0 <= u <= 0xFDEF)
    && u % 0x1_0000 < 0xFFFE
  }

  /** The test itself: each range is tested by one wrapping subtraction. */
  function IsValidUChar32(u: uchar32): (valid: bool)
    ensures valid <==> IsValid(u)
  {
    u < 0x11_0000 && Wrap(u - 0xD800) > 0x7FF && u % 0x1_0000 < 0xFFFE && Wrap(u - 0xFDD0) > 0x1F
  }

  /** A code point that can occur inside a zero-terminated text. */
  predicate IsScalar(u: uchar32) {
    u != 0 && IsValid(u)
  }

  ghost predicate AllScalar(us: Text) {
    forall i :: 0 <= i < |us| ==> IsScalar(us[i])
  }
}
