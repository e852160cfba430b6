/** Encoding of one code point as 8-bit, 16-bit or 32-bit units. */
module Encoders {
  import opened CodePoints

  function EncodeUtf8(u: uchar32): (s: Text) {
    if u <= 0x7F then
      [u]
    else if u <= 0x7FF then
      [0xC0 + u / 64, 0x80 + u % 64]
    else if u <= 0xFFFF then
      [0xE0 + u / 4096, 0x80 + u / 64 % 64, 0x80 + u % 64]
    else
      [0xF0 + u / 0x4_0000 % 8, 0x80 + u / 4096 % 64, 0x80 + u / 64 % 64, 0x80 + u % 64]
  }

  /** `x | bit`, for a single bit. */
  function WithBit(x: nat, bit: nat): (r: nat)
    requires bit > 0
    ensures x <= r <= x + bit
    ensures x / bit % 2 == 0 ==> r == x + bit
  {
    if x / bit % 2 == 0 then x + bit else x
  }

  /** `h | 0xD800`, bit by bit. */
  function Marked(h: nat): (r: nat)
    requires h < 0x40_0000
    ensures r < 0x41_0000
    ensures h < 0x800 ==> r == h + 0xD800
  {
    WithBit(WithBit(WithBit(WithBit(h, 0x8000), 0x4000), 0x1000), 0x800)
  }

  // The bits 15 to 11 of a number, from the number and back.

  datatype Bits = Bits(high: nat, b15: nat, b14: nat, b13: nat, b12: nat, b11: nat, low: nat)

  ghost predicate AreBits(b: Bits) {
    b.b15 <= 1 && b.b14 <= 1 && b.b13 <= 1 && b.b12 <= 1 && b.b11 <= 1 && b.low < 0x800
  }

  function Number(b: Bits): nat {
    b.high * 0x1_0000 + b.b15 * 0x8000 + b.b14 * 0x4000 + b.b13 * 0x2000 + b.b12 * 0x1000 + b.b11 * 0x800 + b.low
  }

  function BitsOf(h: nat): Bits {
    Bits(h / 0x1_0000, h / 0x8000 % 2, h / 0x4000 % 2, h / 0x2000 % 2, h / 0x1000 % 2, h / 0x800 % 2, h % 0x800)
  }

  lemma NumberOfBits(h: nat)
    ensures AreBits(BitsOf(h)) && Number(BitsOf(h)) == h
  {
    Halved(h, 0x800);
    Halved(h, 0x1000);
    Halved(h, 0x2000);
    Halved(h, 0x4000);
    Halved(h, 0x8000);
  }

  /** Shifting by one bit more leaves one bit of the number shifted. */
  lemma Halved(h: nat, d: nat)
    requires d > 0
    ensures h / d == h / (2 * d) * 2 + h / d % 2
  {
    OneBit(h, d, h / (2 * d), h % (2 * d));
  }

  lemma OneBit(h: nat, d: nat, q: nat, r: nat)
    requires d > 0 && h == q * (2 * d) + r && r < 2 * d
    ensures h / d == q * 2 + h / d % 2
  {
    Product(q, d);
    if r < d {
      QuotientIs(h, d, 2 * q, r);
    } else {
      QuotientIs(h, d, 2 * q + 1, r - d);
    }
  }

  lemma Product(q: nat, d: nat)
    ensures q * (2 * d) == (2 * q) * d && (2 * q + 1) * d == (2 * q) * d + d
  {
  }

  lemma QuotientIs(h: nat, d: nat, p: nat, s: nat)
    requires d > 0 && s < d && h == p * d + s
    ensures h / d == p
  {
    var q, r := h / d, h % d;
    Difference(q, p, d);
    if q > p {
      AtLeast(q - p, d);
    } else if q < p {
      AtLeast(p - q, d);
    }
  }

  lemma Difference(q: int, p: int, d: int)
    ensures (q - p) * d == q * d - p * d && (p - q) * d == p * d - q * d
  {
  }

  lemma AtLeast(k: int, d: int)
    requires k >= 1 && d > 0
    ensures k * d >= d
  {
  }

  lemma BitsOfNumber(b: Bits)
    requires AreBits(b)
    ensures BitsOf(Number(b)) == b
  {
    var x := Number(b);
    assert x / 0x8000 == 2 * b.high + b.b15;
    assert x / 0x4000 == 4 * b.high + 2 * b.b15 + b.b14;
    assert x / 0x2000 == 8 * b.high + 4 * b.b15 + 2 * b.b14 + b.b13;
    assert x / 0x1000 == 16 * b.high + 8 * b.b15 + 4 * b.b14 + 2 * b.b13 + b.b12;
    assert x / 0x800 == 32 * b.high + 16 * b.b15 + 8 * b.b14 + 4 * b.b13 + 2 * b.b12 + b.b11;
  }

  /** The bits of the mark are set and all others are those of `h`. */
  lemma MarkedBits(h: nat)
    requires h < 0x40_0000
    ensures BitsOf(Marked(h)) == BitsOf(h).(b15 := 1, b14 := 1, b12 := 1, b11 := 1)
  {
    var b := BitsOf(h);
    var b1 := b.(b15 := 1);
    var b2 := b1.(b14 := 1);
    var b3 := b2.(b12 := 1);
    var b4 := b3.(b11 := 1);
    NumberOfBits(h);
    BitsOfNumber(b);
    BitsOfNumber(b1);
    BitsOfNumber(b2);
    BitsOfNumber(b3);
    BitsOfNumber(b4);
    assert WithBit(h, 0x8000) == Number(b1);
    assert WithBit(Number(b1), 0x4000) == Number(b2);
    assert WithBit(Number(b2), 0x1000) == Number(b3);
    assert WithBit(Number(b3), 0x800) == Number(b4);
  }

  /** Surrogate pairs above U+FFFF. The 32-bit encoder writes the same pairs, one half per slot. */
  function EncodePairs(u: uchar32): (s: Text)
    ensures u <= 0xFFFF ==> s == [u]
    ensures u > 0xFFFF ==> |s| == 2 && 0xDC00 <= s[1] <= 0xDFFF
    ensures 0xFFFF < u < 0x11_0000 ==> s[0] == 0xD800 + (u - 0x1_0000) / 1024 < 0xDC00
  {
    if u <= 0xFFFF then [u] else [Marked((u - 0x1_0000) / 1024), 0xDC00 + u % 1024]
  }

  /** A 16-bit slot keeps the low half of what is stored in it. That changes no half of a true pair. */
  function Encode(f: Form, u: uchar32): (s: Text)
    ensures 1 <= |s| <= 4
    ensures 0 < u < 0x11_0000 ==> IsText(f, s)
    ensures f != Utf8 && u < 0x11_0000 ==> s == EncodePairs(u)
  {
    match f
    case Utf8 => EncodeUtf8(u)
    case Utf32 => EncodePairs(u)
    case Utf16 =>
      var s := EncodePairs(u);
      if |s| == 1 then s else [s[0] % 0x1_0000, s[1]]
  }

  function EncodedLength(f: Form, u: uchar32): (n: nat)
    ensures n == |Encode(f, u)|
  {
    match f
    case Utf8 => if u <= 0x7F then 1 else if u > 0x7FF then (if u > 0xFFFF then 1 else 0) + 3 else 2
    case Utf16 => if u > 0xFFFF then 2 else 1
    case Utf32 => if u > 0xFFFF then 2 else 1
  }

  /** Of a number above the code points, only the low 21 bits are kept in bytes ... */
  lemma LowBitsInBytes(u: uchar32)
    requires u > 0xFFFF
    ensures
      var e := EncodeUtf8(u);
      && |e| == 4
      && (e[0] - 0xF0) * 0x4_0000 + (e[1] - 0x80) * 0x1000 + (e[2] - 0x80) * 0x40 + (e[3] - 0x80) == u % 0x20_0000
  {
    assert u / 0x1000 == u / 0x4_0000 * 64 + u / 0x1000 % 64;
    assert u / 64 == u / 0x1000 * 64 + u / 64 % 64;
    assert u / 0x4_0000 == u / 0x20_0000 * 8 + u / 0x4_0000 % 8;
  }

  /** ... and the low 16 of each half of a pair in 16-bit units. */
  lemma LowBitsInUnits(u: uchar32)
    requires u > 0xFFFF
    ensures
      var e, p := Encode(Utf16, u), EncodePairs(u);
      |e| == |p| == 2 && e[1] == p[1] && 0 <= e[0] < 0x1_0000 && (p[0] - e[0]) % 0x1_0000 == 0
  {
    var p := EncodePairs(u);
    assert p[0] - p[0] % 0x1_0000 == p[0] / 0x1_0000 * 0x1_0000;
  }

  /** The encodings of a sequence of code points, one after the other. */
  function EncodeAll(f: Form, us: Text): (s: Text) {
    if us == [] then [] else Encode(f, us[0]) + EncodeAll(f, us[1..])
  }

  lemma EncodeAllCons(f: Form, us: Text)
    requires us != []
    ensures EncodeAll(f, us) == Encode(f, us[0]) + EncodeAll(f, us[1..])
  {
  }

  lemma {:induction false} EncodeAllIsText(f: Form, us: Text)
    requires AllScalar(us)
    ensures IsText(f, EncodeAll(f, us))
  {
    if us != [] {
      EncodeAllIsText(f, us[1..]);
    }
  }

  lemma {:induction false} EncodeAllAppend(f: Form, us: Text, vs: Text)
    ensures EncodeAll(f, us + vs) == EncodeAll(f, us) + EncodeAll(f, vs)
  {
    if us == [] {
      assert us + vs == vs;
    } else {
      assert (us + vs)[1..] == us[1..] + vs;
      EncodeAllAppend(f, us[1..], vs);
    }
  }

  /** The 32-bit result of every conversion is its 16-bit result, widened unit by unit. */
  lemma {:induction false} Utf32IsWidenedUtf16(us: Text)
    requires forall i :: 0 <= i < |us| ==> us[i] < 0x11_0000
    ensures EncodeAll(Utf32, us) == EncodeAll(Utf16, us)
    ensures AllScalar(us) ==> IsText(Utf16, EncodeAll(Utf32, us))
  {
    if us != [] {
      Utf32IsWidenedUtf16(us[1..]);
    }
    if AllScalar(us) {
      EncodeAllIsText(Utf16, us);
    }
  }

  /** A conversion to 32-bit units gives one unit for each code point exactly when none needs a pair. */
  lemma {:induction false} Utf32IsOnePerSlot(us: Text)
    ensures EncodeAll(Utf32, us) == us <==> forall i :: 0 <= i < |us| ==> us[i] <= 0xFFFF
    ensures |EncodeAll(Utf32, us)| >= |us|
  {
    if us != [] {
      Utf32IsOnePerSlot(us[1..]);
      assert us == [us[0]] + us[1..];
      assert us[0] <= 0xFFFF ==> Encode(Utf32, us[0]) == [us[0]];
    }
  }

  /** Writes `u` at `p[at..]`, in the order the byte encoder stores its bytes. */
  method UChar32ToUtf8(u: uchar32, p: array<uchar32>, at: nat) returns (n: nat)
    requires at + |EncodeUtf8(u)| <= p.Length
    modifies p
    ensures n == |EncodeUtf8(u)|
    ensures p[at..at + n] == EncodeUtf8(u)
    ensures forall k :: 0 <= k < at || at + n <= k < p.Length ==> p[k] == old(p[k])
  {
    if u <= 0x7F {
      p[at] := u;
      n := 1;
    } else if u <= 0x7FF {
      p[at] := u / 64 + 0xC0;
      p[at + 1] := u % 64 + 0x80;
      n := 2;
    } else if u <= 0xFFFF {
      p[at] := u / 4096 + 0xE0;
      p[at + 2] := u % 64 + 0x80;
      p[at + 1] := u / 64 % 64 + 0x80;
      n := 3;
    } else {
      p[at] := u / 0x4_0000 % 8 + 0xF0;
      p[at + 1] := u / 4096 % 64 + 0x80;
      p[at + 3] := u % 64 + 0x80;
      p[at + 2] := u / 64 % 64 + 0x80;
      n := 4;
    }
  }

  /** Shared by the 16-bit and the 32-bit encoder, whose statements are the same but for the width of the slots. */
  method UChar32ToPairs(f: Form, u: uchar32, p: array<uchar32>, at: nat) returns (n: nat)
    requires f != Utf8 && at + |Encode(f, u)| <= p.Length
    modifies p
    ensures n == |Encode(f, u)|
    ensures p[at..at + n] == Encode(f, u)
    ensures forall k :: 0 <= k < at || at + n <= k < p.Length ==> p[k] == old(p[k])
  {
    if u <= 0xFFFF {
      p[at] := u;
      n := 1;
    } else {
      p[at + 1] := u % 1024 + 0xDC00;
      p[at] := if f == Utf16 then Marked((u - 0x1_0000) / 1024) % 0x1_0000 else Marked((u - 0x1_0000) / 1024);
      n := 2;
    }
  }

  method UChar32ToUnits(f: Form, u: uchar32, p: array<uchar32>, at: nat) returns (n: nat)
    requires at + |Encode(f, u)| <= p.Length
    modifies p
    ensures n == |Encode(f, u)|
    ensures p[at..at + n] == Encode(f, u)
    ensures forall k :: 0 <= k < at || at + n <= k < p.Length ==> p[k] == old(p[k])
  {
    if f == Utf8 {
      n := UChar32ToUtf8(u, p, at);
    } else {
      n := UChar32ToPairs(f, u, p, at);
    }
  }
}
