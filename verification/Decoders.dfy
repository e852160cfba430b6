/** Decoding of the next character of a text in each of the three forms. */
module Decoders {
  import opened CodePoints
  import opened Encoders

  /** `n` units were taken; `u` is the code point, or '?' when `err`. */
  datatype Decoded = Decoded(n: nat, u: uchar32, err: bool)

  const QUESTION_MARK: uchar32 := '?' as int

  function Bad(n: nat): Decoded {
    Decoded(n, QUESTION_MARK, true)
  }

  /** Accepts `u` unless it is overlong (below `min`) or not a valid code point. */
  function Checked(n: nat, u: uchar32, min: uchar32): Decoded {
    if min <= u && IsValid(u) then Decoded(n, u, false) else Bad(n)
  }

  predicate IsContinuation(b: uchar32) {
    0x80 <= b < 0xC0
  }

  /** A low surrogate encoded as three bytes, following a high one (Unicode Technical Report #26). */
  predicate IsLowSurrogateBytes(b3: uchar32, b4: uchar32, b5: uchar32) {
    b3 == 0xED && 0xB0 <= b4 < 0xC0 && IsContinuation(b5)
  }

  /** The character at the head of the bytes `b0`, `b1`, ...; a byte counts only if none before it is a terminator. */
  function DecodeBytes(b0: uchar32, b1: uchar32, b2: uchar32, b3: uchar32, b4: uchar32, b5: uchar32): (d: Decoded)
    requires 0 < b0 < 0x100
  {
    if b0 < 0x80 then
      Decoded(1, b0, false)
    else if b0 < 0xC0 || b0 > 0xF7 || !IsContinuation(b1) then
      Bad(1)
    else if b0 < 0xE0 then
      Checked(2, (b0 - 0xC0) * 64 + (b1 - 0x80), 0x80)
    else if !IsContinuation(b2) then
      Bad(2)
    else if b0 < 0xF0 then
      var u := (b0 - 0xE0) * 4096 + (b1 - 0x80) * 64 + (b2 - 0x80);
      if 0xD800 <= u <= 0xDBFF && IsLowSurrogateBytes(b3, b4, b5) then
        Checked(6, 0x1_0000 + (u - 0xD800) * 1024 + (b4 - 0xB0) * 64 + (b5 - 0x80), 0x1_0000)
      else
        Checked(3, u, 0x800)
    else if !IsContinuation(b3) then
      Bad(3)
    else
      Checked(4, (b0 - 0xF0) * 0x4_0000 + (b1 - 0x80) * 4096 + (b2 - 0x80) * 64 + (b3 - 0x80), 0x1_0000)
  }

  function DecodeUtf8(s: Text): (d: Decoded)
    requires s != [] && IsText(Utf8, s)
    ensures d.n == 1 || d.n == 2 || d.n == 3 || d.n == 4 || d.n == 6
    ensures d.n <= |s|
    ensures d.u < 0x11_0000
    ensures |EncodeUtf8(d.u)| <= d.n && |EncodePairs(d.u)| <= d.n
  {
    DecodeBytes(s[0], At(s, 1), At(s, 2), At(s, 3), At(s, 4), At(s, 5))
  }

  /**
   The two units of a surrogate pair combined. 55287 is 0xD800 less 9: shifted left by ten bits, 64 would
   stand for the 0x10000 to be added, and 55 for the 0xDC00 to be taken off the second unit.
   */
  function CombinePair(a: uchar32, b: uchar32): Decoded {
    var u := Wrap(b + Wrap(a - 55287) * 1024);
    if IsValid(u) then Decoded(2, u, false) else Bad(2)
  }

  /** The 16-bit units are promoted to signed int before the subtractions: no wrap-around. */
  function DecodeUtf16(s: Text): Decoded
    requires s != [] && IsText(Utf16, s)
  {
    if IsValid(s[0]) then Decoded(1, s[0], false)
    else if s[0] - 0xD800 >= 0x400 || At(s, 1) - 0xDC00 >= 0x400 then Bad(1)
    else CombinePair(s[0], At(s, 1))
  }

  /** The same two tests on unsigned 32-bit units wrap around, so they test both ends of a range. */
  function DecodeUtf32(s: Text): (d: Decoded)
    requires s != [] && IsText(Utf32, s)
    ensures d.n <= |s|
  {
    if IsValid(s[0]) then Decoded(1, s[0], false)
    else if Wrap(s[0] - 0xD800) >= 0x400 || Wrap(At(s, 1) - 0xDC00) >= 0x400 then Bad(1)
    else CombinePair(s[0], At(s, 1))
  }

  /**
   What the promotion costs: the two decoders agree on 16-bit units exactly unless a high surrogate is
   followed by a unit below the low surrogates, or by the end.
   */
  lemma Utf16TestsOneEnd(s: Text)
    requires s != [] && IsText(Utf16, s)
    ensures IsText(Utf32, s)
    ensures DecodeUtf16(s) == DecodeUtf32(s) <==> !(0xD800 <= s[0] <= 0xDBFF && At(s, 1) < 0xDC00)
  {
  }

  /** What is then read: a number that has nothing to do with either unit, unless it is no valid code point. */
  lemma BrokenPairExactly(s: Text)
    requires s != [] && IsText(Utf16, s) && 0xD800 <= s[0] <= 0xDBFF && At(s, 1) < 0xDC00
    ensures
      var u := 0x2400 + (s[0] - 0xD800) * 1024 + At(s, 1);
      DecodeUtf16(s) == if IsValid(u) then Decoded(2, u, false) else Bad(2)
  {
  }

  /** For instance, a lone high surrogate and the letter after it are accepted as one code point. */
  lemma Utf16AcceptsBrokenPair()
    ensures DecodeUtf16([0xD800, 0x41]) == Decoded(2, 0x2441, false)
    ensures DecodeUtf32([0xD800, 0x41]) == Bad(1)
  {
  }

  function Decode(f: Form, s: Text): (d: Decoded)
    requires s != [] && IsText(f, s)
    ensures 1 <= d.n <= |s| + 1
    ensures d.u < 0x11_0000 && d.u != 0
    ensures f != Utf16 ==> d.n <= |s|
    ensures d.err ==> d.u == QUESTION_MARK
    ensures !d.err ==> IsScalar(d.u)
  {
    match f
    case Utf8 => DecodeUtf8(s)
    case Utf16 => DecodeUtf16(s)
    case Utf32 => DecodeUtf32(s)
  }

  /** No character takes more units in another form than it took bytes. */
  lemma NeverLonger(s: Text, to: Form)
    requires s != [] && IsText(Utf8, s)
    ensures |Encode(to, Decode(Utf8, s).u)| <= Decode(Utf8, s).n
  {
  }

  /** Six-bit digits, from a number and back. */
  lemma Digits(u: int)
    requires 0 <= u
    ensures u == u / 64 * 64 + u % 64
    ensures u / 64 == u / 4096 * 64 + u / 64 % 64
    ensures u / 4096 == u / 0x4_0000 * 64 + u / 4096 % 64
  {
  }

  lemma FromDigits(a: int, b: int, c: int, d: int)
    requires 0 <= a && 0 <= b < 64 && 0 <= c < 64 && 0 <= d < 64
    ensures var u := a * 0x4_0000 + b * 4096 + c * 64 + d;
            u / 0x4_0000 == a && u / 4096 == a * 64 + b && u / 4096 % 64 == b && u / 64 % 64 == c && u % 64 == d
  {
  }

  lemma DecodeEncode1(s: Text, u: int)
    requires IsText(Utf8, s) && 1 <= |s| && 0 < u <= 0x7F
    requires s[..1] == EncodeUtf8(u)
    ensures DecodeUtf8(s) == Decoded(1, u, false)
  {
  }

  lemma DecodeEncode2(s: Text, u: int)
    requires IsText(Utf8, s) && 2 <= |s| && 0x80 <= u <= 0x7FF
    requires s[..2] == EncodeUtf8(u)
    ensures DecodeUtf8(s) == Decoded(2, u, false)
  {
  }

  lemma DecodeEncode3(s: Text, u: int)
    requires IsText(Utf8, s) && 3 <= |s| && 0x800 <= u <= 0xFFFF && IsValid(u)
    requires s[..3] == EncodeUtf8(u)
    ensures DecodeUtf8(s) == Decoded(3, u, false)
  {
    assert s[0] == s[..3][0] && s[1] == s[..3][1] && s[2] == s[..3][2];
    Digits(u);
  }

  lemma DecodeEncode4(s: Text, u: int)
    requires IsText(Utf8, s) && 4 <= |s| && 0xFFFF < u < 0x11_0000 && IsValid(u)
    requires s[..4] == EncodeUtf8(u)
    ensures DecodeUtf8(s) == Decoded(4, u, false)
  {
    assert s[0] == s[..4][0] && s[1] == s[..4][1] && s[2] == s[..4][2] && s[3] == s[..4][3];
    assert s[0] == 0xF0 + u / 0x4_0000;
    Digits(u);
  }

  lemma CombineSplit(u: int)
    requires 0xFFFF < u < 0x11_0000 && IsValid(u)
    ensures CombinePair(0xD800 + (u - 0x1_0000) / 1024, 0xDC00 + u % 1024) == Decoded(2, u, false)
  {
    var h := (u - 0x1_0000) / 1024;
    assert u == 0x1_0000 + h * 1024 + u % 1024;
    assert Wrap(0xD800 + h - 55287) == 0xD800 + h - 55287;
  }

  lemma DecodeEncodePair(f: Form, s: Text, u: int)
    requires f != Utf8 && IsText(f, s) && 2 <= |s| && 0xFFFF < u < 0x11_0000 && IsValid(u)
    requires s[..2] == EncodePairs(u)
    ensures Decode(f, s) == Decoded(2, u, false)
  {
    var hi, lo := s[0], s[1];
    assert hi == s[..2][0] && lo == s[..2][1];
    CombineSplit(u);
    assert 0xD800 <= hi <= 0xDBFF && 0xDC00 <= lo <= 0xDFFF;
  }

  /** Decoding undoes encoding, whatever follows. */
  lemma DecodeEncode(f: Form, u: uchar32, rest: Text)
    requires IsScalar(u) && IsText(f, rest)
    ensures IsText(f, Encode(f, u) + rest)
    ensures Decode(f, Encode(f, u) + rest) == Decoded(|Encode(f, u)|, u, false)
  {
    var e := Encode(f, u);
    var s := e + rest;
    assert IsText(f, e);
    assert s[..|e|] == e;
    if f != Utf8 {
      if u > 0xFFFF {
        DecodeEncodePair(f, s, u);
      }
    } else if u <= 0x7F {
      DecodeEncode1(s, u);
    } else if u <= 0x7FF {
      DecodeEncode2(s, u);
    } else if u <= 0xFFFF {
      DecodeEncode3(s, u);
    } else {
      DecodeEncode4(s, u);
    }
  }

  lemma EncodeDecode2(s: Text)
    requires s != [] && IsText(Utf8, s)
    requires !DecodeUtf8(s).err && DecodeUtf8(s).n == 2
    ensures s[..2] == EncodeUtf8(DecodeUtf8(s).u)
  {
  }

  lemma EncodeDecode3(s: Text)
    requires s != [] && IsText(Utf8, s)
    requires !DecodeUtf8(s).err && DecodeUtf8(s).n == 3
    ensures s[..3] == EncodeUtf8(DecodeUtf8(s).u)
  {
    assert At(s, 1) == s[1] && At(s, 2) == s[2];
    FromDigits(0, s[0] - 0xE0, s[1] - 0x80, s[2] - 0x80);
  }

  lemma EncodeDecode4(s: Text)
    requires s != [] && IsText(Utf8, s)
    requires !DecodeUtf8(s).err && DecodeUtf8(s).n == 4
    ensures s[..4] == EncodeUtf8(DecodeUtf8(s).u)
  {
    hide IsValid, EncodePairs;
    assert At(s, 1) == s[1] && At(s, 2) == s[2] && At(s, 3) == s[3];
    FromDigits(s[0] - 0xF0, s[1] - 0x80, s[2] - 0x80, s[3] - 0x80);
    assert (s[0] - 0xF0) % 8 == s[0] - 0xF0;
  }

  /** Encoding undoes decoding: an accepted character that is not a 6-byte one is spelled as the encoder spells it. */
  lemma EncodeDecode(s: Text)
    requires s != [] && IsText(Utf8, s)
    requires !DecodeUtf8(s).err && DecodeUtf8(s).n != 6
    ensures s[..DecodeUtf8(s).n] == EncodeUtf8(DecodeUtf8(s).u)
  {
    var n := DecodeUtf8(s).n;
    if n == 2 {
      EncodeDecode2(s);
    } else if n == 3 {
      EncodeDecode3(s);
    } else if n == 4 {
      EncodeDecode4(s);
    }
  }

  /** Three bytes read as digits are spelled back as the same three bytes. */
  lemma ThreeByteForm(b0: uchar32, b1: uchar32, b2: uchar32)
    requires 0xE0 <= b0 <= 0xEF && IsContinuation(b1) && IsContinuation(b2)
    requires b0 == 0xE0 ==> b1 >= 0xA0
    ensures EncodeUtf8((b0 - 0xE0) * 4096 + (b1 - 0x80) * 64 + (b2 - 0x80)) == [b0, b1, b2]
  {
    FromDigits(0, b0 - 0xE0, b1 - 0x80, b2 - 0x80);
  }

  lemma PairForm(h: int, l: int)
    requires 0 <= h < 1024 && 0 <= l < 1024
    ensures EncodePairs(0x1_0000 + h * 1024 + l) == [0xD800 + h, 0xDC00 + l]
  {
  }

  lemma SixByteCase(s: Text)
    requires s != [] && IsText(Utf8, s)
    requires DecodeUtf8(s).n == 6
    ensures s[0] == s[3] == 0xED && 0xA0 <= s[1] < 0xB0 <= s[4] < 0xC0
    ensures IsContinuation(s[2]) && IsContinuation(s[5])
    ensures
      var u := 0x1_0000 + (s[1] - 0xA0) * 65536 + (s[2] - 0x80) * 1024 + (s[4] - 0xB0) * 64 + (s[5] - 0x80);
      DecodeUtf8(s) == Checked(6, u, 0x1_0000)
  {
  }

  /** The bytes start with the two surrogates of a pair, each encoded as if it were a three-byte character. */
  ghost predicate StartsWithPair(s: Text, hi: uchar32, lo: uchar32) {
    && 0xD800 <= hi <= 0xDBFF && 0xDC00 <= lo <= 0xDFFF
    && |s| >= 6 && s[..6] == EncodeUtf8(hi) + EncodeUtf8(lo)
  }

  /** A 6-byte character is such a pair ... */
  lemma SixBytesAreSurrogates(s: Text) returns (hi: uchar32, lo: uchar32)
    requires s != [] && IsText(Utf8, s)
    requires DecodeUtf8(s).n == 6
    ensures StartsWithPair(s, hi, lo)
    ensures !DecodeUtf8(s).err ==> EncodePairs(DecodeUtf8(s).u) == [hi, lo]
  {
    hide DecodeUtf8, EncodeUtf8, EncodePairs;
    SixByteCase(s);
    hi := 0xD800 + (s[1] - 0xA0) * 64 + (s[2] - 0x80);
    lo := 0xDC00 + (s[4] - 0xB0) * 64 + (s[5] - 0x80);
    ThreeByteForm(s[0], s[1], s[2]);
    ThreeByteForm(s[3], s[4], s[5]);
    assert EncodeUtf8(hi) == [s[0], s[1], s[2]] && EncodeUtf8(lo) == [s[3], s[4], s[5]];
    PairForm(hi - 0xD800, lo - 0xDC00);
  }

  /** The code point a pair stands for, in the terms of section 2.2 of RFC 2781. */
  function OfPair(hi: uchar32, lo: uchar32): uchar32
    requires 0xD800 <= hi <= 0xDBFF && 0xDC00 <= lo <= 0xDFFF
  {
    0x1_0000 + (hi - 0xD800) * 1024 + (lo - 0xDC00)
  }

  /** ... and every such pair is read as one 6-byte character, the code point the pair stands for. */
  lemma PairIsSixBytes(s: Text, hi: uchar32, lo: uchar32)
    requires IsText(Utf8, s) && StartsWithPair(s, hi, lo)
    ensures DecodeUtf8(s) == Checked(6, OfPair(hi, lo), 0x1_0000)
  {
    hide EncodeUtf8, EncodePairs, IsValid, UnitLimit;
    var h, l := EncodeUtf8(hi), EncodeUtf8(lo);
    assert forall i :: 0 <= i < 6 ==> s[i] == s[..6][i];
    Surrogate(hi);
    Surrogate(lo);
    assert s[0] == h[0] && s[1] == h[1] && s[2] == h[2] && s[3] == l[0] && s[4] == l[1] && s[5] == l[2];
  }

  lemma Surrogate(u: uchar32)
    requires 0xD800 <= u <= 0xDFFF
    ensures EncodeUtf8(u) == [0xED, 0x80 + (u - 0xD000) / 64, 0x80 + (u - 0xD000) % 64]
  {
  }

  // How many units are taken, good or bad: what comes next is found again as soon as possible.

  /** The length a lead byte announces; bytes that lead nothing stand alone. */
  function Announced(b: uchar32): nat {
    if 0xC0 <= b < 0xE0 then 2 else if 0xE0 <= b < 0xF0 then 3 else if 0xF0 <= b < 0xF8 then 4 else 1
  }

  /** How many bytes from `i` on are continuation bytes. */
  function Following(s: Text, i: nat): (n: nat)
    requires i <= |s|
    ensures i + n <= |s|
    ensures forall k :: i <= k < i + n ==> 0x80 <= s[k] < 0xC0
    ensures i + n < |s| ==> !(0x80 <= s[i + n] < 0xC0)
    decreases |s| - i
  {
    if i < |s| && 0x80 <= s[i] < 0xC0 then 1 + Following(s, i + 1) else 0
  }

  /** A character, good or bad, is cut short by the first byte that does not continue it, and never takes that byte. */
  lemma BytesTaken(s: Text)
    requires s != [] && IsText(Utf8, s)
    ensures
      var n := DecodeUtf8(s).n;
      n != 6 ==>
        && n == (if Announced(s[0]) <= 1 + Following(s, 1) then Announced(s[0]) else 1 + Following(s, 1))
        && forall i :: 1 <= i < n ==> 0x80 <= s[i] < 0xC0
  {
    hide IsValid, EncodeUtf8, EncodePairs;
    var f := Following(s, 1);
    assert f >= 1 <==> IsContinuation(At(s, 1));
    assert f >= 2 <==> IsContinuation(At(s, 1)) && IsContinuation(At(s, 2));
    assert f >= 3 <==> IsContinuation(At(s, 1)) && IsContinuation(At(s, 2)) && IsContinuation(At(s, 3));
  }

  /** It is good exactly if it is spelled as the encoder spells a valid code point ... */
  lemma GoodExactly(s: Text)
    requires s != [] && IsText(Utf8, s)
    ensures !DecodeUtf8(s).err && DecodeUtf8(s).n != 6 <==> exists u :: StartsWithEncoding(s, u)
  {
    hide DecodeUtf8, EncodeUtf8, EncodePairs, IsValid;
    var d := DecodeUtf8(s);
    if !d.err && d.n != 6 {
      EncodeDecode(s);
      DecodedIsScalar(s);
      assert StartsWithEncoding(s, d.u);
    }
    if u :| StartsWithEncoding(s, u) {
      var n := |EncodeUtf8(u)|;
      assert s == s[..n] + s[n..];
      DecodeEncode(Utf8, u, s[n..]);
      ShortEncoding(s, u);
    }
  }

  /** ... or is a pair that stands for one. */
  lemma GoodPairExactly(s: Text)
    requires s != [] && IsText(Utf8, s)
    ensures !DecodeUtf8(s).err && DecodeUtf8(s).n == 6 <==>
            exists hi: uchar32, lo: uchar32 :: StartsWithPair(s, hi, lo) && IsValid(OfPair(hi, lo))
  {
    hide DecodeUtf8, EncodeUtf8, EncodePairs, IsValid;
    if DecodeUtf8(s).n == 6 {
      var hi, lo := SixBytesAreSurrogates(s);
      PairIsSixBytes(s, hi, lo);
    }
    if hi: uchar32, lo: uchar32 :| StartsWithPair(s, hi, lo) && IsValid(OfPair(hi, lo)) {
      PairIsSixBytes(s, hi, lo);
    }
  }

  ghost predicate StartsWithEncoding(s: Text, u: uchar32) {
    IsScalar(u) && |EncodeUtf8(u)| <= |s| && s[..|EncodeUtf8(u)|] == EncodeUtf8(u)
  }

  lemma DecodedIsScalar(s: Text)
    requires s != [] && IsText(Utf8, s) && !DecodeUtf8(s).err
    ensures IsScalar(DecodeUtf8(s).u) && |EncodeUtf8(DecodeUtf8(s).u)| <= |s|
  {
    assert Decode(Utf8, s) == DecodeUtf8(s);
  }

  lemma ShortEncoding(s: Text, u: uchar32)
    requires s != [] && IsText(Utf8, s) && Decode(Utf8, s) == Decoded(|Encode(Utf8, u)|, u, false)
    ensures DecodeUtf8(s) == Decoded(|EncodeUtf8(u)|, u, false) && |EncodeUtf8(u)| <= 4
  {
  }

  ghost predicate IsPair(s: Text) {
    |s| >= 2 && 0xD800 <= s[0] <= 0xDBFF && 0xDC00 <= s[1] <= 0xDFFF
  }

  /** The 32-bit decoder takes two units exactly of a pair, and one is good as it stands or not at all. */
  lemma Utf32Exactly(s: Text)
    requires s != [] && IsText(Utf32, s)
    ensures DecodeUtf32(s).n == if IsPair(s) then 2 else 1
    ensures !DecodeUtf32(s).err <==> IsValid(if IsPair(s) then OfPair(s[0], s[1]) else s[0])
    ensures !DecodeUtf32(s).err ==> DecodeUtf32(s).u == if IsPair(s) then OfPair(s[0], s[1]) else s[0]
  {
  }

  // The decoders proper: they read the buffer through a pointer.

  /** One more continuation byte: shift left by six, clear the lead marker `mark`, add the byte. */
  function Shifted(u: uchar32, mark: int, b: uchar32): (r: uchar32)
    requires b < 0x100
    ensures 0 <= u * 64 - mark + b - 0x80 < TWO_TO_THE_32 ==> r == u * 64 - mark + b - 0x80
  {
    Wrap(u * 64 - mark + b - 0x80)
  }

  /** The surrogate pair of a 6-byte sequence, from the first half and the last two bytes of the second. */
  function CombineBytes(u: uchar32, b4: uchar32, b5: uchar32): (r: uchar32)
    requires b4 < 0x100 && b5 < 0x100
    ensures 0xD800 <= u <= 0xDBFF && 0xB0 <= b4 < 0xC0 && IsContinuation(b5)
            ==> r == 0x1_0000 + (u - 0xD800) * 1024 + (b4 - 0xB0) * 64 + (b5 - 0x80)
  {
    Wrap(0x1_0000 + Wrap(u - 0xD800) * 1024 + (b4 as int - 0xB0) % 256 * 64 + b5 - 0x80)
  }

  lemma LeadByte(u: uchar32)
    requires u < 0x100
    ensures Wrap(u - 0xC0) > 0x37 <==> u < 0xC0 || u > 0xF7
  {
  }

  predicate HasBit(u: uchar32, bit: uchar32)
    requires bit > 0
  {
    u / bit % 2 == 1
  }

  /** The bit tested to find a longer sequence is set iff the digits above it are not all zero. */
  lemma TopBit(u: uchar32)
    ensures u < 2 * 0x800 ==> (HasBit(u, 0x800) <==> u >= 0x800)
    ensures u < 2 * 0x1_0000 ==> (HasBit(u, 0x1_0000) <==> u >= 0x1_0000)
  {
  }

  /** The two marker bits are those of a continuation byte. */
  predicate IsMarked(b: uchar32) {
    b / 64 == 2
  }

  /** Looking ahead as far as the terminator. */
  lemma ReadAhead(p: array<uchar32>, at: nat, end: nat, k: nat)
    requires Terminated(Utf8, p, at, end) && at < end && k <= end - at
    ensures at + k < p.Length && p[at + k] == At(p[at..end], k) && p[at + k] < 0x100
    ensures p[at + k] == 0 <==> k == end - at
    ensures IsMarked(p[at + k]) <==> IsContinuation(p[at + k])
  {
  }

  /**
   The byte decoder. `u` accumulates the bits read so far, lead marker included, and each test of a
   marker bit decides whether to go on; it jumps out as soon as the sequence is complete or broken.
   */
  method UTF8ToUChar32(p: array<uchar32>, at: nat, ghost end: nat) returns (n: nat, u: uchar32, err: bool)
    requires Terminated(Utf8, p, at, end) && at < end
    ensures Decoded(n, u, err) == DecodeUtf8(p[at..end])
  {
    hide IsValid, IsText, EncodeUtf8, EncodePairs, UnitLimit, HasBit, IsMarked, Shifted, Wrap;
    ghost var s := p[at..end];
    ghost var d := DecodeUtf8(s);
    ReadAhead(p, at, end, 0);
    n := 1;
    u := p[at];
    var min: uchar32 := 0;
    if u < 0x80 {
      return n, u, false;
    }
    label decodeError: {
      label decodeFinished: {
        // a lead byte from 0xC0 to 0xF7
        ReadAhead(p, at, end, 1);
        LeadByte(u);
        if Wrap(u - 0xC0) > 0x37 || !IsMarked(p[at + 1]) {
          assert d == Bad(n);
          break decodeError;
        }
        u := Shifted(u, 0xC0 * 64, p[at + 1]);
        n, min := 2, 0x80;
        TopBit(u);
        if !HasBit(u, 0x800) {
          assert d == Checked(n, u, min);
          break decodeFinished;
        }
        ReadAhead(p, at, end, 2);
        if !IsMarked(p[at + 2]) {
          assert d == Bad(n);
          break decodeError;
        }
        u := Shifted(u, 0x20 * 4096, p[at + 2]);
        n, min := 3, 0x800;
        TopBit(u);
        ReadAhead(p, at, end, 3);
        if !HasBit(u, 0x1_0000) {
          n, u, min := MaybeCESU8(p, at, end, u);
          assert d == Checked(n, u, min);
          break decodeFinished;
        }
        if !IsMarked(p[at + 3]) {
          assert d == Bad(n);
          break decodeError;
        }
        u := Shifted(u, 0x10 * 0x4_0000, p[at + 3]);
        n, min := 4, 0x1_0000;
        assert d == Checked(n, u, min);
      }
      if u >= min && IsValidUChar32(u) {
        return n, u, false;
      }
    }
    u, err := QUESTION_MARK, true;
  }

  /** The last part of the byte decoder: does a complete surrogate pair start here? */
  method MaybeCESU8(p: array<uchar32>, at: nat, ghost end: nat, u0: uchar32) returns (n: nat, u: uchar32, min: uchar32)
    requires Terminated(Utf8, p, at, end) && at + 3 <= end
    requires u0 < 0x1_0000
    ensures
      var s := p[at..end];
      if 0xD800 <= u0 <= 0xDBFF && IsLowSurrogateBytes(At(s, 3), At(s, 4), At(s, 5)) then
        n == 6 && min == 0x1_0000
        && u == 0x1_0000 + (u0 - 0xD800) * 1024 + (At(s, 4) - 0xB0) * 64 + (At(s, 5) - 0x80)
      else
        n == 3 && min == 0x800 && u == u0
  {
    n, u, min := 3, u0, 0x800;
    ReadAhead(p, at, end, 3);
    if Wrap(u - 0xD800) < 0x400 && p[at + 3] == 0xED {
      ReadAhead(p, at, end, 4);
      if (p[at + 4] as int - 0xB0) % 256 < 0x10 {
        ReadAhead(p, at, end, 5);
        if IsMarked(p[at + 5]) {
          u := CombineBytes(u, p[at + 4], p[at + 5]);
          n, min := 6, 0x1_0000;
        }
      }
    }
  }

  method UTF16ToUChar32(p: array<uchar32>, at: nat, ghost end: nat) returns (n: nat, u: uchar32, err: bool)
    requires Terminated(Utf16, p, at, end) && at < end
    ensures Decoded(n, u, err) == DecodeUtf16(p[at..end])
  {
    if IsValidUChar32(p[at]) {
      n, u, err := 1, p[at], false;
    } else if p[at] as int - 55296 >= 0x400 || p[at + 1] as int - 56320 >= 0x400 {
      n, u, err := 1, QUESTION_MARK, true;
    } else {
      u := Wrap(p[at + 1] + Wrap(p[at] - 55287) * 1024);
      err := !IsValidUChar32(u);
      if err {
        u := QUESTION_MARK;
      }
      n := 2;
    }
  }

  method UTF32ToUChar32(p: array<uchar32>, at: nat, ghost end: nat) returns (n: nat, u: uchar32, err: bool)
    requires Terminated(Utf32, p, at, end) && at < end
    ensures Decoded(n, u, err) == DecodeUtf32(p[at..end])
  {
    if IsValidUChar32(p[at]) {
      n, u, err := 1, p[at], false;
    } else if Wrap(p[at] as int - 55296) >= 0x400 || Wrap(p[at + 1] as int - 56320) >= 0x400 {
      n, u, err := 1, QUESTION_MARK, true;
    } else {
      u := Wrap(p[at + 1] + Wrap(p[at] - 55287) * 1024);
      err := !IsValidUChar32(u);
      if err {
        u := QUESTION_MARK;
      }
      n := 2;
    }
  }

  method ToUChar32(f: Form, p: array<uchar32>, at: nat, ghost end: nat) returns (n: nat, u: uchar32, err: bool)
    requires Terminated(f, p, at, end) && at < end
    ensures Decoded(n, u, err) == Decode(f, p[at..end])
  {
    match f
    case Utf8 => n, u, err := UTF8ToUChar32(p, at, end);
    case Utf16 => n, u, err := UTF16ToUChar32(p, at, end);
    case Utf32 => n, u, err := UTF32ToUChar32(p, at, end);
  }
}
