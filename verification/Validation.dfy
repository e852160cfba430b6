/** Validation of byte texts, and counting and skipping their characters. */
module Validation {
  import opened CodePoints
  import opened Encoders
  import opened Decoders
  import opened Transcoder
  import opened Conversions

  /** The empty text is valid; otherwise the next character decides, and then the rest. */
  lemma ValidByCharacter(s: Text)
    requires IsText(Utf8, s)
    ensures s == [] ==> ValidText(Utf8, s)
    ensures s != [] ==>
              var d := Decode(Utf8, s);
              ValidText(Utf8, s) <==> !d.err && d.n != 6 && ValidText(Utf8, s[d.n..])
  {
    if s == [] {
      assert EncodeAll(Utf8, []) == s;
    } else {
      var d := Decode(Utf8, s);
      if ValidText(Utf8, s) {
        ValidStartsClean(s);
      }
      if !d.err && d.n != 6 && ValidText(Utf8, s[d.n..]) {
        PrependCharacter(s);
      }
    }
  }

  lemma ValidStartsClean(s: Text)
    requires IsText(Utf8, s) && s != [] && ValidText(Utf8, s)
    ensures var d := Decode(Utf8, s); !d.err && d.n != 6 && ValidText(Utf8, s[d.n..])
  {
    hide Encode, Decode;
    var us :| AllScalar(us) && s == EncodeAll(Utf8, us);
    var rest := EncodeAll(Utf8, us[1..]);
    EncodeAllIsText(Utf8, us[1..]);
    DecodeEncode(Utf8, us[0], rest);
    assert s[|Encode(Utf8, us[0])|..] == rest;
    assert AllScalar(us[1..]);
  }

  lemma PrependCharacter(s: Text)
    requires IsText(Utf8, s) && s != []
    requires var d := Decode(Utf8, s); !d.err && d.n != 6 && ValidText(Utf8, s[d.n..])
    ensures ValidText(Utf8, s)
  {
    hide DecodeUtf8, EncodeUtf8;
    var d := Decode(Utf8, s);
    var us :| AllScalar(us) && s[d.n..] == EncodeAll(Utf8, us);
    EncodeDecode(s);
    assert s == s[..d.n] + s[d.n..];
    assert ([d.u] + us)[1..] == us;
    assert s == EncodeAll(Utf8, [d.u] + us);
  }

  method UnicodeValidate(p: array<uchar32>, at: nat, ghost end: nat) returns (valid: bool)
    requires Terminated(Utf8, p, at, end)
    ensures valid <==> ValidText(Utf8, p[at..end])
  {
    hide ValidText, Decode, IsText;
    var i := at;
    AtTerminator(Utf8, p, i, end);
    while p[i] != 0
      invariant Terminated(Utf8, p, i, end) && at <= i
      invariant p[i] != 0 <==> i < end
      invariant ValidText(Utf8, p[at..end]) <==> ValidText(Utf8, p[i..end])
      decreases end - i
    {
      ValidByCharacter(p[i..end]);
      var nCharSize, u, err := UTF8ToUChar32(p, i, end);
      assert Decode(Utf8, p[i..end]) == DecodeUtf8(p[i..end]) by { DecodeIsDecodeUtf8(p[i..end]); }
      if err || nCharSize == 6 {
        return false;
      }
      assert p[i..end][nCharSize..] == p[i + nCharSize..end];
      TextSuffix(p[i..end], nCharSize);
      i := i + nCharSize;
      AtTerminator(Utf8, p, i, end);
    }
    ValidByCharacter(p[i..end]);
    return true;
  }

  lemma DecodeIsDecodeUtf8(s: Text)
    requires s != [] && IsText(Utf8, s)
    ensures Decode(Utf8, s) == DecodeUtf8(s)
  {
  }

  lemma TextSuffix(s: Text, n: nat)
    requires IsText(Utf8, s) && n <= |s|
    ensures IsText(Utf8, s[n..])
  {
  }

  // Which spellings of a number as one to four bytes are accepted.

  /** The bits of `u` fit in the pattern of `n` bytes; zero in one byte would be the terminator. */
  predicate Fits(n: nat, u: int) {
    && 0 <= u
    && ((n == 1 && 0 < u < 0x80) || (n == 2 && u < 0x800) || (n == 3 && u < 0x1_0000) || (n == 4 && u < 0x20_0000))
  }

  /** The `n`-byte pattern holding the bits of `u`, whether or not a shorter one would do. */
  function Spelling(n: nat, u: int): (s: Text)
    requires Fits(n, u)
    ensures |s| == n && IsText(Utf8, s)
  {
    match n
    case 1 => [u]
    case 2 => [0xC0 + u / 64, 0x80 + u % 64]
    case 3 => [0xE0 + u / 4096, 0x80 + u / 64 % 64, 0x80 + u % 64]
    case _ => [0xF0 + u / 0x4_0000, 0x80 + u / 4096 % 64, 0x80 + u / 64 % 64, 0x80 + u % 64]
  }

  /** The least number that needs `n` bytes. */
  function Least(n: nat): uchar32 {
    if n == 1 then 0 else if n == 2 then 0x80 else if n == 3 then 0x800 else 0x1_0000
  }

  lemma DecodeSpelling(n: nat, u: int, s: Text)
    requires Fits(n, u) && n <= |s| && IsText(Utf8, s) && s[..n] == Spelling(n, u)
    ensures DecodeUtf8(s).n == 6 || DecodeUtf8(s) == Checked(n, u, Least(n))
  {
    hide EncodeUtf8, EncodePairs, IsValid;
    Digits(u);
    assert s[0] == s[..n][0];
    if n > 1 { assert s[1] == s[..n][1]; }
    if n > 2 { assert s[2] == s[..n][2]; }
    if n > 3 { assert s[3] == s[..n][3]; }
    if n == 1 { assert IsValid(u) by { AsciiIsValid(u); } }
  }

  lemma AsciiIsValid(u: int)
    requires 0 < u < 0x80
    ensures IsValid(u)
  {
  }

  lemma {:induction false} ValidAfterValid(us: Text, t: Text)
    requires AllScalar(us) && IsText(Utf8, t)
    ensures IsText(Utf8, EncodeAll(Utf8, us) + t)
    ensures ValidText(Utf8, EncodeAll(Utf8, us) + t) <==> ValidText(Utf8, t)
  {
    hide ValidText, Encode, Decode;
    EncodeAllIsText(Utf8, us);
    if us == [] {
      assert EncodeAll(Utf8, us) + t == t;
    } else {
      var rest := EncodeAll(Utf8, us[1..]) + t;
      var s := EncodeAll(Utf8, us) + t;
      ValidAfterValid(us[1..], t);
      assert s == Encode(Utf8, us[0]) + rest;
      DecodeEncode(Utf8, us[0], rest);
      assert s[|Encode(Utf8, us[0])|..] == rest;
      ValidByCharacter(s);
    }
  }

  /**
   Anywhere after a valid prefix, a number spelled in `n` bytes is accepted iff it is a valid code point
   and `n` is its shortest spelling: overlong forms, those of zero among them, surrogates (so also the two
   halves of a six-byte character) and noncharacters are rejected.
   */
  lemma OnlyShortestSpellings(us: Text, n: nat, u: int, rest: Text)
    requires AllScalar(us) && Fits(n, u) && IsText(Utf8, rest)
    ensures ValidText(Utf8, EncodeAll(Utf8, us) + (Spelling(n, u) + rest)) <==>
            IsValid(u) && n == |EncodeUtf8(u)| && ValidText(Utf8, rest)
  {
    hide ValidText, Encode, Decode, IsValid;
    var s := Spelling(n, u) + rest;
    assert IsText(Utf8, s);
    assert s[..n] == Spelling(n, u) && s[n..] == rest;
    ValidAfterValid(us, s);
    ValidByCharacter(s);
    DecodeIsDecodeUtf8(s);
    DecodeSpelling(n, u, s);
    if DecodeUtf8(s).n == 6 {
      SixByteSpelling(n, u, s);
    } else {
      CheckedIffShortest(n, u);
    }
  }

  lemma CheckedIffShortest(n: nat, u: int)
    requires Fits(n, u)
    ensures !Checked(n, u, Least(n)).err <==> IsValid(u) && n == |EncodeUtf8(u)|
  {
  }

  lemma SixByteSpelling(n: nat, u: int, s: Text)
    requires Fits(n, u) && n <= |s| && IsText(Utf8, s) && s[..n] == Spelling(n, u) && DecodeUtf8(s).n == 6
    ensures !IsValid(u)
  {
    SixByteCase(s);
    assert s[0] == s[..n][0];
    if n == 3 {
      assert s[1] == s[..n][1];
      Digits(u);
    }
  }

  // Counting and skipping.

  function Length(s: Text): nat
    requires IsText(Utf8, s) && StaysInside(Utf8, s)
  {
    |Characters(Utf8, s)|
  }

  /** What is left of `s` after skipping `n` characters, or all of them. */
  function Advanced(s: Text, n: int): (t: Text)
    requires IsText(Utf8, s) && StaysInside(Utf8, s)
    ensures |t| <= |s| && IsText(Utf8, t) && StaysInside(Utf8, t)
    decreases |s|
  {
    if n <= 0 || s == [] then s else Advanced(s[Decode(Utf8, s).n..], n - 1)
  }

  lemma AdvanceOne(s: Text, n: int)
    requires IsText(Utf8, s) && StaysInside(Utf8, s)
    ensures n > 0 && s != [] ==>
              var d := Decode(Utf8, s);
              && d.n <= |s| && IsText(Utf8, s[d.n..]) && StaysInside(Utf8, s[d.n..])
              && Advanced(s, n) == Advanced(s[d.n..], n - 1)
    ensures n <= 0 || s == [] ==> Advanced(s, n) == s
  {
  }

  /** Skipping `n` characters leaves the others, for any bytes and any `n`. */
  lemma {:induction false} LengthOfAdvanced(s: Text, n: int)
    requires IsText(Utf8, s) && StaysInside(Utf8, s)
    ensures n >= 0 ==> Length(Advanced(s, n)) == if Length(s) > n then Length(s) - n else 0
    ensures n >= 0 ==> Characters(Utf8, Advanced(s, n)) == Characters(Utf8, s)[if Length(s) > n then n else Length(s)..]
    ensures n < 0 ==> Advanced(s, n) == s
    decreases |s|
  {
    hide Decode, Advanced, Characters, StaysInside, IsText;
    AdvanceOne(s, n);
    if s == [] {
      NoCharacters(Utf8);
    } else {
      FirstCharacter(Utf8, s);
      if n > 0 {
        LengthOfAdvanced(s[Decode(Utf8, s).n..], n - 1);
      }
    }
  }

  /** Skipping in two steps is skipping in one. */
  lemma {:induction false} AdvanceTwice(s: Text, m: nat, n: nat)
    requires IsText(Utf8, s) && StaysInside(Utf8, s)
    ensures Advanced(Advanced(s, m), n) == Advanced(s, m + n)
    decreases |s|
  {
    hide Decode, Advanced, StaysInside, IsText;
    AdvanceOne(s, m);
    AdvanceOne(s, m + n);
    AdvanceOne(Advanced(s, m), n);
    if m > 0 && s != [] {
      AdvanceTwice(s[Decode(Utf8, s).n..], m - 1, n);
    }
  }

  lemma LengthOne(s: Text)
    requires IsText(Utf8, s) && StaysInside(Utf8, s)
    ensures s == [] ==> Length(s) == 0
    ensures s != [] ==>
              var d := Decode(Utf8, s);
              d.n <= |s| && IsText(Utf8, s[d.n..]) && StaysInside(Utf8, s[d.n..]) && Length(s) == 1 + Length(s[d.n..])
  {
  }

  method UnicodeLength(p: array<uchar32>, at: nat, ghost end: nat) returns (nChars: nat)
    requires Terminated(Utf8, p, at, end)
    ensures StaysInside(Utf8, p[at..end]) && nChars == Length(p[at..end])
  {
    hide Decode, DecodeUtf8, IsText, Length, StaysInside;
    OtherFormsStayInside(Utf8, p[at..end]);
    nChars := 0;
    var i := at;
    AtTerminator(Utf8, p, i, end);
    while p[i] != 0
      invariant Terminated(Utf8, p, i, end) && at <= i
      invariant p[i] != 0 <==> i < end
      invariant StaysInside(Utf8, p[i..end])
      invariant Length(p[at..end]) == nChars + Length(p[i..end])
      decreases end - i
    {
      LengthOne(p[i..end]);
      var n, u, err := UTF8ToUChar32(p, i, end);
      DecodeIsDecodeUtf8(p[i..end]);
      assert p[i..end][n..] == p[i + n..end];
      TextSuffix(p[i..end], n);
      i := i + n;
      nChars := nChars + 1;
      AtTerminator(Utf8, p, i, end);
    }
    LengthOne(p[i..end]);
  }

  method UnicodeAdvance(p: array<uchar32>, at: nat, nChars: int, ghost end: nat) returns (r: nat)
    requires Terminated(Utf8, p, at, end)
    ensures at <= r <= end
    ensures StaysInside(Utf8, p[at..end]) && p[r..end] == Advanced(p[at..end], nChars)
  {
    hide Decode, DecodeUtf8, IsText, Advanced, StaysInside;
    OtherFormsStayInside(Utf8, p[at..end]);
    r := at;
    var n := nChars;
    AtTerminator(Utf8, p, r, end);
    while n > 0 && p[r] != 0
      invariant Terminated(Utf8, p, r, end) && at <= r
      invariant p[r] != 0 <==> r < end
      invariant StaysInside(Utf8, p[r..end])
      invariant Advanced(p[r..end], n) == Advanced(p[at..end], nChars)
      decreases end - r
    {
      AdvanceOne(p[r..end], n);
      var nBytes, u, err := UTF8ToUChar32(p, r, end);
      DecodeIsDecodeUtf8(p[r..end]);
      assert p[r..end][nBytes..] == p[r + nBytes..end];
      TextSuffix(p[r..end], nBytes);
      r := r + nBytes;
      n := n - 1;
      AtTerminator(Utf8, p, r, end);
    }
    AdvanceOne(p[r..end], n);
  }
}
