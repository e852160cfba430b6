/** Repair of a byte text in its own buffer. */
module Repair {
  import opened CodePoints
  import opened Encoders
  import opened Decoders
  import opened Transcoder
  import opened Conversions
  import opened Validation

  /** The room the repair claims, whatever the size of the buffer. */
  const REPAIR_ROOM: nat := 65534

  /** Conversion of a separate copy to bytes, skipping what is bad. */
  function Repaired(s: Text): (t: Text)
    requires IsText(Utf8, s)
    ensures ValidText(Utf8, t) && |t| <= |s| && |t| <= REPAIR_ROOM
  {
    OtherFormsStayInside(Utf8, s);
    RepairIsValid(s);
    Converted(Utf8, Utf8, s, REPAIR_ROOM, SKIP).out
  }

  /** The result is made of encoded code points only, and is never longer than the original. */
  lemma RepairIsValid(s: Text)
    requires IsText(Utf8, s) && StaysInside(Utf8, s)
    ensures
      var r := Converted(Utf8, Utf8, s, REPAIR_ROOM, SKIP);
      r.Done? && ValidText(Utf8, r.out) && |r.out| <= |s| && |r.out| <= REPAIR_ROOM
  {
    hide Encode, Decode, EncodeAll, CodePointsOf, StaysInside;
    var cs := Characters(Utf8, s);
    var k := ConvertedStops(Utf8, Utf8, s, REPAIR_ROOM, SKIP);
    SpelledIsValid(cs[..k], SKIP);
    assert cs[..|cs|] == cs;
    SpelledGrows(Utf8, cs, k, |cs|, SKIP);
    BytesNeverGrow(Utf8, s, SKIP);
  }

  lemma SpelledIsValid(cs: seq<Character>, policy: nat)
    ensures ValidText(Utf8, Spelled(Utf8, cs, policy))
  {
  }

  /** Up to the claimed room, exactly the good characters are kept, in order. */
  lemma RepairKeepsTheGood(s: Text)
    requires IsText(Utf8, s) && |s| <= REPAIR_ROOM
    ensures StaysInside(Utf8, s) && Repaired(s) == Spelled(Utf8, Characters(Utf8, s), SKIP)
  {
    OtherFormsStayInside(Utf8, s);
    NothingCutOff(Utf8, s, REPAIR_ROOM, SKIP);
  }

  // What is broken costs nothing but itself: every ASCII character is kept.

  function Ascii(s: Text): Text {
    if s == [] then [] else (if s[0] < 0x80 then [s[0]] else []) + Ascii(s[1..])
  }

  lemma {:induction false} AsciiAppend(s: Text, t: Text)
    ensures Ascii(s + t) == Ascii(s) + Ascii(t)
  {
    if s == [] {
      assert s + t == t;
    } else {
      assert (s + t)[1..] == s[1..] + t;
      AsciiAppend(s[1..], t);
    }
  }

  lemma {:induction false} NoAscii(s: Text)
    requires forall i :: 0 <= i < |s| ==> s[i] >= 0x80
    ensures Ascii(s) == []
  {
    if s != [] {
      NoAscii(s[1..]);
    }
  }

  lemma AsciiOfCharacter(s: Text)
    requires s != [] && IsText(Utf8, s)
    ensures Ascii(s[..Decode(Utf8, s).n]) == Ascii(Left(Utf8, Decode(Utf8, s), SKIP))
  {
    hide Ascii, DecodeUtf8, EncodeUtf8;
    var d := Decode(Utf8, s);
    DecodeIsDecodeUtf8(s);
    if d.err {
      BadHasNoAscii(s);
      NoAscii(s[..d.n]);
      NoAscii([]);
    } else if d.n == 6 {
      SixBytesHaveNoAscii(s);
      NoAscii(s[..6]);
      NoAscii(Encode(Utf8, d.u));
    } else {
      EncodeDecode(s);
    }
  }

  lemma BadHasNoAscii(s: Text)
    requires s != [] && IsText(Utf8, s) && DecodeUtf8(s).err
    ensures forall i :: 0 <= i < DecodeUtf8(s).n ==> s[i] >= 0x80
  {
    if DecodeUtf8(s).n == 6 {
      SixByteCase(s);
    } else {
      BytesTaken(s);
    }
  }

  lemma SixBytesHaveNoAscii(s: Text)
    requires s != [] && IsText(Utf8, s) && DecodeUtf8(s).n == 6 && !DecodeUtf8(s).err
    ensures forall i :: 0 <= i < 6 ==> s[i] >= 0x80
    ensures var e := Encode(Utf8, DecodeUtf8(s).u); forall i :: 0 <= i < |e| ==> e[i] >= 0x80
  {
    SixByteCase(s);
  }

  lemma {:induction false} SpelledKeepsAscii(s: Text)
    requires IsText(Utf8, s) && StaysInside(Utf8, s)
    ensures Ascii(Spelled(Utf8, Characters(Utf8, s), SKIP)) == Ascii(s)
  {
    hide Ascii, Decode, Encode, EncodeAll, Left, Spelled, Characters, StaysInside;
    if s == [] {
      NoCharacters(Utf8);
      SpelledNone(Utf8, SKIP);
    } else {
      FirstCharacter(Utf8, s);
      var d, cs := Decode(Utf8, s), Characters(Utf8, s);
      AsciiOfCharacter(s);
      SpelledKeepsAscii(s[d.n..]);
      SpelledAppend(Utf8, [d], cs[1..], SKIP);
      SpelledOne(Utf8, d, SKIP);
      AsciiAppend(Left(Utf8, d, SKIP), Spelled(Utf8, cs[1..], SKIP));
      AsciiAppend(s[..d.n], s[d.n..]);
      assert s == s[..d.n] + s[d.n..];
    }
  }

  lemma RepairKeepsAscii(s: Text)
    requires IsText(Utf8, s) && |s| <= REPAIR_ROOM
    ensures Ascii(Repaired(s)) == Ascii(s)
  {
    hide Ascii, Decode, Encode, EncodeAll, Spelled, Characters, StaysInside, Repaired;
    RepairKeepsTheGood(s);
    SpelledKeepsAscii(s);
  }

  /** Repair leaves a text alone iff it is valid and fits. */
  lemma RepairFixes(s: Text)
    requires IsText(Utf8, s)
    ensures Repaired(s) == s <==> ValidText(Utf8, s) && |s| <= REPAIR_ROOM
  {
    hide Encode, Decode, EncodeAll, StaysInside, IsText;
    if ValidText(Utf8, s) && |s| <= REPAIR_ROOM {
      var us :| AllScalar(us) && s == EncodeAll(Utf8, us);
      ConvertEncoded(Utf8, Utf8, us, REPAIR_ROOM, SKIP);
    }
  }

  lemma RepairIdempotent(s: Text)
    requires IsText(Utf8, s)
    ensures IsText(Utf8, Repaired(s)) && Repaired(Repaired(s)) == Repaired(s)
  {
    hide Encode, Decode, StaysInside, IsText, Repaired;
    var us :| AllScalar(us) && Repaired(s) == EncodeAll(Utf8, us);
    EncodeAllIsText(Utf8, us);
    RepairFixes(Repaired(s));
  }

  /**
   The repair reads and writes one buffer, of which nothing is known but that it holds the text. The
   writing never overtakes the reading, so the bytes are those of the repaired copy.
   */
  method UnicodeRepair(p: array<uchar32>, ghost end: nat) returns (r: nat)
    requires Terminated(Utf8, p, 0, end)
    modifies p
    ensures var t := Repaired(old(p[0..end])); r == |t| + 1 && |t| <= end && p[..|t|] == t && p[|t|] == 0
  {
    hide Encode, Decode, StaysInside, IsText;
    OtherFormsStayInside(Utf8, p[0..end]);
    RepairIsValid(p[0..end]);
    r := ConvertT(Utf8, Utf8, p, 0, p, 65535, SKIP, end);
  }
}
