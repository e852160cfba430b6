/**
 The encoding of Unicode Technical Report #26: a code point above U+FFFF is two surrogates of three bytes
 each. The converter reads it, the validator rejects it, and the repair turns it into proper bytes.
 */
module Cesu8 {
  import opened CodePoints
  import opened Encoders
  import opened Decoders
  import opened Transcoder
  import opened Conversions
  import opened Validation
  import opened Repair

  function HighOf(u: uchar32): uchar32
    requires 0xFFFF < u < 0x11_0000
  {
    0xD800 + (u - 0x1_0000) / 1024
  }

  function LowOf(u: uchar32): uchar32 {
    0xDC00 + u % 1024
  }

  function EncodeCesu(u: uchar32): (s: Text)
    requires IsScalar(u)
    ensures IsText(Utf8, s) && s != []
  {
    if u <= 0xFFFF then EncodeUtf8(u) else EncodeUtf8(HighOf(u)) + EncodeUtf8(LowOf(u))
  }

  function EncodeCesuAll(us: Text): (s: Text)
    requires AllScalar(us)
    ensures IsText(Utf8, s)
  {
    if us == [] then [] else EncodeCesu(us[0]) + EncodeCesuAll(us[1..])
  }

  /** One character so encoded is read as the code point it stands for, whatever follows. */
  lemma DecodeCesu(u: uchar32, rest: Text)
    requires IsScalar(u) && IsText(Utf8, rest)
    ensures IsText(Utf8, EncodeCesu(u) + rest)
    ensures Decode(Utf8, EncodeCesu(u) + rest) == Decoded(|EncodeCesu(u)|, u, false)
    ensures |EncodeCesu(u)| == 6 <==> u > 0xFFFF
  {
    hide EncodeUtf8, DecodeUtf8, EncodePairs, IsText;
    if u <= 0xFFFF {
      DecodeEncode(Utf8, u, rest);
    } else {
      DecodeHalves(u, rest);
    }
  }

  lemma DecodeHalves(u: uchar32, rest: Text)
    requires IsScalar(u) && u > 0xFFFF && IsText(Utf8, rest)
    ensures |EncodeCesu(u)| == 6 && IsText(Utf8, EncodeCesu(u) + rest)
    ensures Decode(Utf8, EncodeCesu(u) + rest) == Decoded(6, u, false)
  {
    hide EncodeUtf8, DecodeUtf8, EncodePairs;
    var hi, lo := HighOf(u), LowOf(u);
    var s := EncodeCesu(u) + rest;
    Surrogate(hi);
    Surrogate(lo);
    assert s[..6] == EncodeCesu(u);
    PairIsSixBytes(s, hi, lo);
    DecodeIsDecodeUtf8(s);
  }

  lemma {:induction false} CharactersOfCesu(us: Text)
    requires AllScalar(us)
    ensures StaysInside(Utf8, EncodeCesuAll(us))
    ensures
      var cs := Characters(Utf8, EncodeCesuAll(us));
      |cs| == |us| && forall i :: 0 <= i < |cs| ==> !cs[i].err && cs[i].u == us[i]
  {
    hide EncodeCesu, Decode, StaysInside, Characters;
    var s := EncodeCesuAll(us);
    OtherFormsStayInside(Utf8, s);
    if us == [] {
      NoCharacters(Utf8);
    } else {
      var rest := EncodeCesuAll(us[1..]);
      CharactersOfCesu(us[1..]);
      DecodeCesu(us[0], rest);
      assert s[|EncodeCesu(us[0])|..] == rest;
      FirstCharacter(Utf8, s);
    }
  }

  /** A text so encoded is converted to the encoding of the same code points in any form, if that fits. */
  lemma ConvertCesu(to: Form, us: Text, max: nat, policy: nat)
    requires AllScalar(us) && |EncodeAll(to, us)| <= max
    ensures StaysInside(Utf8, EncodeCesuAll(us))
    ensures Converted(Utf8, to, EncodeCesuAll(us), max, policy) == Done(EncodeAll(to, us))
  {
    hide EncodeAll, EncodeCesuAll, StaysInside, Characters;
    CharactersOfCesu(us);
    RunGood(to, Characters(Utf8, EncodeCesuAll(us)), us, [], max, policy);
    assert [] + EncodeAll(to, us) == EncodeAll(to, us);
  }

  /** The repair rewrites it as proper bytes, exactly if these fit. */
  lemma RepairCesu(us: Text)
    requires AllScalar(us)
    ensures Repaired(EncodeCesuAll(us)) == EncodeAll(Utf8, us) <==> |EncodeAll(Utf8, us)| <= REPAIR_ROOM
  {
    hide EncodeAll, EncodeCesuAll, Converted;
    if |EncodeAll(Utf8, us)| <= REPAIR_ROOM {
      ConvertCesu(Utf8, us, REPAIR_ROOM, SKIP);
    }
  }

  /** The validator accepts it only where it is no different from proper bytes. */
  lemma {:induction false} ValidCesu(us: Text)
    requires AllScalar(us)
    ensures ValidText(Utf8, EncodeCesuAll(us)) <==> forall i :: 0 <= i < |us| ==> us[i] <= 0xFFFF
  {
    hide EncodeCesu, Decode, ValidText;
    var s := EncodeCesuAll(us);
    ValidByCharacter(s);
    if us != [] {
      var rest := EncodeCesuAll(us[1..]);
      DecodeCesu(us[0], rest);
      assert s[|EncodeCesu(us[0])|..] == rest;
      ValidCesu(us[1..]);
      assert us == [us[0]] + us[1..];
    }
  }
}
