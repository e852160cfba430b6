/** What the bounded converter guarantees: whole characters, longest prefix, round trips, no growth. */
module Conversions {
  import opened CodePoints
  import opened Encoders
  import opened Decoders
  import opened Transcoder

  /** The text of characters `cs` in form `f`, without a bound. */
  function Spelled(f: Form, cs: seq<Character>, policy: nat): Text {
    EncodeAll(f, CodePointsOf(cs, policy))
  }

  lemma {:induction false} CodePointsOfAppend(cs: seq<Character>, ds: seq<Character>, policy: nat)
    ensures CodePointsOf(cs + ds, policy) == CodePointsOf(cs, policy) + CodePointsOf(ds, policy)
  {
    if cs == [] {
      assert cs + ds == ds;
    } else {
      assert (cs + ds)[1..] == cs[1..] + ds;
      CodePointsOfAppend(cs[1..], ds, policy);
    }
  }

  lemma SpelledAppend(f: Form, cs: seq<Character>, ds: seq<Character>, policy: nat)
    ensures Spelled(f, cs + ds, policy) == Spelled(f, cs, policy) + Spelled(f, ds, policy)
  {
    CodePointsOfAppend(cs, ds, policy);
    EncodeAllAppend(f, CodePointsOf(cs, policy), CodePointsOf(ds, policy));
  }

  lemma SpelledOne(f: Form, c: Character, policy: nat)
    ensures Spelled(f, [c], policy) == Left(f, c, policy)
  {
    hide Encode;
    assert CodePointsOf([c], policy) == Kept(c, policy);
    if Kept(c, policy) == [c.u] {
      assert EncodeAll(f, [c.u]) == Encode(f, c.u);
    }
  }

  /** There is room for character `i` behind those before it; a skipped one needs room for a moment, too. */
  ghost predicate HasRoom(f: Form, cs: seq<Character>, i: nat, max: nat, policy: nat)
    requires i < |cs|
  {
    |Spelled(f, cs[..i], policy)| + |Encode(f, cs[i].u)| <= max
  }

  /** Conversion stops before the first character without room. */
  ghost predicate StopsAt(f: Form, cs: seq<Character>, k: nat, max: nat, policy: nat) {
    && k <= |cs|
    && (forall i :: 0 <= i < k ==> HasRoom(f, cs, i, max, policy))
    && (k < |cs| ==> !HasRoom(f, cs, k, max, policy))
  }

  /** Induction over the characters still to come: `k` of them have been dealt with. */
  lemma {:induction false} RunStops(f: Form, cs: seq<Character>, k: nat, max: nat, policy: nat) returns (stop: nat)
    requires !Fails(policy) && k <= |cs|
    requires forall i :: 0 <= i < k ==> HasRoom(f, cs, i, max, policy)
    ensures StopsAt(f, cs, stop, max, policy)
    ensures Run(f, cs[k..], Spelled(f, cs[..k], policy), max, policy) == Done(Spelled(f, cs[..stop], policy))
    decreases |cs| - k
  {
    hide Encode, EncodeAll, CodePointsOf, Spelled;
    if k == |cs| || !HasRoom(f, cs, k, max, policy) {
      stop := k;
    } else {
      assert cs[..k + 1] == cs[..k] + [cs[k]];
      SpelledAppend(f, cs[..k], [cs[k]], policy);
      SpelledOne(f, cs[k], policy);
      LeftIsKept(f, cs[k], policy);
      assert cs[k..][1..] == cs[k + 1..];
      stop := RunStops(f, cs, k + 1, max, policy);
    }
  }

  lemma LeftIsKept(f: Form, c: Character, policy: nat)
    ensures EncodeAll(f, Kept(c, policy)) == Left(f, c, policy)
  {
  }

  /** Without the fail bit, the output is the spelling of the characters before the first that has no room. */
  lemma ConvertedStops(from: Form, to: Form, s: Text, max: nat, policy: nat) returns (k: nat)
    requires IsText(from, s) && StaysInside(from, s) && !Fails(policy)
    ensures StopsAt(to, Characters(from, s), k, max, policy)
    ensures Converted(from, to, s, max, policy) == Done(Spelled(to, Characters(from, s)[..k], policy))
    ensures |Spelled(to, Characters(from, s)[..k], policy)| <= max
  {
    var cs := Characters(from, s);
    k := RunStops(to, cs, 0, max, policy);
    assert cs[0..] == cs;
    if k > 0 {
      SpelledFits(to, cs, k, max, policy);
    }
  }

  lemma SpelledFits(f: Form, cs: seq<Character>, k: nat, max: nat, policy: nat)
    requires 0 < k <= |cs| && HasRoom(f, cs, k - 1, max, policy)
    ensures |Spelled(f, cs[..k], policy)| <= max
  {
    hide Encode, EncodeAll, CodePointsOf, Spelled;
    assert cs[..k] == cs[..k - 1] + [cs[k - 1]];
    SpelledAppend(f, cs[..k - 1], [cs[k - 1]], policy);
    SpelledOne(f, cs[k - 1], policy);
  }

  lemma SpelledGrows(f: Form, cs: seq<Character>, k: nat, j: nat, policy: nat)
    requires k <= j <= |cs|
    ensures |Spelled(f, cs[..k], policy)| <= |Spelled(f, cs[..j], policy)|
  {
    assert cs[..j] == cs[..k] + cs[k..j];
    SpelledAppend(f, cs[..k], cs[k..j], policy);
  }

  /**
   With the replace policy the output is the longest prefix of whole characters that fits: no character
   is split, and no longer prefix has room.
   */
  lemma LongestPrefix(from: Form, to: Form, s: Text, max: nat, policy: nat) returns (k: nat)
    requires IsText(from, s) && StaysInside(from, s)
    requires !Fails(policy) && !Skips(policy)
    ensures
      var cs := Characters(from, s);
      && k <= |cs|
      && Converted(from, to, s, max, policy) == Done(Spelled(to, cs[..k], policy))
      && |Spelled(to, cs[..k], policy)| <= max
      && forall j :: k < j <= |cs| ==> |Spelled(to, cs[..j], policy)| > max
  {
    hide Encode, EncodeAll, CodePointsOf, Spelled, Decode, Converted, StaysInside, Characters;
    var cs := Characters(from, s);
    k := ConvertedStops(from, to, s, max, policy);
    forall j | k < j <= |cs|
      ensures |Spelled(to, cs[..j], policy)| > max
    {
      assert cs[..k + 1] == cs[..k] + [cs[k]];
      SpelledAppend(to, cs[..k], [cs[k]], policy);
      SpelledOne(to, cs[k], policy);
      SpelledGrows(to, cs, k + 1, j, policy);
    }
  }

  /** With the fail policy a conversion fails iff a bad character is reached before the room runs out. */
  lemma {:induction false} RunFails(f: Form, cs: seq<Character>, k: nat, max: nat, policy: nat)
    requires Fails(policy) && k <= |cs|
    requires forall i :: 0 <= i < k ==> HasRoom(f, cs, i, max, policy) && !cs[i].err
    ensures Run(f, cs[k..], Spelled(f, cs[..k], policy), max, policy) ==
            if MeetsBad(f, cs, max, policy) then Failed
            else Run(f, cs[k..], Spelled(f, cs[..k], policy), max, REPLACE)
    decreases |cs| - k
  {
    hide Encode, EncodeAll, CodePointsOf, Spelled;
    if k == |cs| {
    } else if !HasRoom(f, cs, k, max, policy) {
      assert forall e: nat :: FailsAt(f, cs, e, max, policy) ==> e < k;
    } else if cs[k].err {
      assert FailsAt(f, cs, k, max, policy);
    } else {
      assert cs[..k + 1] == cs[..k] + [cs[k]];
      SpelledAppend(f, cs[..k], [cs[k]], policy);
      SpelledOne(f, cs[k], policy);
      LeftIsKept(f, cs[k], policy);
      LeftIsKept(f, cs[k], REPLACE);
      assert cs[k..][1..] == cs[k + 1..];
      RunFails(f, cs, k + 1, max, policy);
    }
  }

  /** Character `e` is the first bad one, and it and all before it have room. */
  ghost predicate FailsAt(f: Form, cs: seq<Character>, e: nat, max: nat, policy: nat) {
    && e < |cs| && cs[e].err
    && (forall i :: 0 <= i < e ==> !cs[i].err)
    && (forall i :: 0 <= i <= e ==> HasRoom(f, cs, i, max, policy))
  }

  ghost predicate MeetsBad(f: Form, cs: seq<Character>, max: nat, policy: nat) {
    exists e: nat :: FailsAt(f, cs, e, max, policy)
  }

  lemma FailsExactly(from: Form, to: Form, s: Text, max: nat, policy: nat)
    requires IsText(from, s) && StaysInside(from, s) && Fails(policy)
    ensures
      var cs := Characters(from, s);
      Converted(from, to, s, max, policy) ==
      if MeetsBad(to, cs, max, policy) then Failed else Converted(from, to, s, max, REPLACE)
  {
    hide MeetsBad, Encode, Decode;
    var cs := Characters(from, s);
    RunFails(to, cs, 0, max, policy);
    assert cs[0..] == cs && Spelled(to, cs[..0], policy) == [];
  }

  // Round trips.

  /** An encoded text is decoded as it was encoded, character by character. */
  lemma {:induction false} CharactersOfEncoding(f: Form, us: Text, policy: nat)
    requires AllScalar(us)
    ensures IsText(f, EncodeAll(f, us)) && StaysInside(f, EncodeAll(f, us))
    ensures
      var cs := Characters(f, EncodeAll(f, us));
      && |cs| == |us| && CodePointsOf(cs, policy) == us
      && forall i :: 0 <= i < |cs| ==> cs[i] == Decoded(|Encode(f, us[i])|, us[i], false)
  {
    hide Encode, Decode, Kept;
    EncodeAllIsText(f, us);
    if us != [] {
      var s, rest := EncodeAll(f, us), EncodeAll(f, us[1..]);
      CharactersOfEncoding(f, us[1..], policy);
      DecodeEncode(f, us[0], rest);
      assert s[|Encode(f, us[0])|..] == rest;
      KeptGood(Decode(f, s), policy);
      assert us == [us[0]] + us[1..];
    }
  }

  lemma KeptGood(c: Character, policy: nat)
    requires !c.err
    ensures Kept(c, policy) == [c.u]
  {
  }

  /** Between any two forms, an encoded text that fits is converted to the encoding of the same code points. */
  lemma ConvertEncoded(from: Form, to: Form, us: Text, max: nat, policy: nat)
    requires AllScalar(us) && |EncodeAll(to, us)| <= max
    ensures IsText(from, EncodeAll(from, us)) && StaysInside(from, EncodeAll(from, us))
    ensures Converted(from, to, EncodeAll(from, us), max, policy) == Done(EncodeAll(to, us))
  {
    hide Encode, Decode, EncodeAll, StaysInside, Characters, CodePointsOf, IsText;
    CharactersOfEncoding(from, us, policy);
    RunGood(to, Characters(from, EncodeAll(from, us)), us, [], max, policy);
  }

  lemma {:induction false} RunGood(f: Form, cs: seq<Character>, us: Text, done: Text, max: nat, policy: nat)
    requires AllScalar(us) && |cs| == |us|
    requires forall i :: 0 <= i < |cs| ==> !cs[i].err && cs[i].u == us[i]
    requires |done| + |EncodeAll(f, us)| <= max
    ensures Run(f, cs, done, max, policy) == Done(done + EncodeAll(f, us))
  {
    hide Encode, EncodeAll, Kept;
    if cs == [] {
      EncodeAllNone(f, us);
      assert done + [] == done;
    } else {
      EncodeAllCons(f, us);
      LeftIsKept(f, cs[0], policy);
      RunGood(f, cs[1..], us[1..], done + Encode(f, us[0]), max, policy);
      Regroup(done, Encode(f, us[0]), EncodeAll(f, us[1..]));
    }
  }

  lemma EncodeAllNone(f: Form, us: Text)
    requires us == []
    ensures EncodeAll(f, us) == []
  {
  }

  /** The code points of an encoded text are unique. */
  lemma EncodeAllInjective(f: Form, us: Text, vs: Text)
    requires AllScalar(us) && AllScalar(vs) && EncodeAll(f, us) == EncodeAll(f, vs)
    ensures us == vs
  {
    CharactersOfEncoding(f, us, REPLACE);
    CharactersOfEncoding(f, vs, REPLACE);
  }

  /** A byte text is valid if it is the encoding of some code points. */
  ghost predicate ValidText(f: Form, s: Text) {
    exists us :: AllScalar(us) && s == EncodeAll(f, us)
  }

  /** From bytes to another form and back: buffers of the size of the original are large enough. */
  lemma RoundTrip(mid: Form, s: Text, max1: nat, max2: nat, policy: nat) returns (t: Text)
    requires ValidText(Utf8, s) && |s| <= max1 && |s| <= max2
    ensures IsText(Utf8, s) && StaysInside(Utf8, s)
    ensures Converted(Utf8, mid, s, max1, policy) == Done(t)
    ensures ValidText(mid, t) && IsText(mid, t) && StaysInside(mid, t)
    ensures Converted(mid, Utf8, t, max2, policy) == Done(s)
  {
    var us :| AllScalar(us) && s == EncodeAll(Utf8, us);
    t := EncodeAll(mid, us);
    NoFormIsLonger(mid, us);
    ConvertEncoded(Utf8, mid, us, max1, policy);
    ConvertEncoded(mid, Utf8, us, max2, policy);
  }

  lemma {:induction false} NoFormIsLonger(f: Form, us: Text)
    requires AllScalar(us)
    ensures |EncodeAll(f, us)| <= |EncodeAll(Utf8, us)|
  {
    if us != [] {
      NoFormIsLonger(f, us[1..]);
    }
  }

  /** Any input at all: the 32-bit output is the 16-bit output, widened. */
  lemma {:induction false} RunWidens(cs: seq<Character>, done: Text, max: nat, policy: nat)
    ensures Run(Utf32, cs, done, max, policy) == Run(Utf16, cs, done, max, policy)
  {
    if cs != [] {
      Utf32IsWidenedUtf16(Kept(cs[0], policy));
      RunWidens(cs[1..], done + EncodeAll(Utf16, Kept(cs[0], policy)), max, policy);
    }
  }

  lemma Utf32OutputIsWidenedUtf16(from: Form, s: Text, max: nat, policy: nat)
    requires IsText(from, s) && StaysInside(from, s)
    ensures Converted(from, Utf32, s, max, policy) == Converted(from, Utf16, s, max, policy)
  {
    RunWidens(Characters(from, s), [], max, policy);
  }

  /** No conversion of bytes, valid or not, takes more units than there were bytes. */
  lemma {:induction false} BytesNeverGrow(to: Form, s: Text, policy: nat)
    requires IsText(Utf8, s) && StaysInside(Utf8, s)
    ensures |Spelled(to, Characters(Utf8, s), policy)| <= |s|
  {
    hide Encode, Decode;
    if s != [] {
      var c := Decode(Utf8, s);
      NeverLonger(s, to);
      BytesNeverGrow(to, s[c.n..], policy);
      var cs := Characters(Utf8, s);
      assert cs == [c] + Characters(Utf8, s[c.n..]);
      SpelledAppend(to, [c], cs[1..], policy);
      SpelledOne(to, c, policy);
    }
  }

  /** So with room for as many units as there are bytes, nothing is cut off. */
  lemma NothingCutOff(to: Form, s: Text, max: nat, policy: nat)
    requires IsText(Utf8, s) && StaysInside(Utf8, s) && |s| <= max && !Fails(policy)
    ensures Converted(Utf8, to, s, max, policy) == Done(Spelled(to, Characters(Utf8, s), policy))
  {
    hide Encode, Decode, EncodeAll, Spelled, Characters, StaysInside, CodePointsOf;
    RunAll(to, s, [], max, policy);
    Regroup([], [], Spelled(to, Characters(Utf8, s), policy));
  }

  lemma {:induction false} RunAll(to: Form, s: Text, done: Text, max: nat, policy: nat)
    requires IsText(Utf8, s) && StaysInside(Utf8, s) && |done| + |s| <= max && !Fails(policy)
    ensures Run(to, Characters(Utf8, s), done, max, policy) == Done(done + Spelled(to, Characters(Utf8, s), policy))
  {
    hide Encode, EncodeAll, Decode, Left, Kept, Characters, StaysInside, Spelled, CodePointsOf, IsText;
    if s == [] {
      NoCharacters(Utf8);
      SpelledNone(to, policy);
      assert done + [] == done;
    } else {
      var c := Decode(Utf8, s);
      NeverLonger(s, to);
      FirstCharacter(Utf8, s);
      var cs := Characters(Utf8, s);
      SpelledAppend(to, [c], cs[1..], policy);
      SpelledOne(to, c, policy);
      LeftIsKept(to, c, policy);
      RunAll(to, s[c.n..], done + Left(to, c, policy), max, policy);
      Regroup(done, Left(to, c, policy), Spelled(to, cs[1..], policy));
    }
  }

  lemma Regroup(a: Text, b: Text, c: Text)
    ensures (a + b) + c == a + (b + c)
  {
  }

  lemma SpelledNone(f: Form, policy: nat)
    ensures Spelled(f, [], policy) == []
  {
  }
}
