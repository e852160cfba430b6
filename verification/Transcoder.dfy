/** The generic bounded converter between the three forms, and what it computes. */
module Transcoder {
  import opened CodePoints
  import opened Encoders
  import opened Decoders

  /** Policy words are bit sets: bit 0 skips bad input, bit 1 makes it fail, other bits only assert. */
  const REPLACE: nat := 0
  const SKIP: nat := 1
  const FAIL: nat := 2
  const ASSERT_REPLACE: nat := 4

  predicate Skips(policy: nat) {
    policy % 2 == 1
  }

  predicate Fails(policy: nat) {
    policy / 2 % 2 == 1 && !Skips(policy)
  }

  /** Three cases, whatever the other bits are: fail only without skip, and replace without either. */
  lemma PolicyCases(others: nat)
    ensures !Skips(4 * others + REPLACE) && !Fails(4 * others + REPLACE)
    ensures Skips(4 * others + SKIP) && !Fails(4 * others + SKIP)
    ensures !Skips(4 * others + FAIL) && Fails(4 * others + FAIL)
    ensures Skips(4 * others + SKIP + FAIL) && !Fails(4 * others + SKIP + FAIL)
  {
    LowBits(others, REPLACE);
    LowBits(others, SKIP);
    LowBits(others, FAIL);
    LowBits(others, SKIP + FAIL);
  }

  lemma LowBits(others: nat, low: nat)
    requires low < 4
    ensures (4 * others + low) % 2 == low % 2 && (4 * others + low) / 2 % 2 == low / 2
  {
    assert (4 * others + low) / 2 == 2 * others + low / 2;
  }

  /**
   Decoding `s` character by character never steps over the terminator. Only the 16-bit decoder can
   do that, at a high surrogate in the last position.
   */
  predicate StaysInside(f: Form, s: Text)
    requires IsText(f, s)
  {
    s == [] || (Decode(f, s).n <= |s| && StaysInside(f, s[Decode(f, s).n..]))
  }

  lemma {:induction false} OtherFormsStayInside(f: Form, s: Text)
    requires IsText(f, s) && f != Utf16
    ensures StaysInside(f, s)
  {
    if s != [] {
      OtherFormsStayInside(f, s[Decode(f, s).n..]);
    }
  }

  /** A decoded character: a code point that can be written, or '?' for something that could not be decoded. */
  type Character = c: Decoded | if c.err then c.u == QUESTION_MARK else IsScalar(c.u)
    witness Decoded(1, QUESTION_MARK, true)

  /** The characters found in `s`, good and bad. */
  function Characters(f: Form, s: Text): (cs: seq<Character>)
    requires IsText(f, s) && StaysInside(f, s)
  {
    if s == [] then [] else [Decode(f, s)] + Characters(f, s[Decode(f, s).n..])
  }

  /** The first character and the rest. */
  lemma FirstCharacter(f: Form, s: Text)
    requires IsText(f, s) && StaysInside(f, s) && s != []
    ensures
      var d := Decode(f, s);
      && 1 <= d.n <= |s| && IsText(f, s[d.n..]) && StaysInside(f, s[d.n..])
      && Characters(f, s) == [d] + Characters(f, s[d.n..])
  {
  }

  lemma NoCharacters(f: Form)
    ensures IsText(f, []) && StaysInside(f, []) && Characters(f, []) == []
  {
  }

  predicate IsHigh(u: uchar32) {
    0xD800 <= u <= 0xDBFF
  }

  /** How many high surrogates there are at the end. */
  function HighsAtEnd(s: Text): (n: nat)
    ensures n <= |s|
  {
    if s == [] || !IsHigh(s[|s| - 1]) then 0 else 1 + HighsAtEnd(s[..|s| - 1])
  }

  lemma {:induction false} HighsAtEndCons(s: Text)
    requires s != []
    ensures HighsAtEnd(s) == if HighsAtEnd(s[1..]) == |s| - 1 && IsHigh(s[0]) then |s| else HighsAtEnd(s[1..])
  {
    if |s| > 1 && IsHigh(s[|s| - 1]) {
      assert s[..|s| - 1][1..] == s[1..][..|s| - 2];
      HighsAtEndCons(s[..|s| - 1]);
    } else {
      assert |s| == 1 ==> s[..0] == [] && s[1..] == [];
    }
  }

  /**
   The 16-bit decoder steps over the terminator exactly on texts that end in an odd number of high
   surrogates: it takes each of them together with what follows, and the last one with the terminator.
   */
  lemma {:induction false} StaysInsideExactly(s: Text)
    requires IsText(Utf16, s)
    ensures StaysInside(Utf16, s) <==> HighsAtEnd(s) % 2 == 0
  {
    hide HighsAtEnd, IsHigh, DecodeUtf16;
    NoHighs();
    if s != [] {
      HighsAtEndCons(s);
      UnitsTaken(s);
      var n := Decode(Utf16, s).n;
      if |s| > 1 {
        HighsAtEndCons(s[1..]);
        assert s[1..][1..] == s[2..];
        StaysInsideExactly(s[n..]);
      } else {
        assert s[1..] == [];
      }
    }
  }

  lemma UnitsTaken(s: Text)
    requires s != [] && IsText(Utf16, s)
    ensures Decode(Utf16, s).n == if IsHigh(s[0]) && At(s, 1) < 0xE000 then 2 else 1
    ensures At(s, 1) >= 0xE000 ==> !IsHigh(At(s, 1))
  {
  }

  lemma NoHighs()
    ensures HighsAtEnd([]) == 0
  {
  }

  /** For instance, a text that is a lone high surrogate. */
  lemma LoneHighStepsOut()
    ensures IsText(Utf16, [0xD800]) && !StaysInside(Utf16, [0xD800])
  {
    var s: Text := [0xD800];
    assert s[..0] == [];
    StaysInsideExactly(s);
  }

  /** Every high surrogate is followed by something that is not below the low ones. */
  ghost predicate HighsAreFollowed(s: Text) {
    forall i :: 0 <= i < |s| && IsHigh(s[i]) ==> At(s, i + 1) >= 0xDC00
  }

  /** Exactly on such 16-bit texts, well-formed or not, the decoder stays inside and finds what the 32-bit one finds. */
  lemma {:induction false} FollowedHighsExactly(s: Text)
    requires IsText(Utf16, s)
    ensures IsText(Utf32, s) && StaysInside(Utf32, s)
    ensures StaysInside(Utf16, s) && Characters(Utf16, s) == Characters(Utf32, s) <==> HighsAreFollowed(s)
  {
    hide DecodeUtf16, DecodeUtf32;
    OtherFormsStayInside(Utf32, s);
    if s != [] {
      Utf16TestsOneEnd(s);
      if Decode(Utf16, s) == Decode(Utf32, s) {
        var n := Decode(Utf32, s).n;
        var rest := s[n..];
        if n != 1 {
          TakesLow(s);
        }
        FollowedRest(s, n);
        FollowedHighsExactly(rest);
        if StaysInside(Utf16, s) {
          assert Characters(Utf16, s)[1..] == Characters(Utf16, rest);
          assert Characters(Utf32, s)[1..] == Characters(Utf32, rest);
        }
      } else {
        assert !HighsAreFollowed(s);
        if StaysInside(Utf16, s) {
          assert Characters(Utf16, s)[0] != Characters(Utf32, s)[0];
        }
      }
    }
  }

  /** Two units taken by the 32-bit decoder are a pair. */
  lemma TakesLow(s: Text)
    requires s != [] && IsText(Utf32, s) && Decode(Utf32, s).n != 1
    ensures Decode(Utf32, s).n == 2 && 2 <= |s| && IsHigh(s[0]) && 0xDC00 <= s[1] <= 0xDFFF
  {
  }

  lemma FollowedRest(s: Text, n: nat)
    requires s != [] && 1 <= n <= |s| && (IsHigh(s[0]) ==> At(s, 1) >= 0xDC00)
    requires n == 1 || (n == 2 && !IsHigh(s[1]))
    ensures HighsAreFollowed(s) <==> HighsAreFollowed(s[n..])
  {
    var rest := s[n..];
    assert forall i :: 0 <= i < |rest| ==> rest[i] == s[n + i];
    if HighsAreFollowed(rest) {
      forall i | 0 <= i < |s| && IsHigh(s[i])
        ensures At(s, i + 1) >= 0xDC00
      {
        if i >= n {
          assert rest[i - n] == s[i];
        }
      }
    }
  }

  /** What one character adds to the output in the end. */
  function Kept(c: Character, policy: nat): (us: Text)
    ensures AllScalar(us) && |us| <= 1
  {
    if c.err && Skips(policy) then [] else [c.u]
  }

  function CodePointsOf(cs: seq<Character>, policy: nat): (us: Text)
    ensures AllScalar(us)
  {
    if cs == [] then [] else Kept(cs[0], policy) + CodePointsOf(cs[1..], policy)
  }

  /** The replace policy gives one code point for each character, in its place: '?' for the bad ones. */
  lemma {:induction false} ReplaceOneForOne(cs: seq<Character>, policy: nat)
    requires !Skips(policy)
    ensures |CodePointsOf(cs, policy)| == |cs|
    ensures forall i :: 0 <= i < |cs| ==> CodePointsOf(cs, policy)[i] == if cs[i].err then QUESTION_MARK else cs[i].u
  {
    if cs != [] {
      ReplaceOneForOne(cs[1..], policy);
      assert CodePointsOf(cs, policy) == [cs[0].u] + CodePointsOf(cs[1..], policy);
    }
  }

  /** The skip policy gives what is given for the good characters alone. */
  lemma {:induction false} SkipKeepsGood(cs: seq<Character>, policy: nat)
    requires Skips(policy)
    ensures CodePointsOf(cs, policy) == CodePointsOf(GoodOnes(cs), REPLACE)
  {
    if cs != [] {
      SkipKeepsGood(cs[1..], policy);
      assert !cs[0].err ==> GoodOnes(cs)[0] == cs[0] && GoodOnes(cs)[1..] == GoodOnes(cs[1..]);
      assert cs[0].err ==> GoodOnes(cs) == GoodOnes(cs[1..]);
      assert cs[0].err ==> CodePointsOf(cs, policy) == CodePointsOf(cs[1..], policy);
    }
  }

  function GoodOnes(cs: seq<Character>): seq<Character> {
    if cs == [] then [] else (if cs[0].err then [] else [cs[0]]) + GoodOnes(cs[1..])
  }

  datatype Outcome = Done(out: Text) | Failed

  /** The conversion loop, as a function of what is still to come and what is already written. */
  function Run(f: Form, cs: seq<Character>, done: Text, max: nat, policy: nat): Outcome
  {
    if cs == [] || |done| + EncodedLength(f, cs[0].u) > max then
      Done(done)
    else if cs[0].err && Fails(policy) then
      Failed
    else
      Run(f, cs[1..], done + EncodeAll(f, Kept(cs[0], policy)), max, policy)
  }

  /** The text a call leaves in the output buffer, for room of `max` units before the terminator. */
  function Converted(from: Form, to: Form, s: Text, max: nat, policy: nat): Outcome
    requires IsText(from, s) && StaysInside(from, s)
  {
    Run(to, Characters(from, s), [], max, policy)
  }

  /** The most units the output can hold before its terminator. */
  function Room(f: Form, nOutBytes: nat): int {
    UnitsIn(f, nOutBytes) - 1
  }

  /** The text that fits is the longest one that fits together with its terminator. */
  lemma RoomExactly(f: Form, n: nat, nOutBytes: nat)
    ensures n <= Room(f, nOutBytes) <==> Bytes(f, n + 1) <= nOutBytes
  {
  }

  /** What the loop leaves behind in the output for one character. */
  function Left(to: Form, c: Character, policy: nat): (t: Text)
    ensures |t| <= |Encode(to, c.u)|
  {
    if c.err && Skips(policy) then [] else Encode(to, c.u)
  }

  /** With `s` still to be read and `done` written, the whole conversion comes to `result`. */
  ghost predicate Pending(from: Form, to: Form, s: Text, done: Text, max: nat, policy: nat, result: Outcome) {
    IsText(from, s) && StaysInside(from, s) && Run(to, Characters(from, s), done, max, policy) == result
  }

  /** One turn of the loop. */
  lemma PendingStep(from: Form, to: Form, s: Text, done: Text, max: nat, policy: nat, result: Outcome)
    requires Pending(from, to, s, done, max, policy, result) && s != []
    ensures
      var c := Decode(from, s);
      && c.n <= |s| && IsText(from, s[c.n..])
      && (from == to == Utf8 ==> |Encode(to, c.u)| <= c.n)
      && if |done| + |Encode(to, c.u)| > max then
           result == Done(done)
         else if c.err && Fails(policy) then
           result == Failed
         else
           Pending(from, to, s[c.n..], done + Left(to, c, policy), max, policy, result)
  {
    hide Decode, Encode;
    if from == to == Utf8 { NeverLonger(s, to); }
    var c := Decode(from, s);
    var cs := Characters(from, s);
    assert cs[0] == c && cs[1..] == Characters(from, s[c.n..]);
    assert EncodeAll(to, [c.u]) == Encode(to, c.u);
  }

  lemma PendingStart(from: Form, to: Form, s: Text, max: nat, policy: nat)
    requires IsText(from, s) && StaysInside(from, s)
    ensures Pending(from, to, s, [], max, policy, Converted(from, to, s, max, policy))
  {
  }

  lemma PendingEnd(from: Form, to: Form, s: Text, done: Text, max: nat, policy: nat, result: Outcome)
    requires Pending(from, to, s, done, max, policy, result) && s == []
    ensures result == Done(done)
  {
  }

  /** What happened to one character. */
  datatype Turn = Written | NoRoom | GaveUp

  /** The body of the loop: takes one character from `pIn[i..]` and deals with it. */
  method ConvertOne(
    from: Form, to: Form, pIn: array<uchar32>, i: nat, pOut: array<uchar32>, nOut0: nat, max: nat, policy: nat,
    ghost end: nat, ghost result: Outcome
  ) returns (n: nat, nOut: nat, turn: Turn)
    requires Terminated(from, pIn, i, end) && i < end
    requires nOut0 <= max && if pIn == pOut then from == to == Utf8 && nOut0 <= i else max < pOut.Length
    requires Pending(from, to, pIn[i..end], pOut[..nOut0], max, policy, result)
    modifies pOut
    ensures 1 <= n <= end - i && nOut <= max && nOut < pOut.Length
    ensures turn == GaveUp ==> result == Failed && pOut[0] == 0
    ensures turn == NoRoom ==> result == Done(pOut[..nOut])
    ensures turn == Written ==>
              && IsText(from, old(pIn[i + n..end]))
              && Pending(from, to, old(pIn[i + n..end]), pOut[..nOut], max, policy, result)
    ensures pIn == pOut ==> nOut <= i + n
    ensures forall k :: pIn == pOut && i + n <= k < pOut.Length ==> pOut[k] == old(pOut[k])
    ensures forall k :: max < k < pOut.Length ==> pOut[k] == old(pOut[k])
  {
    hide Pending, IsText, UnitLimit, Decode, DecodeUtf8, DecodeBytes, DecodeUtf16, DecodeUtf32;
    hide Encode, EncodeUtf8, EncodePairs;
    ghost var s := pIn[i..end];
    PendingStep(from, to, s, pOut[..nOut0], max, policy, result);
    var u, err;
    n, u, err := ToUChar32(from, pIn, i, end);
    assert s[n..] == pIn[i + n..end];
    var nOutElems := EncodedLength(to, u);
    if nOutElems + nOut0 > max {
      return n, nOut0, NoRoom;
    }
    var written := UChar32ToUnits(to, u, pOut, nOut0);
    assert pOut[..nOut0] == old(pOut[..nOut0]) == old(pOut[..nOut0]) + [];
    assert pOut[..nOut0 + written] == pOut[..nOut0] + pOut[nOut0..nOut0 + written];
    nOut, turn := nOut0 + written, Written;
    if err {
      if policy % 2 == 1 {
        nOut := nOut - nOutElems;
      } else if policy / 2 % 2 == 1 {
        pOut[0] := 0;
        return n, 0, GaveUp;
      }
    }
  }

  /**
   The converter. Input and output may be the same byte buffer: then nothing is known about its size
   but that it holds the input, and the result is still that of converting a separate copy.
   */
  method ConvertT(
    from: Form, to: Form, pIn: array<uchar32>, at: nat, pOut: array<uchar32>, nOutBytes: nat, policy: nat,
    ghost end: nat
  ) returns (r: nat)
    requires Terminated(from, pIn, at, end) && StaysInside(from, pIn[at..end])
    requires if pIn == pOut then from == to == Utf8 && at == 0 else nOutBytes <= Bytes(to, pOut.Length)
    modifies pOut
    ensures Room(to, nOutBytes) <= 0 ==> r == 0 && pOut[..] == old(pOut[..])
    ensures Room(to, nOutBytes) > 0 ==>
              match Converted(from, to, old(pIn[at..end]), Room(to, nOutBytes), policy)
              case Failed => r == 0 && pOut.Length > 0 && pOut[0] == 0
              case Done(t) => r == Bytes(to, |t| + 1) && |t| < pOut.Length && pOut[..|t|] == t && pOut[|t|] == 0
    ensures r <= nOutBytes
    ensures forall k :: 0 <= k < pOut.Length && k > Room(to, nOutBytes) ==> pOut[k] == old(pOut[k])
  {
    hide Pending, Converted, StaysInside, IsText;
    var nOut: nat := 0;
    var nMaxOut: int := UnitsIn(to, nOutBytes) - 1;
    if nMaxOut <= 0 {
      return 0;
    }
    ghost var result := Converted(from, to, pIn[at..end], nMaxOut, policy);
    PendingStart(from, to, pIn[at..end], nMaxOut, policy);
    assert pOut[..0] == [];
    var i := at;
    label reading: {
      while pIn[i] != 0
        invariant Terminated(from, pIn, i, end)
        invariant nOut <= nMaxOut && nOut < pOut.Length && (pIn == pOut ==> nOut <= i)
        invariant Pending(from, to, pIn[i..end], pOut[..nOut], nMaxOut, policy, result)
        invariant forall k :: nMaxOut < k < pOut.Length ==> pOut[k] == old(pOut[k])
        decreases end - i
      {
        ghost var before := pIn[..];
        AtTerminator(from, pIn, i, end);
        var n, turn;
        n, nOut, turn := ConvertOne(from, to, pIn, i, pOut, nOut, nMaxOut, policy, end, result);
        if turn == GaveUp {
          return 0;
        }
        if turn == NoRoom {
          break reading;
        }
        i := i + n;
        assert pIn[i..end] == before[i..end];
      }
      AtTerminator(from, pIn, i, end);
      PendingEnd(from, to, pIn[i..end], pOut[..nOut], nMaxOut, policy, result);
    }
    assert result == Done(pOut[..nOut]);
    pOut[nOut] := 0;
    return Bytes(to, nOut + 1);
  }
}
