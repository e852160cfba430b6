/** Stripping of unprintable characters and surrounding spaces from names and chat lines. */
module StripText {
  import opened CodePoints
  import opened Encoders
  import opened Decoders
  import opened Transcoder
  import opened Conversions

  /** A 16-bit text of `len` units fills the buffer from its start. */
  ghost predicate Holds(p: array<uchar32>, len: nat)
    reads p
  {
    len < p.Length && p[len] == 0 && IsText(Utf16, p[..len])
  }

  /** The units the C library calls spaces: neither the terminator nor surrogates are among them. */
  ghost predicate AreSpaces(spaces: set<uchar32>) {
    forall u :: u in spaces ==> 0 < u < 0xD800 || 0xDFFF < u <= 0xFFFF
  }

  predicate IsDeprecated(u: uchar32) {
    0x202A <= u <= 0x202E || 0x206A <= u <= 0x206F
  }

  predicate IsMeanSpace(u: uchar32) {
    || u == 0x82 || u == 0x83 || u == 0xA0 || u == 0x034F
    || 0x2000 <= u <= 0x200D || u == 0x2028 || u == 0x2029 || u == 0x202F || u == 0x2060
    || u == 0xFEFF || u == 0xFFFC
  }

  predicate IsPrintable(u: uchar32) {
    u >= 0x20 && !IsDeprecated(u) && u != 0x2026
  }

  /** Controls, the marks that turn the direction of text or change its shaping, and the ellipsis. */
  lemma UnprintableExactly(u: uchar32)
    ensures !IsPrintable(u) <==>
            || u < 0x20
            || u in {0x202A, 0x202B, 0x202C, 0x202D, 0x202E, 0x206A, 0x206B, 0x206C, 0x206D, 0x206E, 0x206F}
            || u == 0x2026
  {
  }

  lemma MeanSpacesExactly(u: uchar32)
    ensures IsMeanSpace(u) <==>
            || u in {0x82, 0x83, 0xA0, 0x034F, 0x2000, 0x2001, 0x2002, 0x2003, 0x2004, 0x2005, 0x2006, 0x2007}
            || u in {0x2008, 0x2009, 0x200A, 0x200B, 0x200C, 0x200D, 0x2028, 0x2029, 0x202F, 0x2060, 0xFEFF, 0xFFFC}
  {
  }

  function Printable(us: Text): (t: Text)
    ensures |t| <= |us|
    ensures AllScalar(us) ==> AllScalar(t)
  {
    if us == [] then []
    else if IsPrintable(us[0]) then [us[0]] + Printable(us[1..])
    else Printable(us[1..])
  }

  function TrimLeft(us: Text, spaces: set<uchar32>): (t: Text)
    ensures |t| <= |us|
    ensures AllScalar(us) ==> AllScalar(t)
  {
    if us != [] && us[0] in spaces then TrimLeft(us[1..], spaces) else us
  }

  lemma {:induction false} TrimLeftSuffix(us: Text, spaces: set<uchar32>)
    ensures var t := TrimLeft(us, spaces); us == us[..|us| - |t|] + t
  {
    if us != [] && us[0] in spaces {
      TrimLeftSuffix(us[1..], spaces);
    }
  }

  predicate IsTrailing(u: uchar32, spaces: set<uchar32>) {
    u in spaces || IsMeanSpace(u)
  }

  function TrimRight(us: Text, spaces: set<uchar32>): (t: Text)
    ensures |t| <= |us|
    ensures AllScalar(us) ==> AllScalar(t)
  {
    if us != [] && IsTrailing(us[|us| - 1], spaces) then TrimRight(us[..|us| - 1], spaces) else us
  }

  lemma {:induction false} TrimRightPrefix(us: Text, spaces: set<uchar32>)
    ensures var t := TrimRight(us, spaces); us == t + us[|t|..]
  {
    if us != [] && IsTrailing(us[|us| - 1], spaces) {
      TrimRightPrefix(us[..|us| - 1], spaces);
    }
  }

  /** What is left of a name: the end is trimmed only when nothing unprintable had to go. */
  function Stripped(us: Text, spaces: set<uchar32>): (t: Text)
    ensures |t| <= |us|
    ensures AllScalar(us) ==> AllScalar(t)
  {
    if |Printable(us)| < |us| then TrimLeft(Printable(us), spaces)
    else TrimLeft(TrimRight(us, spaces), spaces)
  }

  lemma {:induction false} PrintableAppend(us: Text, vs: Text)
    ensures Printable(us + vs) == Printable(us) + Printable(vs)
  {
    hide IsPrintable;
    if us == [] {
      assert us + vs == vs;
    } else {
      assert (us + vs)[1..] == us[1..] + vs;
      PrintableAppend(us[1..], vs);
    }
  }

  lemma PrintableUnit(u: uchar32)
    ensures Printable([u]) == if IsPrintable(u) then [u] else []
    ensures Printable([]) == []
  {
  }

  /** An in-place filter: the units behind the new terminator stay as they were. */
  method StripUnprintableWorker(p: array<uchar32>, ghost end: nat) returns (strippedAny: bool)
    requires Holds(p, end)
    modifies p
    ensures
      var t := Printable(old(p[..end]));
      && |t| <= end < p.Length && p[..|t|] == t && p[|t|] == 0 && (strippedAny <==> |t| != end)
      && forall k :: |t| < k < p.Length ==> p[k] == old(p[k])
  {
    hide Printable, IsDeprecated, UnitLimit;
    ghost var s := p[..end];
    var source, dest := 0, 0;
    PrintableUnit(0);
    assert forall k :: 0 <= k < end ==> p[k] == s[k];
    while p[source] != 0
      invariant 0 <= dest <= source <= end
      invariant forall k :: source <= k < p.Length ==> p[k] == old(p[k])
      invariant forall k :: dest <= k < p.Length ==> p[k] == old(p[k])
      invariant p[..dest] == Printable(s[..source])
      invariant forall k :: 0 <= k < end ==> s[k] != 0
      decreases end - source
    {
      var cc := p[source];
      assert s[..source + 1] == s[..source] + [cc];
      PrintableAppend(s[..source], [cc]);
      PrintableUnit(cc);
      if cc >= 0x20 && !IsDeprecated(cc) && cc != 0x2026 {
        p[dest] := cc;
        dest := dest + 1;
      }
      source := source + 1;
    }
    assert s[..source] == s;
    p[dest] := 0;
    strippedAny := source != dest;
  }

  /** `e` is where trimming from the right stops, in `p[..cch]`. */
  ghost predicate TrimmedTo(s: Text, e: nat, spaces: set<uchar32>) {
    && e <= |s|
    && (forall k :: e <= k < |s| ==> IsTrailing(s[k], spaces))
    && (e > 0 ==> !IsTrailing(s[e - 1], spaces))
  }

  lemma {:induction false} TrimRightStops(s: Text, e: nat, spaces: set<uchar32>)
    requires TrimmedTo(s, e, spaces)
    ensures TrimRight(s, spaces) == s[..e]
  {
    if e < |s| {
      TrimRightStops(s[..|s| - 1], e, spaces);
    }
  }

  lemma {:induction false} TrimLeftStops(s: Text, r: nat, spaces: set<uchar32>)
    requires r <= |s| && (forall k :: 0 <= k < r ==> s[k] in spaces) && (r < |s| ==> s[r] !in spaces)
    ensures TrimLeft(s, spaces) == s[r..]
  {
    if r > 0 {
      TrimLeftStops(s[1..], r - 1, spaces);
    }
  }

  lemma TrimsBoth(s: Text, e: nat, after: Text, r: nat, spaces: set<uchar32>)
    requires TrimmedTo(s, e, spaces) && |after| == |s|
    requires forall k :: 0 <= k < |after| ==> after[k] == if e <= k then 0 else s[k]
    requires r <= e && (forall k :: 0 <= k < r ==> after[k] in spaces) && (r < e ==> after[r] !in spaces)
    ensures after[r..e] == TrimLeft(TrimRight(s, spaces), spaces)
  {
    TrimRightStops(s, e, spaces);
    assert after[..e] == s[..e];
    TrimLeftStops(after[..e], r, spaces);
    assert after[..e][r..] == after[r..e];
  }

  lemma PartOfPrefix(p: array<uchar32>, n: nat, r: nat, e: nat)
    requires r <= e <= n <= p.Length
    ensures p[..n][r..e] == p[r..e]
  {
  }

  /** Overwrites the trailing spaces of the first `cch` units, and returns where the text then begins. */
  method StripWhitespaceWorker(p: array<uchar32>, cch: nat, spaces: set<uchar32>)
    returns (r: nat, stripped: bool, ghost e: nat)
    requires cch <= p.Length
    modifies p
    ensures e <= cch && TrimmedTo(old(p[..cch]), e, spaces)
    ensures forall k :: 0 <= k < p.Length ==> p[k] == if e <= k < cch then 0 else old(p[k])
    ensures r <= e && (forall k :: 0 <= k < r ==> p[k] in spaces) && (r < e ==> p[r] !in spaces)
    ensures stripped <==> e - r < cch
    ensures p[r..e] == TrimLeft(TrimRight(old(p[..cch]), spaces), spaces)
  {
    hide TrimLeft, TrimRight, IsMeanSpace;
    ghost var s := p[..cch];
    stripped := false;
    var last: int := cch - 1;
    while last >= 0
      invariant -1 <= last < cch
      invariant forall k :: last < k < cch ==> p[k] == 0 && IsTrailing(s[k], spaces)
      invariant forall k :: 0 <= k <= last || cch <= k < p.Length ==> p[k] == old(p[k])
      invariant stripped <==> last < cch - 1
    {
      if p[last] !in spaces && !IsMeanSpace(p[last]) {
        break;
      }
      p[last] := 0;
      stripped := true;
      last := last - 1;
    }
    e := last + 1;
    r := 0;
    while r < last
      invariant 0 <= r <= e && (last >= 0 ==> r <= last)
      invariant forall k :: 0 <= k < r ==> p[k] in spaces
      invariant stripped <==> e < cch || r > 0
    {
      if p[r] !in spaces {
        break;
      }
      stripped := true;
      r := r + 1;
    }
    TrimsBoth(s, e, p[..cch], r, spaces);
    PartOfPrefix(p, cch, r, e);
  }

  // The 16-bit units stripped are the encoding of the code points stripped.

  lemma {:induction false} PrintableUnits(us: Text)
    requires AllScalar(us)
    ensures Printable(EncodeAll(Utf16, us)) == EncodeAll(Utf16, Printable(us))
    ensures |Printable(EncodeAll(Utf16, us))| < |EncodeAll(Utf16, us)| <==> |Printable(us)| < |us|
  {
    hide Encode, IsPrintable;
    if us != [] {
      var e := Encode(Utf16, us[0]);
      PrintableUnits(us[1..]);
      PrintableAppend(e, EncodeAll(Utf16, us[1..]));
      PrintableOne(us[0]);
      if IsPrintable(us[0]) {
        EncodeAllAppend(Utf16, [us[0]], Printable(us[1..]));
      }
    }
  }

  lemma PrintableOne(u: uchar32)
    requires IsScalar(u)
    ensures Printable(Encode(Utf16, u)) == if IsPrintable(u) then Encode(Utf16, u) else []
    ensures IsPrintable(u) ==> EncodeAll(Utf16, [u]) == Encode(Utf16, u)
  {
  }

  lemma FirstUnit(u: uchar32, spaces: set<uchar32>)
    requires IsScalar(u) && AreSpaces(spaces)
    ensures var e := Encode(Utf16, u); (e[0] in spaces <==> u in spaces) && (u in spaces ==> e == [u])
  {
  }

  lemma {:induction false} TrimLeftUnits(us: Text, spaces: set<uchar32>)
    requires AllScalar(us) && AreSpaces(spaces)
    ensures TrimLeft(EncodeAll(Utf16, us), spaces) == EncodeAll(Utf16, TrimLeft(us, spaces))
  {
    hide Encode;
    if us != [] {
      FirstUnit(us[0], spaces);
    }
    if us != [] && us[0] in spaces {
      TrimLeftUnits(us[1..], spaces);
      assert EncodeAll(Utf16, us)[1..] == EncodeAll(Utf16, us[1..]);
    }
  }

  lemma {:induction false} TrimRightUnits(us: Text, spaces: set<uchar32>)
    requires AllScalar(us) && AreSpaces(spaces)
    ensures TrimRight(EncodeAll(Utf16, us), spaces) == EncodeAll(Utf16, TrimRight(us, spaces))
  {
    hide Encode, IsTrailing;
    if us != [] {
      var init, last := us[..|us| - 1], us[|us| - 1];
      var e := EncodeAll(Utf16, us);
      assert us == init + [last];
      EncodeAllAppend(Utf16, init, [last]);
      LastUnit(last, spaces);
      assert EncodeAll(Utf16, [last]) == Encode(Utf16, last);
      if IsTrailing(last, spaces) {
        TrimRightUnits(init, spaces);
        assert e[..|e| - 1] == EncodeAll(Utf16, init);
      }
    }
  }

  lemma LastUnit(u: uchar32, spaces: set<uchar32>)
    requires IsScalar(u) && AreSpaces(spaces)
    ensures var e := Encode(Utf16, u); IsTrailing(e[|e| - 1], spaces) <==> IsTrailing(u, spaces)
    ensures IsTrailing(u, spaces) ==> |Encode(Utf16, u)| == 1
  {
  }

  lemma StrippedUnits(us: Text, spaces: set<uchar32>)
    requires AllScalar(us) && AreSpaces(spaces)
    ensures Stripped(EncodeAll(Utf16, us), spaces) == EncodeAll(Utf16, Stripped(us, spaces))
  {
    hide Encode, EncodeAll, Printable, TrimLeft, TrimRight, AreSpaces;
    PrintableUnits(us);
    TrimRightUnits(us, spaces);
    TrimLeftUnits(Printable(us), spaces);
    TrimLeftUnits(TrimRight(us, spaces), spaces);
  }

  // Stripping anything makes room for the terminator.

  lemma {:induction false} PrintableIsShorter(f: Form, us: Text)
    requires AllScalar(us)
    ensures |EncodeAll(f, Printable(us))| + (|us| - |Printable(us)|) <= |EncodeAll(f, us)|
  {
    hide Encode, IsPrintable;
    if us != [] {
      PrintableIsShorter(f, us[1..]);
      if IsPrintable(us[0]) {
        assert ([us[0]] + Printable(us[1..]))[1..] == Printable(us[1..]);
      }
    }
  }

  lemma {:induction false} OneUnitEach(f: Form, us: Text)
    requires AllScalar(us)
    ensures |us| <= |EncodeAll(f, us)|
  {
    hide Encode;
    if us != [] {
      OneUnitEach(f, us[1..]);
    }
  }

  lemma TrimLeftIsShorter(f: Form, us: Text, spaces: set<uchar32>)
    requires AllScalar(us)
    ensures |EncodeAll(f, TrimLeft(us, spaces))| + (|us| - |TrimLeft(us, spaces)|) <= |EncodeAll(f, us)|
  {
  }

  lemma TrimRightIsShorter(f: Form, us: Text, spaces: set<uchar32>)
    requires AllScalar(us)
    ensures |EncodeAll(f, TrimRight(us, spaces))| + (|us| - |TrimRight(us, spaces)|) <= |EncodeAll(f, us)|
  {
    hide Encode, EncodeAll;
    var t := TrimRight(us, spaces);
    TrimRightPrefix(us, spaces);
    EncodeAllAppend(f, t, us[|t|..]);
    OneUnitEach(f, us[|t|..]);
  }

  lemma StrippedIsShorter(f: Form, us: Text, spaces: set<uchar32>)
    requires AllScalar(us)
    ensures |EncodeAll(f, Stripped(us, spaces))| + (|us| - |Stripped(us, spaces)|) <= |EncodeAll(f, us)|
    ensures |Stripped(us, spaces)| == |us| ==> Stripped(us, spaces) == us
  {
    hide Encode, EncodeAll, Printable, TrimLeft, TrimRight;
    TrimLeftSuffix(Printable(us), spaces);
    TrimLeftSuffix(TrimRight(us, spaces), spaces);
    TrimRightPrefix(us, spaces);
    PrintableAll(us);
    PrintableIsShorter(f, us);
    TrimLeftIsShorter(f, Printable(us), spaces);
    TrimRightIsShorter(f, us, spaces);
    TrimLeftIsShorter(f, TrimRight(us, spaces), spaces);
  }

  // The whole operation.

  method StrLen(p: array<uchar32>, ghost end: nat) returns (n: nat)
    requires Terminated(Utf8, p, 0, end)
    ensures n == end
  {
    n := 0;
    AtTerminator(Utf8, p, 0, end);
    while p[n] != 0
      invariant Terminated(Utf8, p, n, end) && (p[n] != 0 <==> n < end)
      decreases end - n
    {
      n := n + 1;
      AtTerminator(Utf8, p, n, end);
    }
  }

  /** The code points a byte text is read as, with '?' for whatever is not valid. */
  function Read(s: Text): (us: Text)
    requires IsText(Utf8, s)
    ensures AllScalar(us)
  {
    OtherFormsStayInside(Utf8, s);
    CodePointsOf(Characters(Utf8, s), ASSERT_REPLACE)
  }

  /** Both workers, one after the other, on the same `len`; the result begins at `r` and ends at `stop`. */
  method StripUnits(buf: array<uchar32>, len: nat, spaces: set<uchar32>)
    returns (r: nat, strippedAny: bool, strippedSpace: bool, ghost stop: nat)
    requires Holds(buf, len) && AreSpaces(spaces)
    modifies buf
    ensures r <= stop < buf.Length && buf[stop] == 0
    ensures buf[r..stop] == Stripped(old(buf[..len]), spaces)
    ensures strippedAny <==> |Printable(old(buf[..len]))| < len
    ensures strippedAny || strippedSpace <==> |Stripped(old(buf[..len]), spaces)| < len
  {
    hide TrimLeft, TrimRight, Printable, IsMeanSpace, IsTrailing, TrimmedTo, IsText, AreSpaces, Stripped;
    ghost var w := buf[..len];
    ghost var t := Printable(w);
    strippedAny := StripUnprintableWorker(buf, len);
    ghost var worked := buf[..len];
    ghost var e;
    r, strippedSpace, e := StripWhitespaceWorker(buf, len, spaces);
    stop := StripResult(w, worked, e, buf[..len], r, spaces);
    assert buf[..len][r..stop] == buf[r..stop];
  }

  /** What the two workers leave behind, in terms of the text they were given. */
  lemma StripResult(w: Text, worked: Text, e: nat, after: Text, r: nat, spaces: set<uchar32>) returns (stop: nat)
    requires AreSpaces(spaces) && |worked| == |after| == |w|
    requires var t := Printable(w); worked[..|t|] == t && (|t| < |w| ==> worked[|t|] == 0)
    requires TrimmedTo(worked, e, spaces)
    requires forall k :: 0 <= k < |after| ==> after[k] == if e <= k then 0 else worked[k]
    requires r <= e && (forall k :: 0 <= k < r ==> after[k] in spaces) && (r < e ==> after[r] !in spaces)
    ensures r <= stop <= |w| && (stop < |w| ==> after[stop] == 0)
    ensures after[r..stop] == Stripped(w, spaces)
    ensures |Printable(w)| < |w| || e - r < |w| <==> |Stripped(w, spaces)| < |w|
  {
    hide TrimLeft, TrimRight, Printable, IsMeanSpace, IsTrailing, Stripped;
    var t := Printable(w);
    StrippedIs(w, spaces);
    if |t| < |w| {
      TrimsShort(t, worked, e, after, r, spaces);
      stop := |t|;
    } else {
      PrintableAll(w);
      assert worked[..|w|] == worked == w;
      TrimsBoth(worked, e, after, r, spaces);
      stop := e;
    }
  }

  lemma StrippedIs(us: Text, spaces: set<uchar32>)
    ensures |Printable(us)| < |us| ==>
              Stripped(us, spaces) == TrimLeft(Printable(us), spaces) && |Stripped(us, spaces)| < |us|
    ensures |Printable(us)| >= |us| ==> Stripped(us, spaces) == TrimLeft(TrimRight(us, spaces), spaces)
  {
  }

  /** Trimming a buffer that holds a shorter text `t` and stale units behind it never reaches the text. */
  lemma TrimsShort(t: Text, worked: Text, e: nat, after: Text, r: nat, spaces: set<uchar32>)
    requires AreSpaces(spaces) && |t| < |worked| && worked[..|t|] == t && worked[|t|] == 0
    requires TrimmedTo(worked, e, spaces)
    requires |after| == |worked| && forall k :: 0 <= k < |after| ==> after[k] == if e <= k then 0 else worked[k]
    requires r <= e && (forall k :: 0 <= k < r ==> after[k] in spaces) && (r < e ==> after[r] !in spaces)
    ensures r <= |t| && after[|t|] == 0 && after[r..|t|] == TrimLeft(t, spaces)
  {
    assert e > |t|;
    assert after[|t|] !in spaces;
    assert after[..|t|] == t;
    TrimLeftStops(t, r, spaces);
    assert t[r..] == after[r..|t|];
  }

  lemma {:induction false} PrintableAll(us: Text)
    ensures |Printable(us)| == |us| ==> Printable(us) == us
  {
    if us != [] {
      PrintableAll(us[1..]);
    }
  }

  /**
   The whole operation on a name of at least one byte. What was bad is read as '?', but a name is
   rewritten only if something was stripped, and a one-byte name never: the bound passed for the way
   back is the length without the terminator.
   */
  method StripUnprintableAndSpace(pch: array<uchar32>, spaces: set<uchar32>, ghost end: nat) returns (strippedAny: bool)
    requires Terminated(Utf8, pch, 0, end) && end > 0 && AreSpaces(spaces)
    modifies pch
    ensures
      var us := Read(old(pch[0..end]));
      var t := Stripped(us, spaces);
      && (strippedAny <==> |Printable(us)| < |us|)
      && if t == us || end == 1 then pch[..] == old(pch[..])
         else
           var out := EncodeAll(Utf8, t);
           |out| < end && pch[..|out|] == out && pch[|out|] == 0
  {
    hide Encode, EncodeAll, Stripped, Printable, StaysInside, IsText, Converted, CodePointsOf;
    ghost var s := pch[0..end];
    ghost var us := Read(s);
    var cch := StrLen(pch, end);
    var cubDest := (cch + 1) * 2;
    var buf := new uchar32[cch + 1];
    ToUnits(s, cch);
    var bytes := ConvertT(Utf8, Utf16, pch, 0, buf, cubDest, ASSERT_REPLACE, end);
    var cwch := bytes / 2;
    var r, strippedSpace;
    ghost var stop;
    StrippedUnits(us, spaces);
    StrippedSizes(us, spaces);
    r, strippedAny, strippedSpace, stop := StripUnits(buf, cwch - 1, spaces);
    if strippedSpace || strippedAny {
      FromUnits(us, spaces, cch);
      var written := ConvertT(Utf16, Utf8, buf, r, pch, cch, ASSERT_REPLACE, stop);
    }
  }

  /** The way there: the buffer is large enough. */
  lemma ToUnits(s: Text, cch: nat)
    requires IsText(Utf8, s) && cch == |s|
    ensures StaysInside(Utf8, s) && IsText(Utf16, EncodeAll(Utf16, Read(s)))
    ensures Converted(Utf8, Utf16, s, cch, ASSERT_REPLACE) == Done(EncodeAll(Utf16, Read(s)))
    ensures |EncodeAll(Utf8, Read(s))| <= |s|
  {
    hide Encode, EncodeAll, Converted, Characters, CodePointsOf, StaysInside, IsText;
    OtherFormsStayInside(Utf8, s);
    NothingCutOff(Utf16, s, cch, ASSERT_REPLACE);
    BytesNeverGrow(Utf8, s, ASSERT_REPLACE);
    EncodeAllIsText(Utf16, Read(s));
  }

  /** The way back: what is left, if anything is gone, fits with its terminator where the name was. */
  lemma FromUnits(us: Text, spaces: set<uchar32>, cch: nat)
    requires AllScalar(us) && |EncodeAll(Utf8, us)| <= cch && Stripped(us, spaces) != us
    ensures
      var t := Stripped(us, spaces);
      var w := EncodeAll(Utf16, t);
      && AllScalar(t) && IsText(Utf16, w) && StaysInside(Utf16, w) && |EncodeAll(Utf8, t)| < cch
      && Converted(Utf16, Utf8, w, cch - 1, ASSERT_REPLACE) == Done(EncodeAll(Utf8, t))
  {
    hide Encode, EncodeAll, Stripped, Printable, StaysInside, IsText, Converted;
    StrippedIsShorter(Utf8, us, spaces);
    ConvertEncoded(Utf16, Utf8, Stripped(us, spaces), cch - 1, ASSERT_REPLACE);
  }

  /** Comparing lengths, in units or in code points, tells whether anything was stripped. */
  lemma StrippedSizes(us: Text, spaces: set<uchar32>)
    requires AllScalar(us) && AreSpaces(spaces)
    ensures |EncodeAll(Utf16, Stripped(us, spaces))| < |EncodeAll(Utf16, us)| <==> Stripped(us, spaces) != us
    ensures |Printable(EncodeAll(Utf16, us))| < |EncodeAll(Utf16, us)| <==> |Printable(us)| < |us|
  {
    hide Encode, EncodeAll, Stripped, Printable;
    StrippedIsShorter(Utf16, us, spaces);
    PrintableUnits(us);
  }

  // What is left is the printable text without the spaces around it.

  lemma {:induction false} TrimLeftDrops(us: Text, spaces: set<uchar32>)
    ensures var t := TrimLeft(us, spaces);
            && (forall i :: 0 <= i < |us| - |t| ==> us[i] in spaces)
            && (t != [] ==> t[0] !in spaces)
  {
    if us != [] && us[0] in spaces {
      TrimLeftDrops(us[1..], spaces);
      assert forall i :: 0 < i < |us| ==> us[i] == us[1..][i - 1];
    }
  }

  lemma {:induction false} TrimRightDrops(us: Text, spaces: set<uchar32>)
    ensures forall i :: |TrimRight(us, spaces)| <= i < |us| ==> IsTrailing(us[i], spaces)
  {
    if us != [] && IsTrailing(us[|us| - 1], spaces) {
      TrimRightDrops(us[..|us| - 1], spaces);
    }
  }

  /** Only spaces are lost in front, and none is left; behind, only trailing ones, or none if anything else is lost. */
  lemma StrippedIsMiddle(us: Text, spaces: set<uchar32>) returns (before: Text, after: Text)
    ensures Printable(us) == before + Stripped(us, spaces) + after
    ensures forall i :: 0 <= i < |before| ==> before[i] in spaces
    ensures forall i :: 0 <= i < |after| ==> IsTrailing(after[i], spaces)
    ensures |Printable(us)| < |us| ==> after == []
    ensures Stripped(us, spaces) != [] ==> Stripped(us, spaces)[0] !in spaces
  {
    hide Printable, TrimLeft, TrimRight, IsTrailing;
    PrintableAll(us);
    var ps := Printable(us);
    var t := if |ps| < |us| then ps else TrimRight(us, spaces);
    if |ps| == |us| {
      TrimRightPrefix(us, spaces);
      TrimRightDrops(us, spaces);
    }
    TrimLeftSuffix(t, spaces);
    TrimLeftDrops(t, spaces);
    before, after := t[..|t| - |TrimLeft(t, spaces)|], ps[|t|..];
  }

  // Two things a reader of the documentation may not expect.

  ghost predicate EndsClean(us: Text, spaces: set<uchar32>) {
    us == [] || !IsTrailing(us[|us| - 1], spaces)
  }

  /** When nothing unprintable is removed, no trailing space is left ... */
  lemma CleanWhenPrintable(us: Text, spaces: set<uchar32>)
    requires |Printable(us)| == |us|
    ensures EndsClean(Stripped(us, spaces), spaces)
  {
    TrimRightClean(us, spaces);
    TrimLeftSuffix(TrimRight(us, spaces), spaces);
  }

  lemma {:induction false} TrimRightClean(us: Text, spaces: set<uchar32>)
    ensures EndsClean(TrimRight(us, spaces), spaces)
  {
    if us != [] && IsTrailing(us[|us| - 1], spaces) {
      TrimRightClean(us[..|us| - 1], spaces);
    }
  }

  /**
   ... but when something is, a trailing space stays: the trimming starts at the old length, behind
   the new terminator. The end is clean iff it was before trimming, or all that is left is spaces.
   */
  lemma CleanWhenStripped(us: Text, spaces: set<uchar32>)
    requires |Printable(us)| < |us|
    ensures EndsClean(Stripped(us, spaces), spaces) <==>
            EndsClean(Printable(us), spaces) || forall i :: 0 <= i < |Printable(us)| ==> Printable(us)[i] in spaces
  {
    hide Printable, TrimLeft, TrimRight, Stripped, IsTrailing;
    var ps := Printable(us);
    var t := TrimLeft(ps, spaces);
    StrippedIs(us, spaces);
    TrimLeftSuffix(ps, spaces);
    TrimLeftEmpty(ps, spaces);
    if t != [] {
      assert t[|t| - 1] == ps[|ps| - 1];
    }
  }

  lemma {:induction false} TrimLeftEmpty(us: Text, spaces: set<uchar32>)
    ensures TrimLeft(us, spaces) == [] <==> forall i :: 0 <= i < |us| ==> us[i] in spaces
  {
    if us != [] && us[0] in spaces {
      TrimLeftEmpty(us[1..], spaces);
      assert forall i :: 0 < i < |us| ==> us[i] == us[1..][i - 1];
    }
  }

  /** For instance a control character in front keeps the space at the end. */
  lemma TrailingSpaceStays()
    ensures Stripped([1, 97, 32], {32}) == [97, 32] && Stripped([97, 32], {32}) == [97]
  {
    var us: Text, ps: Text, space: Text := [1, 97, 32], [97, 32], [32];
    assert us[1..] == ps && ps[1..] == space && ps[..1] == [97] && space[1..] == [];
    assert Printable(space) == space;
    assert Printable(ps) == ps;
    assert Printable(us) == ps;
    assert TrimLeft(ps, {32}) == ps;
    assert TrimRight(ps, {32}) == [97];
  }
}
