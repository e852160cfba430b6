/** The bounded formatter for localized strings, which knows %s1 to %s9 and the bare %s only. */
module LocalizeFormat {

  /** The characters of a C string, before its terminator. */
  type CString = s: string | '\0' !in s witness ""

  /** A pointer to a string may be null. */
  datatype Pointer = Null | To(s: CString)

  // The full substitution, without a bound.

  datatype Piece = Numbered(idx: nat) | Bare | Literal(c: char)

  predicate NumberedAt(fmt: string, p: nat) {
    p + 2 < |fmt| && fmt[p] == '%' && fmt[p + 1] == 's' && '1' <= fmt[p + 2] <= '9'
  }

  predicate BareAt(fmt: string, p: nat) {
    p + 1 < |fmt| && fmt[p] == '%' && fmt[p + 1] == 's' && !NumberedAt(fmt, p)
  }

  function IndexAt(fmt: string, p: nat): (idx: nat)
    requires NumberedAt(fmt, p)
    ensures idx < 9
  {
    (fmt[p + 2] - '1') as nat
  }

  function Parse(fmt: string): seq<Piece> {
    if fmt == "" then []
    else if NumberedAt(fmt, 0) then [Numbered(IndexAt(fmt, 0))] + Parse(fmt[3..])
    else if BareAt(fmt, 0) then [Bare] + Parse(fmt[2..])
    else [Literal(fmt[0])] + Parse(fmt[1..])
  }

  function Spell(p: Piece): string
    requires p.Numbered? ==> p.idx < 9
  {
    match p
    case Numbered(idx) => "%s" + ["123456789"[idx]]
    case Bare => "%s"
    case Literal(c) => [c]
  }

  function SpellAll(ps: seq<Piece>): string
    requires forall i :: 0 <= i < |ps| && ps[i].Numbered? ==> ps[i].idx < 9
  {
    if ps == [] then "" else Spell(ps[0]) + SpellAll(ps[1..])
  }

  /** The first piece of a format, and the rest. */
  lemma FirstPiece(fmt: string)
    requires fmt != ""
    ensures NumberedAt(fmt, 0) ==> Parse(fmt) == [Numbered(IndexAt(fmt, 0))] + Parse(fmt[3..])
    ensures !NumberedAt(fmt, 0) && BareAt(fmt, 0) ==> Parse(fmt) == [Bare] + Parse(fmt[2..])
    ensures !NumberedAt(fmt, 0) && !BareAt(fmt, 0) ==> Parse(fmt) == [Literal(fmt[0])] + Parse(fmt[1..])
  {
  }

  lemma SpellFirst(fmt: string)
    requires fmt != ""
    ensures NumberedAt(fmt, 0) ==> 3 <= |fmt| && Spell(Numbered(IndexAt(fmt, 0))) == fmt[..3]
    ensures BareAt(fmt, 0) ==> 2 <= |fmt| && Spell(Bare) == fmt[..2]
    ensures Spell(Literal(fmt[0])) == fmt[..1]
  {
  }

  /** Parsing loses nothing: the pieces spell the format. */
  lemma {:induction false} ParseIsLossless(fmt: string)
    ensures forall i :: 0 <= i < |Parse(fmt)| && Parse(fmt)[i].Numbered? ==> Parse(fmt)[i].idx < 9
    ensures SpellAll(Parse(fmt)) == fmt
  {
    if fmt != "" {
      hide NumberedAt, BareAt, Parse, Spell;
      FirstPiece(fmt);
      SpellFirst(fmt);
      var n := if NumberedAt(fmt, 0) then 3 else if BareAt(fmt, 0) then 2 else 1;
      ParseIsLossless(fmt[n..]);
      assert Parse(fmt)[1..] == Parse(fmt[n..]);
      assert fmt == fmt[..n] + fmt[n..];
    }
  }

  /** A missing or null argument is empty. */
  function Argument(argv: seq<Pointer>, argc: int, idx: nat): CString
    requires argc <= |argv|
  {
    if idx < argc && argv[idx].To? then argv[idx].s else ""
  }

  /** The text of the pieces; the bare ones take the arguments in order, whatever the numbered ones took. */
  function Expand(ps: seq<Piece>, argv: seq<Pointer>, argc: int, positional: nat): string
    requires argc <= |argv|
  {
    if ps == [] then ""
    else
      match ps[0]
      case Numbered(idx) => Argument(argv, argc, idx) + Expand(ps[1..], argv, argc, positional)
      case Bare => Argument(argv, argc, positional) + Expand(ps[1..], argv, argc, positional + 1)
      case Literal(c) => [c] + Expand(ps[1..], argv, argc, positional)
  }

  function Full(fmt: string, argv: seq<Pointer>, argc: int): string
    requires argc <= |argv|
  {
    Expand(Parse(fmt), argv, argc, 0)
  }

  function Bares(ps: seq<Piece>): nat {
    if ps == [] then 0 else (if ps[0].Bare? then 1 else 0) + Bares(ps[1..])
  }

  /** A format is substituted piece by piece: no argument is scanned again, and only bare pieces take turns. */
  lemma {:induction false} PieceByPiece(ps: seq<Piece>, qs: seq<Piece>, argv: seq<Pointer>, argc: int, positional: nat)
    requires argc <= |argv|
    ensures Expand(ps + qs, argv, argc, positional) ==
            Expand(ps, argv, argc, positional) + Expand(qs, argv, argc, positional + Bares(ps))
  {
    if ps == [] {
      assert ps + qs == qs;
    } else {
      assert (ps + qs)[1..] == ps[1..] + qs;
      PieceByPiece(ps[1..], qs, argv, argc, if ps[0].Bare? then positional + 1 else positional);
    }
  }

  /** No use of `%s` begins in `a`, when `b` follows. */
  ghost predicate NoneBegins(a: string, b: string) {
    && (forall i :: 0 <= i < |a| - 1 && a[i] == '%' ==> a[i + 1] != 's')
    && (a != "" && a[|a| - 1] == '%' && b != "" ==> b[0] != 's')
  }

  /** Every other use of the percent sign passes through, wherever it stands in the format. */
  lemma {:induction false} OthersPassThrough(a: string, b: string, argv: seq<Pointer>, argc: int, positional: nat)
    requires argc <= |argv| && NoneBegins(a, b)
    ensures Expand(Parse(a + b), argv, argc, positional) == a + Expand(Parse(b), argv, argc, positional)
  {
    hide Parse, Expand;
    if a == "" {
      assert a + b == b;
    } else {
      var fmt := a + b;
      LiteralFirst(a, b);
      FirstPiece(fmt);
      hide NumberedAt, BareAt;
      assert fmt[1..] == a[1..] + b;
      OthersPassThrough(a[1..], b, argv, argc, positional);
      ExpandLiteral(fmt[0], Parse(fmt[1..]), argv, argc, positional);
      assert a == [a[0]] + a[1..];
    }
  }

  lemma ExpandLiteral(c: char, ps: seq<Piece>, argv: seq<Pointer>, argc: int, positional: nat)
    requires argc <= |argv|
    ensures Expand([Literal(c)] + ps, argv, argc, positional) == [c] + Expand(ps, argv, argc, positional)
  {
  }

  lemma LiteralFirst(a: string, b: string)
    requires a != "" && NoneBegins(a, b)
    ensures !NumberedAt(a + b, 0) && !BareAt(a + b, 0) && NoneBegins(a[1..], b)
  {
    assert forall i :: 0 <= i < |a| - 2 && a[1..][i] == '%' ==> a[i + 1 + 1] != 's';
  }

  /** Whatever comes before a percent sign is parsed as if it ended there. */
  lemma {:induction false} ParseAtPercent(a: string, c: string)
    requires c != "" ==> c[0] == '%'
    ensures Parse(a + c) == Parse(a) + Parse(c)
  {
    hide Parse, NumberedAt, BareAt;
    if a == "" {
      assert a + c == c;
      NoPieces();
    } else {
      var fmt := a + c;
      SameFirst(a, c);
      FirstPiece(a);
      FirstPiece(fmt);
      var n := if NumberedAt(a, 0) then 3 else if BareAt(a, 0) then 2 else 1;
      assert fmt[n..] == a[n..] + c;
      ParseAtPercent(a[n..], c);
      Joined(Parse(a)[..1], Parse(a[n..]), Parse(c));
    }
  }

  lemma NoPieces()
    ensures Parse("") == []
  {
  }

  lemma Joined(ps: seq<Piece>, qs: seq<Piece>, rs: seq<Piece>)
    ensures (ps + qs) + rs == ps + (qs + rs)
  {
  }

  lemma SameFirst(a: string, c: string)
    requires a != "" && (c != "" ==> c[0] == '%')
    ensures (a + c)[0] == a[0]
    ensures NumberedAt(a + c, 0) <==> NumberedAt(a, 0)
    ensures NumberedAt(a, 0) ==> IndexAt(a + c, 0) == IndexAt(a, 0) && 3 <= |a|
    ensures BareAt(a + c, 0) <==> BareAt(a, 0)
    ensures BareAt(a, 0) ==> 2 <= |a|
  {
  }

  /** Wherever `%s1` to `%s9` stands in a format, the argument of that number comes in its place, or nothing. */
  lemma NumberedInPlace(a: string, digit: char, b: string, argv: seq<Pointer>, argc: int)
    requires argc <= |argv| && '1' <= digit <= '9'
    ensures
      var idx := digit as int - '1' as int;
      Full(a + ("%s" + [digit] + b), argv, argc) ==
      Full(a, argv, argc)
      + (if idx < argc && argv[idx].To? then argv[idx].s else "")
      + Expand(Parse(b), argv, argc, Bares(Parse(a)))
  {
    hide Parse, Expand;
    var c := "%s" + [digit] + b;
    ParseAtPercent(a, c);
    FirstPiece(c);
    assert c[3..] == b;
    PieceByPiece(Parse(a), Parse(c), argv, argc, 0);
    ExpandArgument(Numbered(IndexAt(c, 0)), Parse(b), argv, argc, Bares(Parse(a)));
  }

  /** A bare `%s` takes the argument whose number is that of the bare ones before it. */
  lemma BareInPlace(a: string, b: string, argv: seq<Pointer>, argc: int)
    requires argc <= |argv| && (b != "" ==> !('1' <= b[0] <= '9'))
    ensures
      var idx := Bares(Parse(a));
      Full(a + ("%s" + b), argv, argc) ==
      Full(a, argv, argc)
      + (if idx < argc && argv[idx].To? then argv[idx].s else "")
      + Expand(Parse(b), argv, argc, idx + 1)
  {
    hide Parse, Expand;
    var c := "%s" + b;
    ParseAtPercent(a, c);
    FirstPiece(c);
    assert c[2..] == b;
    PieceByPiece(Parse(a), Parse(c), argv, argc, 0);
    ExpandArgument(Bare, Parse(b), argv, argc, Bares(Parse(a)));
  }

  lemma ExpandArgument(p: Piece, ps: seq<Piece>, argv: seq<Pointer>, argc: int, positional: nat)
    requires argc <= |argv| && !p.Literal?
    ensures
      var idx := if p.Numbered? then p.idx else positional;
      Expand([p] + ps, argv, argc, positional) ==
      (if idx < argc && argv[idx].To? then argv[idx].s else "")
      + Expand(ps, argv, argc, if p.Bare? then positional + 1 else positional)
  {
    assert ([p] + ps)[1..] == ps;
  }

  /** Copies `sub` behind `w`, as far as it fits. */
  method Append(dst: array<char>, dstsize: nat, w0: nat, sub: CString) returns (w: nat)
    requires w0 < dstsize <= dst.Length
    modifies dst
    ensures w == if w0 + |sub| < dstsize then w0 + |sub| else dstsize - 1
    ensures dst[..w] == old(dst[..w0]) + sub[..w - w0]
    ensures forall k :: w <= k < dst.Length ==> dst[k] == old(dst[k])
  {
    w := w0;
    var i := 0;
    while i < |sub| && w + 1 < dstsize
      invariant 0 <= i <= |sub| && w == w0 + i < dstsize
      invariant dst[..w] == old(dst[..w0]) + sub[..i]
      invariant forall k :: w <= k < dst.Length ==> dst[k] == old(dst[k])
    {
      dst[w] := sub[i];
      w := w + 1;
      i := i + 1;
    }
  }

  /** With `rest` to come and `done` written, and room for `max` characters in all. */
  ghost predicate OnTheWay(full: string, done: string, rest: string, max: nat) {
    |done| <= max && if |done| < max then full == done + rest else done <= full
  }

  lemma Appended(full: string, done: string, sub: string, rest: string, max: nat, n: nat)
    requires OnTheWay(full, done, sub + rest, max)
    requires n == if |done| + |sub| <= max then |sub| else max - |done|
    ensures OnTheWay(full, done + sub[..n], rest, max)
  {
  }

  /** What the format from `p` on comes to. */
  function Rest(fmt: string, p: nat, argv: seq<Pointer>, argc: int, positional: nat): string
    requires argc <= |argv| && p <= |fmt|
  {
    Expand(Parse(fmt[p..]), argv, argc, positional)
  }

  /** What comes next in a format, and what is then still to come. */
  lemma Next(fmt: string, p: nat, argv: seq<Pointer>, argc: int, positional: nat)
    requires argc <= |argv| && p <= |fmt|
    ensures Rest(fmt, p, argv, argc, positional) ==
            if p == |fmt| then
              ""
            else if NumberedAt(fmt, p) then
              Argument(argv, argc, IndexAt(fmt, p)) + Rest(fmt, p + 3, argv, argc, positional)
            else if BareAt(fmt, p) then
              Argument(argv, argc, positional) + Rest(fmt, p + 2, argv, argc, positional + 1)
            else
              [fmt[p]] + Rest(fmt, p + 1, argv, argc, positional)
  {
  }

  lemma Start(fmt: string, argv: seq<Pointer>, argc: int, max: nat)
    requires argc <= |argv|
    ensures OnTheWay(Full(fmt, argv, argc), "", Rest(fmt, 0, argv, argc, 0), max)
  {
  }

  lemma Finish(full: string, done: string, rest: string, max: nat)
    requires OnTheWay(full, done, rest, max) && (rest == "" || |done| == max)
    ensures |done| == (if |full| <= max then |full| else max) && done == full[..|done|]
  {
  }

  method FormatInto(dst: array<char>, dstsize: nat, fmt: CString, argv: seq<Pointer>, argc: int) returns (w: nat)
    requires 0 < dstsize <= dst.Length && argc <= |argv|
    modifies dst
    ensures w < dstsize
    ensures var full := Full(fmt, argv, argc);
            w == (if |full| < dstsize then |full| else dstsize - 1) && dst[..w] == full[..w]
    ensures forall k :: w <= k < dst.Length ==> dst[k] == old(dst[k])
  {
    hide Full, Rest, OnTheWay, Argument, IndexAt;
    ghost var full := Full(fmt, argv, argc);
    ghost var max := dstsize - 1;
    w := 0;
    var positional: nat := 0;
    var p: nat := 0;
    Start(fmt, argv, argc, max);
    assert dst[..0] == "";
    while p < |fmt| && w + 1 < dstsize
      invariant p <= |fmt| && w < dstsize
      invariant OnTheWay(full, dst[..w], Rest(fmt, p, argv, argc, positional), max)
      invariant forall k :: w <= k < dst.Length ==> dst[k] == old(dst[k])
      decreases |fmt| - p
    {
      ghost var done := dst[..w];
      Next(fmt, p, argv, argc, positional);
      if NumberedAt(fmt, p) {
        var sub := Argument(argv, argc, IndexAt(fmt, p));
        w := Append(dst, dstsize, w, sub);
        p := p + 3;
        Appended(full, done, sub, Rest(fmt, p, argv, argc, positional), max, w - |done|);
        continue;
      }
      if BareAt(fmt, p) {
        var sub := Argument(argv, argc, positional);
        positional := positional + 1;
        w := Append(dst, dstsize, w, sub);
        p := p + 2;
        Appended(full, done, sub, Rest(fmt, p, argv, argc, positional), max, w - |done|);
        continue;
      }
      dst[w] := fmt[p];
      w := w + 1;
      p := p + 1;
      assert dst[..w] == done + [fmt[p - 1]][..1];
      Appended(full, done, [fmt[p - 1]], Rest(fmt, p, argv, argc, positional), max, 1);
    }
    Next(fmt, p, argv, argc, positional);
    Finish(full, dst[..w], Rest(fmt, p, argv, argc, positional), max);
  }

  method Localize_Format(dst: array?<char>, dstsize: nat, fmt: Pointer, argv: seq<Pointer>, argc: int) returns (r: nat)
    requires dst != null ==> dstsize <= dst.Length
    requires argc <= |argv|
    modifies if dst != null then {dst} else {}
    ensures dst == null || dstsize == 0 ==> r == 0 && (dst != null ==> dst[..] == old(dst[..]))
    ensures dst != null && dstsize > 0 ==>
              var full := if fmt.To? then Full(fmt.s, argv, argc) else "";
              && r == (if |full| < dstsize then |full| else dstsize - 1)
              && dst[..r] == full[..r] && dst[r] == '\0'
              && forall k :: r < k < dst.Length ==> dst[k] == old(dst[k])
  {
    if dst == null || dstsize == 0 {
      return 0;
    }
    if fmt.Null? {
      dst[0] := '\0';
      return 0;
    }
    r := FormatInto(dst, dstsize, fmt.s, argv, argc);
    dst[r] := '\0';
  }
}
