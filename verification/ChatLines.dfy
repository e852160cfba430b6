/** The chat lines on screen: seven parallel arrays, scrolled up one whole message at a time. */
module ChatLines {

  const MAX_LINES: nat := 5

  datatype Color = NoColor | Color(id: int)

  /** One row of the seven arrays. */
  datatype Line = Line(
    text: string, color: Color, nameLength: int, createTime: real, moveTime: real, slot: int, prevSlot: int)

  /** A line that continues the message of the line above starts with a space. */
  predicate Continues(text: string) {
    text != "" && text[0] == ' '
  }

  lemma ContinuesExactly(c: char, rest: string)
    ensures Continues([c] + rest) <==> c == ' '
    ensures !Continues("")
  {
  }

  /** How many lines from row `i` on continue the message above it; the last row is spare. */
  function Continuations(lines: seq<Line>, i: nat): (n: nat)
    requires |lines| == MAX_LINES + 1 && i <= MAX_LINES
    ensures n <= MAX_LINES - i
    ensures forall k :: i <= k < i + n ==> Continues(lines[k].text)
    ensures i + n < MAX_LINES ==> !Continues(lines[i + n].text)
    decreases MAX_LINES - i
  {
    if i < MAX_LINES && Continues(lines[i].text) then 1 + Continuations(lines, i + 1) else 0
  }

  function Blank(time: real): Line {
    Line("", NoColor, 0, time, time, MAX_LINES - 1, MAX_LINES - 1)
  }

  function Blanks(n: nat, time: real): (lines: seq<Line>)
    ensures |lines| == n && forall k :: 0 <= k < n ==> lines[k] == Blank(time)
  {
    if n == 0 then [] else [Blank(time)] + Blanks(n - 1, time)
  }

  /** The first message is gone, with its continuations; the lines below have moved up by as many rows. */
  function Scrolled(lines: seq<Line>, time: real): (r: seq<Line>)
    requires |lines| == MAX_LINES + 1
    ensures |r| == MAX_LINES + 1
  {
    var n := 1 + Continuations(lines, 1);
    lines[n..MAX_LINES] + Blanks(n, time) + [lines[MAX_LINES].(text := "")]
  }

  /** Every line below the message is where it was, less the rows of the message ... */
  lemma RowsMovedUp(lines: seq<Line>, time: real, k: nat)
    requires |lines| == MAX_LINES + 1 && k + 1 + Continuations(lines, 1) < MAX_LINES
    ensures Scrolled(lines, time)[k] == lines[k + 1 + Continuations(lines, 1)]
  {
    hide Continuations, Blanks;
    var n := 1 + Continuations(lines, 1);
    Joined(lines[n..MAX_LINES], Blanks(n, time), [lines[MAX_LINES].(text := "")], k);
  }

  /** ... and the rows left over are empty. */
  lemma RowsLeftEmpty(lines: seq<Line>, time: real, k: nat)
    requires |lines| == MAX_LINES + 1 && k < MAX_LINES <= k + 1 + Continuations(lines, 1)
    ensures Scrolled(lines, time)[k] == Line("", NoColor, 0, time, time, 4, 4)
  {
    hide Continuations, Blanks;
    var n := 1 + Continuations(lines, 1);
    Joined(lines[n..MAX_LINES], Blanks(n, time), [lines[MAX_LINES].(text := "")], k);
  }

  lemma Joined(a: seq<Line>, b: seq<Line>, c: seq<Line>, k: nat)
    requires k < |a| + |b|
    ensures (a + b + c)[k] == if k < |a| then a[k] else b[k - |a|]
  {
  }

  /** Whatever is first after scrolling begins a message. */
  lemma FirstLineBegins(lines: seq<Line>, time: real)
    requires |lines| == MAX_LINES + 1
    ensures !Continues(Scrolled(lines, time)[0].text)
  {
  }

  /** One shift by one row, with the first character of a continuation overwritten. */
  function Shifted(lines: seq<Line>, time: real): (r: seq<Line>)
    requires |lines| == MAX_LINES + 1
    ensures |r| == MAX_LINES + 1
  {
    lines[1..MAX_LINES] + [Blank(time), lines[MAX_LINES].(text := "")]
  }

  function Marked(text: string): string {
    if Continues(text) then ['\U{2}'] + text[1..] else text
  }

  lemma ScrollOnceMore(lines: seq<Line>, time: real)
    requires |lines| == MAX_LINES + 1
    ensures
      var s := Shifted(lines, time);
      var m := s[0 := s[0].(text := Marked(s[0].text))];
      if Continues(s[0].text) then
        Continuations(m, 1) + 1 == Continuations(lines, 1) && Scrolled(m, time) == Scrolled(lines, time)
      else
        Continuations(lines, 1) == 0 && Scrolled(lines, time) == s
  {
    var s := Shifted(lines, time);
    var m := s[0 := s[0].(text := Marked(s[0].text))];
    assert s[0] == lines[1];
    if Continues(s[0].text) {
      SameContinuations(lines, m, 2, time);
      var n := 1 + Continuations(m, 1);
      assert m[n..MAX_LINES - 1] == lines[n + 1..MAX_LINES];
      assert m[n..MAX_LINES] == m[n..MAX_LINES - 1] + [Blank(time)];
      assert m[n..MAX_LINES] + Blanks(n, time) == lines[n + 1..MAX_LINES] + Blanks(n + 1, time);
    } else {
      assert Blanks(1, time) == [Blank(time)];
    }
  }

  lemma {:induction false} SameContinuations(lines: seq<Line>, m: seq<Line>, i: nat, time: real)
    requires |lines| == |m| == MAX_LINES + 1 && 2 <= i <= MAX_LINES
    requires forall k :: 2 <= k < MAX_LINES ==> m[k - 1] == lines[k]
    requires m[MAX_LINES - 1] == Blank(time)
    ensures Continuations(lines, i) == Continuations(m, i - 1)
    decreases MAX_LINES - i
  {
    if i == MAX_LINES {
      assert !Continues(m[i - 1].text);
    } else {
      assert m[i - 1] == lines[i];
      SameContinuations(lines, m, i + 1, time);
    }
  }

  /** Moves all rows of one array up by one; the last row keeps its contents. */
  method MoveUp<T>(a: array<T>)
    requires a.Length > 0
    modifies a
    ensures forall k :: 0 <= k < a.Length - 1 ==> a[k] == old(a[k + 1])
    ensures a[a.Length - 1] == old(a[a.Length - 1])
  {
    for i := 0 to a.Length - 1
      invariant forall k :: 0 <= k < i ==> a[k] == old(a[k + 1])
      invariant forall k :: i <= k < a.Length ==> a[k] == old(a[k])
    {
      a[i] := a[i + 1];
    }
  }

  class SayText {
    const text: array<string>
    const color: array<Color>
    const nameLength: array<int>
    const createTime: array<real>
    const moveTime: array<real>
    const slot: array<int>
    const prevSlot: array<int>

    ghost predicate Valid() {
      && text.Length == color.Length == nameLength.Length == createTime.Length == MAX_LINES + 1
      && moveTime.Length == slot.Length == prevSlot.Length == MAX_LINES + 1
      && nameLength != slot && nameLength != prevSlot && slot != prevSlot && createTime != moveTime
    }

    ghost function Row(i: nat): Line
      requires Valid() && i <= MAX_LINES
      reads text, color, nameLength, createTime, moveTime, slot, prevSlot
    {
      Line(text[i], color[i], nameLength[i], createTime[i], moveTime[i], slot[i], prevSlot[i])
    }

    ghost function Lines(): (lines: seq<Line>)
      requires Valid()
      reads text, color, nameLength, createTime, moveTime, slot, prevSlot
      ensures |lines| == MAX_LINES + 1
    {
      [Row(0), Row(1), Row(2), Row(3), Row(4), Row(5)]
    }

    /** The state in which chat starts. */
    constructor ()
      ensures Valid() && fresh(text) && fresh(color) && fresh(nameLength) && fresh(createTime)
      ensures fresh(moveTime) && fresh(slot) && fresh(prevSlot)
      ensures forall i :: 0 <= i <= MAX_LINES ==> Row(i) == Line("", NoColor, 0, 0.0, 0.0, i, i)
    {
      text := new string[MAX_LINES + 1](_ => "");
      color := new Color[MAX_LINES + 1](_ => NoColor);
      nameLength := new int[MAX_LINES + 1](_ => 0);
      createTime := new real[MAX_LINES + 1](_ => 0.0);
      moveTime := new real[MAX_LINES + 1](_ => 0.0);
      slot := new int[MAX_LINES + 1](i => i);
      prevSlot := new int[MAX_LINES + 1](i => i);
    }

    method SetLineState(line: nat, time: real)
      requires Valid() && line <= MAX_LINES
      modifies createTime, moveTime, slot, prevSlot
      ensures forall k :: 0 <= k <= MAX_LINES ==>
                var row := old(Row(k));
                Row(k) == if k != line then row
                          else row.(createTime := time, moveTime := time, slot := line, prevSlot := line)
    {
      createTime[line] := time;
      moveTime[line] := time;
      slot[line] := line;
      prevSlot[line] := line;
    }

    method ShiftRows(time: real)
      requires Valid()
      modifies text, color, nameLength, createTime, moveTime, slot, prevSlot
      ensures forall k :: 0 <= k < MAX_LINES - 1 ==> Row(k) == old(Row(k + 1))
      ensures Row(MAX_LINES - 1) == Blank(time) == Line("", NoColor, 0, time, time, 4, 4)
      ensures Row(MAX_LINES) == old(Row(MAX_LINES)).(text := "")
    {
      text[MAX_LINES] := "";
      MoveUp(text);
      MoveUp(color);
      MoveUp(nameLength);
      MoveUp(createTime);
      MoveUp(moveTime);
      MoveUp(slot);
      MoveUp(prevSlot);
      text[MAX_LINES - 1] := "";
      color[MAX_LINES - 1] := NoColor;
      nameLength[MAX_LINES - 1] := 0;
      SetLineState(MAX_LINES - 1, time);
    }

    /** Scrolls up one message: it calls itself as long as the line that came up continues the one that went. */
    method ScrollTextUp(time: real) returns (n: nat)
      requires Valid()
      modifies text, color, nameLength, createTime, moveTime, slot, prevSlot
      ensures n == 1 + Continuations(old(Lines()), 1)
      ensures Lines() == Scrolled(old(Lines()), time)
      decreases Continuations(Lines(), 1)
    {
      ghost var before := Lines();
      ScrollOnceMore(before, time);
      ShiftRows(time);
      ghost var s := Lines();
      assert s == Shifted(before, time);
      if text[0] != "" && text[0][0] == ' ' {
        text[0] := ['\U{2}'] + text[0][1..];
        assert Lines() == s[0 := s[0].(text := Marked(s[0].text))];
        var m := ScrollTextUp(time);
        return 1 + m;
      }
      return 1;
    }
  }
}
