/**
 Key buttons: a button is down while any of the keys bound to it is. Two slots and three state bits
 refine the set of held keys, over every sequence of key events and samples.
 */
module KeyButtons {

  /** The keys holding a button, and whether it went down or up since it was last sampled. */
  datatype Button = Button(keys: set<int>, pressed: bool, released: bool)

  /** A third key is ignored, and so is the number that marks a free slot. */
  function AfterDown(b: Button, key: int): Button {
    if key == 0 || key in b.keys || |b.keys| >= 2 then b
    else Button(b.keys + {key}, b.pressed || b.keys == {}, b.released)
  }

  function AfterUp(b: Button, key: int): Button {
    if key !in b.keys then b
    else Button(b.keys - {key}, b.pressed, b.released || b.keys == {key})
  }

  /** The command typed without a key number unsticks the button. */
  function AfterUnstick(b: Button): Button {
    Button({}, false, true)
  }

  /** The fraction of the frame the button counts as down. */
  function Value(b: Button): real {
    if b.pressed && b.released then (if b.keys != {} then 0.75 else 0.25)
    else if b.pressed then (if b.keys != {} then 0.5 else 0.0)
    else if b.released then 0.0
    else if b.keys != {} then 1.0 else 0.0
  }

  /** A button that is up counts for nothing, but for a quarter if it went down and up. */
  lemma ValueWhenUp(b: Button)
    requires b.keys == {}
    ensures Value(b) == if b.pressed && b.released then 0.25 else 0.0
  {
  }

  function AfterSample(b: Button): Button {
    Button(b.keys, false, false)
  }

  class KButton {
    const down: array<int>
    var state: bv8

    ghost predicate Valid()
      reads this, down
    {
      && down.Length == 2
      && (down[0] == down[1] ==> down[0] == 0)
      && state & 0xF8 == 0
      && (state & 1 == 1 <==> Keys() != {})
    }

    ghost function Keys(): set<int>
      reads this, down
      requires down.Length == 2
    {
      {down[0], down[1]} - {0}
    }

    ghost function Abs(): Button
      reads this, down
      requires Valid()
    {
      Button(Keys(), state & 2 == 2, state & 4 == 4)
    }

    constructor ()
      ensures Valid() && fresh(down) && Abs() == Button({}, false, false)
    {
      down := new int[2](_ => 0);
      state := 0;
    }

    method KeyDown(k: int)
      requires Valid()
      modifies this, down
      ensures Valid() && Abs() == AfterDown(old(Abs()), k)
    {
      SlotsDown(down[0], down[1], k);
      Bits(state);
      if k == down[0] || k == down[1] {
        return;
      }
      if down[0] == 0 {
        down[0] := k;
      } else if down[1] == 0 {
        down[1] := k;
      } else {
        return;
      }
      if state & 1 == 1 {
        return;
      }
      state := state | (1 + 2);
    }

    method KeyUp(k: int)
      requires Valid()
      modifies this, down
      ensures Valid() && Abs() == AfterUp(old(Abs()), k)
    {
      Bits(state);
      Bits(state & 0xFE);
      if down[0] == k {
        down[0] := 0;
      } else if down[1] == k {
        down[1] := 0;
      } else {
        return;
      }
      assert Keys() == old(Keys()) - {k};
      if down[0] != 0 || down[1] != 0 {
        assert (if down[0] != 0 then down[0] else down[1]) in Keys();
        return;
      }
      if state & 1 != 1 {
        return;
      }
      state := state & 0xFE;
      state := state | 4;
    }

    method Unstick()
      requires Valid()
      modifies this, down
      ensures Valid() && Abs() == AfterUnstick(old(Abs()))
      ensures down[0] == 0 && down[1] == 0 && state == 4
    {
      down[0], down[1] := 0, 0;
      state := 4;
    }

    method KeyState() returns (val: real)
      requires Valid()
      modifies this
      ensures val == Value(old(Abs()))
      ensures Valid() && Abs() == AfterSample(old(Abs()))
    {
      Bits(state);
      val := 0.0;
      var impulsedown, impulseup, isDown := state & 2 == 2, state & 4 == 4, state & 1 == 1;
      if impulsedown && !impulseup {
        val := if isDown then 0.5 else 0.0;
      }
      if impulseup && !impulsedown {
        val := 0.0;
      }
      if !impulsedown && !impulseup {
        val := if isDown then 1.0 else 0.0;
      }
      if impulsedown && impulseup {
        if isDown {
          val := 0.75;
        } else {
          val := 0.25;
        }
      }
      state := state & 1;
    }
  }

  /** Any run of events on a button. */
  method Play(b: KButton, es: seq<Event>)
    requires b.Valid()
    modifies b, b.down
    ensures b.Valid() && b.Abs() == Run(old(b.Abs()), es)
  {
    hide Step;
    for i := 0 to |es|
      invariant b.Valid() && Run(b.Abs(), es[i..]) == Run(old(b.Abs()), es)
    {
      assert es[i..][1..] == es[i + 1..];
      Perform(b, es[i]);
    }
    assert es[|es|..] == [];
  }

  method Perform(b: KButton, e: Event)
    requires b.Valid()
    modifies b, b.down
    ensures b.Valid() && b.Abs() == Step(old(b.Abs()), e)
  {
    match e
    case Down(k) => b.KeyDown(k);
    case Up(k) => b.KeyUp(k);
    case Unstick => b.Unstick();
    case Sample => var val := b.KeyState();
  }

  /** How many keys two distinct slots hold, and what filling the first free one adds. */
  lemma SlotsDown(a: int, b: int, k: int)
    requires a == b ==> a == 0
    ensures var keys := {a, b} - {0};
            && (keys == {} <==> a == 0 && b == 0)
            && (|keys| >= 2 <==> a != 0 && b != 0)
            && (k == a || k == b ==> k == 0 || k in keys)
            && (k in keys <==> k != 0 && (k == a || k == b))
            && (k != 0 && a == 0 ==> {k, b} - {0} == keys + {k} && {k, b} - {0} != {})
            && (k != 0 && b == 0 ==> {a, k} - {0} == keys + {k} && {a, k} - {0} != {})
  {
  }

  /** Setting and clearing one bit leaves the others. */
  lemma Bits(s: bv8)
    ensures (s | 3) & 1 == 1 && (s | 3) & 2 == 2 && (s | 3) & 4 == s & 4 && (s & 0xF8 == 0 ==> (s | 3) & 0xF8 == 0)
    ensures s & 0xFE & 1 == 0 && s & 0xFE & 2 == s & 2 && s & 0xFE & 4 == s & 4
    ensures s & 0xF8 == 0 ==> s & 0xFE & 0xF8 == 0
    ensures (s | 4) & 1 == s & 1 && (s | 4) & 2 == s & 2 && (s | 4) & 4 == 4 && (s & 0xF8 == 0 ==> (s | 4) & 0xF8 == 0)
    ensures s & 1 & 1 == s & 1 && s & 1 & 2 == 0 && s & 1 & 4 == 0 && s & 1 & 0xF8 == 0
  {
  }

  // Every run of events.

  datatype Event = Down(key: int) | Up(key: int) | Unstick | Sample

  function Step(b: Button, e: Event): Button {
    match e
    case Down(k) => AfterDown(b, k)
    case Up(k) => AfterUp(b, k)
    case Unstick => AfterUnstick(b)
    case Sample => AfterSample(b)
  }

  function Run(b: Button, es: seq<Event>): Button
    decreases |es|
  {
    if es == [] then b else Run(Step(b, es[0]), es[1..])
  }

  /** The button is down or up: its level at the start and after each event. */
  function Levels(b: Button, es: seq<Event>): (ls: seq<bool>)
    ensures |ls| == |es| + 1 && ls[0] == (b.keys != {})
    decreases |es|
  {
    [b.keys != {}] + if es == [] then [] else Levels(Step(b, es[0]), es[1..])
  }

  ghost predicate HasEdge(ls: seq<bool>, to: bool) {
    exists i :: 0 <= i < |ls| - 1 && ls[i] == !to && ls[i + 1] == to
  }

  ghost predicate OnlyKeys(es: seq<Event>) {
    forall i :: 0 <= i < |es| ==> es[i].Down? || es[i].Up?
  }

  lemma EdgeCons(l: bool, ls: seq<bool>, to: bool)
    requires ls != []
    ensures HasEdge([l] + ls, to) <==> (l == !to && ls[0] == to) || HasEdge(ls, to)
  {
    var s := [l] + ls;
    if l == !to && ls[0] == to {
      assert s[0] == !to && s[0 + 1] == to;
    }
    if HasEdge(ls, to) {
      var i :| 0 <= i < |ls| - 1 && ls[i] == !to && ls[i + 1] == to;
      assert s[i + 1] == !to && s[i + 1 + 1] == to;
    }
    if HasEdge(s, to) {
      var i :| 0 <= i < |s| - 1 && s[i] == !to && s[i + 1] == to;
      if i > 0 {
        assert ls[i - 1] == !to && ls[i - 1 + 1] == to;
      }
    }
  }

  lemma Unfolded(b: Button, es: seq<Event>)
    ensures es == [] ==> Run(b, es) == b && Levels(b, es) == [b.keys != {}] && forall to :: !HasEdge(Levels(b, es), to)
    ensures es != [] ==>
              var c := Step(b, es[0]);
              Run(b, es) == Run(c, es[1..]) && Levels(b, es) == [b.keys != {}] + Levels(c, es[1..])
  {
  }

  lemma StepEdges(b: Button, e: Event)
    requires e.Down? || e.Up?
    ensures
      var c := Step(b, e);
      && (c.pressed <==> b.pressed || (b.keys == {} && c.keys != {}))
      && (c.released <==> b.released || (b.keys != {} && c.keys == {}))
  {
  }

  /** Bits 1 and 2 record whether there was an edge, in either direction, since the last sample. */
  lemma {:induction false} EdgesRecorded(b: Button, es: seq<Event>)
    requires OnlyKeys(es)
    ensures
      var r, ls := Run(b, es), Levels(b, es);
      && (r.keys != {} <==> ls[|es|])
      && (r.pressed <==> b.pressed || HasEdge(ls, true))
      && (r.released <==> b.released || HasEdge(ls, false))
    decreases |es|
  {
    hide Step, HasEdge, Run, Levels;
    Unfolded(b, es);
    if es != [] {
      var c := Step(b, es[0]);
      StepEdges(b, es[0]);
      EdgesRecorded(c, es[1..]);
      EdgeCons(b.keys != {}, Levels(c, es[1..]), true);
      EdgeCons(b.keys != {}, Levels(c, es[1..]), false);
    }
  }

  /** A level that never changes in one direction only changes in the other. */
  lemma {:induction false} NoEdge(ls: seq<bool>, to: bool)
    requires ls != []
    ensures !HasEdge(ls, to) && ls[|ls| - 1] == to ==> forall i :: 0 <= i < |ls| ==> ls[i] == to
  {
    if |ls| > 1 {
      assert ls == [ls[0]] + ls[1..];
      EdgeCons(ls[0], ls[1..], to);
      NoEdge(ls[1..], to);
      assert forall i :: 0 < i < |ls| ==> ls[i] == ls[1..][i - 1];
    }
  }

  lemma {:induction false} EdgeBetween(ls: seq<bool>, i: nat, j: nat)
    requires i < j < |ls| && ls[i] != ls[j]
    ensures HasEdge(ls, ls[j])
    decreases j - i
  {
    if ls[i + 1] != ls[i] {
      assert ls[i] == !ls[j] && ls[i + 1] == ls[j];
    } else {
      EdgeBetween(ls, i + 1, j);
    }
  }

  lemma EdgeAt(ls: seq<bool>, to: bool) returns (i: nat)
    requires HasEdge(ls, to)
    ensures i < |ls| - 1 && ls[i] == !to && ls[i + 1] == to
  {
    i :| 0 <= i < |ls| - 1 && ls[i] == !to && ls[i + 1] == to;
  }

  /**
   What a sample says about all levels since the one before: 1 iff the button was down throughout,
   1/2 iff it went down and stayed, 3/4 iff it came up and is down again, 1/4 iff it went down and is
   up again; otherwise 0: it was up throughout, or it was down and came up.
   */
  lemma SampleOfHistory(before: Button, es: seq<Event>)
    requires OnlyKeys(es)
    ensures
      var b := AfterSample(before);
      var ls := Levels(b, es);
      var v := Value(Run(b, es));
      var last := ls[|es|];
      && (v == 1.0 <==> forall i :: 0 <= i < |ls| ==> ls[i])
      && (v == 0.5 <==> !ls[0] && last && !HasEdge(ls, false))
      && (v == 0.75 <==> last && HasEdge(ls, false))
      && (v == 0.25 <==> !last && HasEdge(ls, true))
      && (v == 0.0 <==> !last && !HasEdge(ls, true))
      && (v == 0.0 || v == 0.25 || v == 0.5 || v == 0.75 || v == 1.0)
  {
    hide Run, Levels, HasEdge;
    var b := AfterSample(before);
    var ls := Levels(b, es);
    EdgesRecorded(b, es);
    NoEdge(ls, true);
    NoEdge(ls, false);
    if ls[0] != ls[|es|] {
      EdgeBetween(ls, 0, |es|);
    }
    var last := ls[|es|];
    if HasEdge(ls, !last) {
      var i := EdgeAt(ls, !last);
      EdgeBetween(ls, i + 1, |es|);
    }
    if HasEdge(ls, true) {
      var i := EdgeAt(ls, true);
      if ls[0] {
        EdgeBetween(ls, 0, i);
      }
    }
  }

  /** At most two keys hold a button, none of them the number of a free slot, over any run. */
  lemma {:induction false} HeldKeys(b: Button, es: seq<Event>)
    requires 0 !in b.keys && |b.keys| <= 2
    ensures 0 !in Run(b, es).keys && |Run(b, es).keys| <= 2
    decreases |es|
  {
    if es != [] {
      HeldKeys(Step(b, es[0]), es[1..]);
    }
  }

  // Against the keys that are really held, however many.

  function HeldStep(h: set<int>, e: Event): set<int> {
    match e
    case Down(k) => h + {k}
    case Up(k) => h - {k}
    case _ => h
  }

  function Held(h: set<int>, es: seq<Event>): set<int>
    decreases |es|
  {
    if es == [] then h else Held(HeldStep(h, es[0]), es[1..])
  }

  ghost predicate NeverMoreThanTwo(h: set<int>, es: seq<Event>)
    decreases |es|
  {
    |h| <= 2 && (es == [] || NeverMoreThanTwo(HeldStep(h, es[0]), es[1..]))
  }

  ghost predicate AlwaysAgree(b: Button, h: set<int>, es: seq<Event>)
    decreases |es|
  {
    b.keys == h && (es == [] || AlwaysAgree(Step(b, es[0]), HeldStep(h, es[0]), es[1..]))
  }

  ghost predicate OnlyRealKeys(es: seq<Event>) {
    forall i :: 0 <= i < |es| ==> es[i].Sample? || ((es[i].Down? || es[i].Up?) && es[i].key != 0)
  }

  /** The two slots hold the keys held, all along a run with any samples, iff never more than two are held at once. */
  lemma {:induction false} SlotsHoldTheKeys(b: Button, es: seq<Event>)
    requires 0 !in b.keys && |b.keys| <= 2 && OnlyRealKeys(es)
    ensures AlwaysAgree(b, b.keys, es) <==> NeverMoreThanTwo(b.keys, es)
    decreases |es|
  {
    if es != [] {
      StepHeld(b, es[0]);
      SlotsHoldTheKeys(Step(b, es[0]), es[1..]);
    }
  }

  lemma StepHeld(b: Button, e: Event)
    requires 0 !in b.keys && |b.keys| <= 2 && (e.Sample? || ((e.Down? || e.Up?) && e.key != 0))
    ensures var c := Step(b, e); 0 !in c.keys && |c.keys| <= 2
    ensures Step(b, e).keys == HeldStep(b.keys, e) <==> |HeldStep(b.keys, e)| <= 2
  {
    if e.Down? && e.key in b.keys {
      assert b.keys + {e.key} == b.keys;
    }
  }

  /** A button never holds a key that is up ... */
  lemma {:induction false} NothingInvented(b: Button, h: set<int>, es: seq<Event>)
    requires b.keys <= h
    ensures Run(b, es).keys <= Held(h, es)
    decreases |es|
  {
    if es != [] {
      NothingInvented(Step(b, es[0]), HeldStep(h, es[0]), es[1..]);
    }
  }

  /** ... but it can be up while the third of three keys is still held. */
  lemma ThirdKeyIsLost()
    ensures
      var start, es := Button({}, false, false), [Down(1), Down(2), Down(3), Up(1), Up(2)];
      Run(start, es).keys == {} && Held({}, es) == {3}
  {
    var b := Button({}, false, false);
    var es := [Down(1), Down(2), Down(3), Up(1), Up(2)];
    var b1, b2 := Button({1}, true, false), Button({1, 2}, true, false);
    assert Step(b, Down(1)) == b1 && Step(b1, Down(2)) == b2 && Step(b2, Down(3)) == b2;
    var b3, b4 := Button({2}, true, false), Button({}, true, true);
    assert Step(b2, Up(1)) == b3 && Step(b3, Up(2)) == b4;
    assert Run(b2, [Up(1), Up(2)]) == b4;
    assert es[1..] == [Down(2), Down(3), Up(1), Up(2)];
    assert es[1..][1..] == [Down(3), Up(1), Up(2)];
    assert es[1..][1..][1..] == [Up(1), Up(2)];
    assert Held({1, 2, 3}, [Up(1), Up(2)]) == {3};
  }
}
