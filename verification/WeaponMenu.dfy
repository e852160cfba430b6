/** The weapon menu: a grid of slots and positions, and the keys that walk through it. */
module WeaponMenu {

  import opened Options

  const MAX_WEAPON_SLOTS: nat := 5
  const MAX_WEAPON_POSITIONS: nat := 22

  datatype Weapon = Weapon(iId: int, iSlot: nat, iSlotPos: nat)

  /** The grid has one row and one column more than the menu shows. */
  predicate InGrid(w: Weapon) {
    w.iSlot <= MAX_WEAPON_SLOTS && w.iSlotPos <= MAX_WEAPON_POSITIONS
  }

  predicate InMenu(w: Weapon) {
    w.iSlot < MAX_WEAPON_SLOTS && w.iSlotPos < MAX_WEAPON_POSITIONS
  }

  // The walk, on cells in one line: row after row.

  type Cells = seq<Option<Weapon>>

  /** The cells of the menu come first; those of the extra row follow. */
  const MENU: nat := 110
  const ALL: nat := 132

  function Index(slot: nat, pos: nat): nat {
    slot * MAX_WEAPON_POSITIONS + pos
  }

  /** The first weapon at `c` or after, below `n`; `n` if there is none. */
  function FirstFrom(cells: Cells, n: nat, c: nat): (d: nat)
    requires n <= |cells|
    ensures c <= n ==> c <= d <= n
    ensures d < n ==> cells[d].Some?
    ensures forall i :: c <= i < d && i < n ==> cells[i].None?
    decreases n - c
  {
    if c >= n then n else if cells[c].Some? then c else FirstFrom(cells, n, c + 1)
  }

  /** The last weapon before `c`. */
  function LastBefore(cells: Cells, c: nat): (r: Option<nat>)
    requires c <= |cells|
    ensures r.Some? ==> r.value < c && cells[r.value].Some?
    ensures forall i :: (if r.Some? then r.value + 1 else 0) <= i < c ==> cells[i].None?
  {
    if c == 0 then None else if cells[c - 1].Some? then Some(c - 1) else LastBefore(cells, c - 1)
  }

  /** The next weapon after cell `c`, and the first one after the last. */
  function Next(cells: Cells, n: nat, c: nat): nat
    requires n <= |cells|
  {
    var d := FirstFrom(cells, n, c + 1);
    if d < n then d else FirstFrom(cells, n, 0)
  }

  function Prev(cells: Cells, n: nat, c: nat): Option<nat>
    requires n <= |cells| && c <= |cells|
  {
    var d := LastBefore(cells, c);
    if d.Some? then d else LastBefore(cells, n)
  }

  /** How many weapons there are before cell `c`. */
  function Rank(cells: Cells, c: nat): nat
    requires c <= |cells|
  {
    if c == 0 then 0 else Rank(cells, c - 1) + if cells[c - 1].Some? then 1 else 0
  }

  lemma {:induction false} RankGrows(cells: Cells, c: nat, d: nat)
    requires c <= d <= |cells|
    ensures Rank(cells, c) <= Rank(cells, d)
    ensures Rank(cells, c) == Rank(cells, d) <==> forall i :: c <= i < d ==> cells[i].None?
    decreases d
  {
    if c < d {
      RankGrows(cells, c, d - 1);
    }
  }

  /** Two weapons of the same rank are in the same cell. */
  lemma RankIdentifies(cells: Cells, c: nat, d: nat)
    requires c < |cells| && d < |cells| && cells[c].Some? && cells[d].Some?
    requires Rank(cells, c) == Rank(cells, d)
    ensures c == d
  {
    if c < d {
      RankGrows(cells, c, d);
    } else if d < c {
      RankGrows(cells, d, c);
    }
  }

  /** The next weapon is the next in rank, round and round. */
  lemma NextRank(cells: Cells, n: nat, c: nat)
    requires c < n <= |cells| && cells[c].Some?
    ensures Next(cells, n, c) < n && cells[Next(cells, n, c)].Some?
    ensures Rank(cells, c) < Rank(cells, n)
    ensures Rank(cells, Next(cells, n, c)) == if Rank(cells, c) + 1 == Rank(cells, n) then 0 else Rank(cells, c) + 1
  {
    var d := FirstFrom(cells, n, c + 1);
    RankGrows(cells, c + 1, d);
    RankGrows(cells, c + 1, n);
    RankGrows(cells, d, n);
    RankGrows(cells, 0, FirstFrom(cells, n, 0));
  }

  lemma PrevRank(cells: Cells, n: nat, c: nat)
    requires c < n <= |cells| && cells[c].Some?
    ensures Prev(cells, n, c).Some?
    ensures
      var d := Prev(cells, n, c).value;
      d < n && cells[d].Some?
      && Rank(cells, d) == if Rank(cells, c) == 0 then Rank(cells, n) - 1 else Rank(cells, c) - 1
  {
    RankGrows(cells, c + 1, n);
    match LastBefore(cells, c)
    case Some(d) =>
      RankGrows(cells, d + 1, c);
    case None =>
      RankGrows(cells, 0, c);
      var e := LastBefore(cells, n).value;
      RankGrows(cells, e + 1, n);
  }

  /** Each of the two keys undoes the other. */
  lemma NextAndBack(cells: Cells, n: nat, c: nat)
    requires c < n <= |cells| && cells[c].Some?
    ensures Prev(cells, n, Next(cells, n, c)) == Some(c)
    ensures Prev(cells, n, c).Some? && Prev(cells, n, c).value < n && Next(cells, n, Prev(cells, n, c).value) == c
  {
  }

  /** The cell reached from `c` by pressing the key `k` times. */
  function Pressed(cells: Cells, n: nat, c: nat, k: nat): nat
    requires n <= |cells|
  {
    if k == 0 then c else Next(cells, n, Pressed(cells, n, c, k - 1))
  }

  lemma {:induction false} PressedRank(cells: Cells, n: nat, c: nat, k: nat)
    requires c < n <= |cells| && cells[c].Some? && k <= Rank(cells, n)
    ensures Pressed(cells, n, c, k) < n && cells[Pressed(cells, n, c, k)].Some?
    ensures Rank(cells, c) < Rank(cells, n)
    ensures
      Rank(cells, Pressed(cells, n, c, k)) ==
      if Rank(cells, c) + k < Rank(cells, n) then Rank(cells, c) + k else Rank(cells, c) + k - Rank(cells, n)
  {
    hide Next, Rank;
    NextRank(cells, n, c);
    if k > 0 {
      PressedRank(cells, n, c, k - 1);
      NextRank(cells, n, Pressed(cells, n, c, k - 1));
    }
  }

  ghost predicate Passed(cells: Cells, n: nat, c: nat, presses: nat, d: nat)
    requires n <= |cells|
  {
    exists k: nat :: k < presses && Pressed(cells, n, c, k) == d
  }

  lemma PassesBy(cells: Cells, n: nat, c: nat, d: nat)
    requires c < n <= |cells| && cells[c].Some? && d < n && cells[d].Some?
    ensures Passed(cells, n, c, Rank(cells, n), d)
  {
    hide Next, Rank, Pressed;
    NextRank(cells, n, c);
    NextRank(cells, n, d);
    var ahead := Rank(cells, d) - Rank(cells, c);
    var k: nat := if ahead >= 0 then ahead else ahead + Rank(cells, n);
    PressedRank(cells, n, c, k);
    RankIdentifies(cells, d, Pressed(cells, n, c, k));
  }

  /** Pressing the key once for each weapon passes each of them, never the same twice, and ends at the start. */
  lemma CyclesThroughAll(cells: Cells, n: nat, c: nat)
    requires c < n <= |cells| && cells[c].Some?
    ensures Pressed(cells, n, c, Rank(cells, n)) == c
    ensures forall d: nat :: d < n && cells[d].Some? ==> Passed(cells, n, c, Rank(cells, n), d)
    ensures forall k: nat, l: nat :: k < l < Rank(cells, n) ==> Pressed(cells, n, c, k) != Pressed(cells, n, c, l)
  {
    hide Next, Rank, Pressed, Passed;
    var m := Rank(cells, n);
    NextRank(cells, n, c);
    PressedRank(cells, n, c, m);
    RankIdentifies(cells, c, Pressed(cells, n, c, m));
    forall d: nat | d < n && cells[d].Some?
      ensures Passed(cells, n, c, m, d)
    {
      PassesBy(cells, n, c, d);
    }
    forall k: nat, l: nat | k < l < m
      ensures Pressed(cells, n, c, k) != Pressed(cells, n, c, l)
    {
      PressedRank(cells, n, c, k);
      PressedRank(cells, n, c, l);
    }
  }

  // The keys, on any weapon of the grid. Only rows of the menu are searched forwards; backwards the search
  // starts in the weapon's own row. Positions of the extra column are never searched.

  /** The cell a forward search looks at next; a position past the row's end is the next row's start. */
  function Place(slot: nat, pos: nat): nat {
    if slot >= MAX_WEAPON_SLOTS then MENU
    else Index(slot, if pos < MAX_WEAPON_POSITIONS then pos else MAX_WEAPON_POSITIONS)
  }

  function Ahead(cells: Cells, slot: nat, pos: nat): Option<Weapon>
    requires |cells| == ALL
  {
    var d := FirstFrom(cells, MENU, Place(slot, pos));
    if d < MENU then cells[d] else None
  }

  /** Going backwards, `pos` may be -1, before the row's start, and `slot` may be -1, before the first row. */
  function Behind(cells: Cells, slot: int, pos: int): Option<Weapon>
    requires |cells| == ALL && 0 <= slot * MAX_WEAPON_POSITIONS + pos + 1 <= ALL
  {
    var d := LastBefore(cells, slot * MAX_WEAPON_POSITIONS + pos + 1);
    if d.Some? then cells[d.value] else None
  }

  /** The search begins after the selection, and again at 0 if it has finished a row, else at the same position. */
  function NextSelection(cells: Cells, from: Option<Weapon>): Option<Weapon>
    requires |cells| == ALL
  {
    var slot: nat := if from.Some? then from.value.iSlot else 0;
    var pos: nat := if from.Some? then from.value.iSlotPos + 1 else 0;
    var d := Ahead(cells, slot, pos);
    if d.Some? then d else Ahead(cells, 0, if slot < MAX_WEAPON_SLOTS then 0 else pos)
  }

  function PrevSelection(cells: Cells, from: Option<Weapon>): Option<Weapon>
    requires |cells| == ALL && (from.Some? ==> InGrid(from.value))
  {
    var slot := if from.Some? then from.value.iSlot else MAX_WEAPON_SLOTS - 1;
    var pos := if from.Some? then from.value.iSlotPos - 1 else MAX_WEAPON_POSITIONS - 1;
    var d := Behind(cells, slot, pos);
    if d.Some? then d else Behind(cells, MAX_WEAPON_SLOTS - 1, MAX_WEAPON_POSITIONS - 1)
  }

  // One step of the searches.

  lemma AheadStep(cells: Cells, slot: nat, pos: nat)
    requires |cells| == ALL && slot < MAX_WEAPON_SLOTS
    ensures pos < MAX_WEAPON_POSITIONS ==> Index(slot, pos) < MENU
    ensures pos < MAX_WEAPON_POSITIONS ==>
              var w := cells[Index(slot, pos)];
              Ahead(cells, slot, pos) == if w.Some? then w else Ahead(cells, slot, pos + 1)
    ensures pos >= MAX_WEAPON_POSITIONS ==> Ahead(cells, slot, pos) == Ahead(cells, slot + 1, 0)
  {
  }

  lemma AheadOfAll(cells: Cells, slot: nat, pos: nat)
    requires |cells| == ALL && slot >= MAX_WEAPON_SLOTS
    ensures Ahead(cells, slot, pos) == None
  {
  }

  lemma BehindStep(cells: Cells, slot: nat, pos: int)
    requires |cells| == ALL && slot <= MAX_WEAPON_SLOTS && -1 <= pos < MAX_WEAPON_POSITIONS
    ensures pos >= 0 ==>
              var w := cells[Index(slot, pos)];
              Behind(cells, slot, pos) == if w.Some? then w else Behind(cells, slot, pos - 1)
    ensures pos < 0 ==> Behind(cells, slot, pos) == Behind(cells, slot - 1, MAX_WEAPON_POSITIONS - 1)
  {
  }

  lemma BehindAll(cells: Cells)
    requires |cells| == ALL
    ensures Behind(cells, -1, MAX_WEAPON_POSITIONS - 1) == None
  {
  }

  /** Each weapon sits at its own slot and position. */
  ghost predicate WellPlaced(cells: Cells) {
    forall c: nat :: c < |cells| && cells[c].Some? ==>
      var w := cells[c].value;
      w.iSlotPos < MAX_WEAPON_POSITIONS && Index(w.iSlot, w.iSlotPos) == c
  }

  function CellOf(w: Weapon): nat {
    Index(w.iSlot, w.iSlotPos)
  }

  /** From a weapon of the menu the keys go to the next and the previous cell of the cycle. */
  lemma KeysFollowTheCycle(cells: Cells, w: Weapon)
    requires |cells| == ALL && InMenu(w) && cells[CellOf(w)] == Some(w)
    ensures Next(cells, MENU, CellOf(w)) < MENU && NextSelection(cells, Some(w)) == cells[Next(cells, MENU, CellOf(w))]
    ensures Prev(cells, MENU, CellOf(w)).Some?
    ensures PrevSelection(cells, Some(w)) == cells[Prev(cells, MENU, CellOf(w)).value]
  {
  }

  /** Each key undoes the other, on weapons that sit at their own places. */
  lemma KeysUndoEachOther(cells: Cells, w: Weapon)
    requires |cells| == ALL && WellPlaced(cells) && InMenu(w) && cells[CellOf(w)] == Some(w)
    ensures NextSelection(cells, Some(w)).Some? && InMenu(NextSelection(cells, Some(w)).value)
    ensures cells[CellOf(NextSelection(cells, Some(w)).value)] == NextSelection(cells, Some(w))
    ensures PrevSelection(cells, NextSelection(cells, Some(w))) == Some(w)
    ensures PrevSelection(cells, Some(w)).Some? && InMenu(PrevSelection(cells, Some(w)).value)
    ensures NextSelection(cells, PrevSelection(cells, Some(w))) == Some(w)
  {
    hide Rank, Next, Prev, NextSelection, PrevSelection;
    var c := CellOf(w);
    NextRank(cells, MENU, c);
    PrevRank(cells, MENU, c);
    KeysFollowTheCycle(cells, w);
    KeysFollowTheCycle(cells, NextSelection(cells, Some(w)).value);
    KeysFollowTheCycle(cells, PrevSelection(cells, Some(w)).value);
    NextAndBack(cells, MENU, c);
  }

  /** From a weapon of the menu, wherever it was taken from, the keys select its neighbours in rank. */
  lemma SelectionRank(cells: Cells, w: Weapon)
    requires |cells| == ALL && WellPlaced(cells) && InMenu(w) && cells[CellOf(w)] == Some(w)
    ensures
      var r, n := Rank(cells, CellOf(w)), Rank(cells, MENU);
      var next, prev := NextSelection(cells, Some(w)), PrevSelection(cells, Some(w));
      && next.Some? && InMenu(next.value) && Rank(cells, CellOf(next.value)) == (if r + 1 == n then 0 else r + 1)
      && prev.Some? && InMenu(prev.value) && Rank(cells, CellOf(prev.value)) == (if r == 0 then n - 1 else r - 1)
  {
    hide Rank, Next, Prev, NextSelection, PrevSelection;
    var c := CellOf(w);
    NextRank(cells, MENU, c);
    PrevRank(cells, MENU, c);
    KeysFollowTheCycle(cells, w);
    KeysUndoEachOther(cells, w);
  }

  /** With no weapon to go on from, the next key selects the first of the menu and the previous key the last. */
  lemma FromNothing(cells: Cells)
    requires |cells| == ALL && WellPlaced(cells)
    ensures
      var first, last, n := NextSelection(cells, None), PrevSelection(cells, None), Rank(cells, MENU);
      && (n == 0 ==> first.None? && last.None?)
      && (n > 0 ==> first.Some? && last.Some? && InMenu(first.value) && InMenu(last.value))
      && (n > 0 ==> Rank(cells, CellOf(first.value)) == 0 && Rank(cells, CellOf(last.value)) == n - 1)
  {
    hide Rank;
    var d := FirstFrom(cells, MENU, 0);
    FirstAndLast(cells, MENU);
    if d < MENU {
      assert CellOf(cells[d].value) == d;
    }
  }

  lemma FirstAndLast(cells: Cells, n: nat)
    requires n <= |cells|
    ensures FirstFrom(cells, n, 0) < n <==> Rank(cells, n) > 0
    ensures LastBefore(cells, n).Some? <==> Rank(cells, n) > 0
    ensures FirstFrom(cells, n, 0) < n ==> Rank(cells, FirstFrom(cells, n, 0)) == 0
    ensures LastBefore(cells, n).Some? ==> Rank(cells, LastBefore(cells, n).value) == Rank(cells, n) - 1
  {
    var d := FirstFrom(cells, n, 0);
    RankGrows(cells, 0, d);
    RankGrows(cells, 0, n);
    RankGrows(cells, d, n);
    if LastBefore(cells, n).Some? {
      RankGrows(cells, LastBefore(cells, n).value + 1, n);
    }
  }

  /** The selection after pressing the next key `k` times. */
  function Selected(cells: Cells, w: Option<Weapon>, k: nat): Option<Weapon>
    requires |cells| == ALL
  {
    if k == 0 then w else NextSelection(cells, Selected(cells, w, k - 1))
  }

  /** Any number of presses stays in the menu, at weapons in their own places. */
  lemma {:induction false} SelectedInMenu(cells: Cells, w: Weapon, k: nat)
    requires |cells| == ALL && WellPlaced(cells) && InMenu(w) && cells[CellOf(w)] == Some(w)
    ensures
      var v := Selected(cells, Some(w), k);
      v.Some? && InMenu(v.value) && cells[CellOf(v.value)] == v
  {
    hide NextSelection, WellPlaced;
    if k > 0 {
      SelectedInMenu(cells, w, k - 1);
      KeysUndoEachOther(cells, Selected(cells, Some(w), k - 1).value);
    }
  }

  lemma {:induction false} SelectedFollowsCycle(cells: Cells, w: Weapon, k: nat)
    requires |cells| == ALL && WellPlaced(cells) && InMenu(w) && cells[CellOf(w)] == Some(w)
    requires k <= Rank(cells, MENU)
    ensures Pressed(cells, MENU, CellOf(w), k) < MENU
    ensures Selected(cells, Some(w), k).Some?
    ensures Selected(cells, Some(w), k) == cells[Pressed(cells, MENU, CellOf(w), k)]
  {
    hide Rank, Next, NextSelection;
    PressedRank(cells, MENU, CellOf(w), k);
    if k > 0 {
      SelectedFollowsCycle(cells, w, k - 1);
      KeysFollowTheCycle(cells, Selected(cells, Some(w), k - 1).value);
    }
  }

  /** The next key, pressed as many times as there are weapons in the menu, selects each of them in turn. */
  lemma KeysCycleThroughMenu(cells: Cells, w: Weapon)
    requires |cells| == ALL && WellPlaced(cells) && InMenu(w) && cells[CellOf(w)] == Some(w)
    ensures Selected(cells, Some(w), Rank(cells, MENU)) == Some(w)
    ensures forall k: nat, l: nat :: k < l < Rank(cells, MENU) ==>
              Selected(cells, Some(w), k) != Selected(cells, Some(w), l)
    ensures forall d: nat :: d < MENU && cells[d].Some? ==> SelectedWithin(cells, w, Rank(cells, MENU), cells[d])
  {
    hide Rank, Next, Pressed, Selected, SelectedWithin;
    var c, m := CellOf(w), Rank(cells, MENU);
    CyclesThroughAll(cells, MENU, c);
    SelectedFollowsCycle(cells, w, m);
    forall k: nat, l: nat | k < l < m
      ensures Selected(cells, Some(w), k) != Selected(cells, Some(w), l)
    {
      SelectedFollowsCycle(cells, w, k);
      SelectedFollowsCycle(cells, w, l);
    }
    forall d: nat | d < MENU && cells[d].Some?
      ensures SelectedWithin(cells, w, m, cells[d])
    {
      SelectsEach(cells, w, d);
    }
  }

  ghost predicate SelectedWithin(cells: Cells, w: Weapon, presses: nat, v: Option<Weapon>)
    requires |cells| == ALL
  {
    exists k: nat :: k < presses && Selected(cells, Some(w), k) == v
  }

  lemma SelectsEach(cells: Cells, w: Weapon, d: nat)
    requires |cells| == ALL && WellPlaced(cells) && InMenu(w) && cells[CellOf(w)] == Some(w)
    requires d < MENU && cells[d].Some?
    ensures SelectedWithin(cells, w, Rank(cells, MENU), cells[d])
  {
    hide Rank, Next, Pressed, Selected;
    PassesBy(cells, MENU, CellOf(w), d);
    var k: nat :| k < Rank(cells, MENU) && Pressed(cells, MENU, CellOf(w), k) == d;
    SelectedFollowsCycle(cells, w, k);
  }

  /**
   After a weapon of the extra row the menu's first weapon should come, as it does when nothing is
   selected. It comes unless the search skips it: the first positions of the first row must be empty.
   */
  lemma NextFromExtraRow(cells: Cells, w: Weapon)
    requires |cells| == ALL && WellPlaced(cells) && InGrid(w) && w.iSlot == MAX_WEAPON_SLOTS
    ensures
      NextSelection(cells, Some(w)) == NextSelection(cells, None)
      <==> forall c: nat :: c <= w.iSlotPos && c < MAX_WEAPON_POSITIONS ==> cells[c].None?
  {
    var s := Place(0, w.iSlotPos + 1);
    var d, e := FirstFrom(cells, MENU, 0), FirstFrom(cells, MENU, s);
    if d >= s {
      assert d == e;
    }
  }

  /** For instance, with one weapon at the start of the first row and one at the start of the extra row. */
  lemma NextCanMissAll(v: Weapon, w: Weapon)
    requires v.iSlot == 0 && v.iSlotPos == 0 && w.iSlot == MAX_WEAPON_SLOTS && w.iSlotPos == 0
    ensures
      var cells: Cells := [Some(v)] + seq(MENU - 1, i => None) + [Some(w)] + seq(ALL - MENU - 1, i => None);
      && WellPlaced(cells) && cells[CellOf(v)] == Some(v) && cells[CellOf(w)] == Some(w)
      && NextSelection(cells, Some(w)) == None
  {
  }

  // The grid and the keys.

  class WeaponsResource {
    const rgSlots: array2<Option<Weapon>>

    ghost predicate Valid()
      reads rgSlots
    {
      && rgSlots.Length0 == MAX_WEAPON_SLOTS + 1 && rgSlots.Length1 == MAX_WEAPON_POSITIONS + 1
      && forall s: nat, p: nat :: s <= MAX_WEAPON_SLOTS && p <= MAX_WEAPON_POSITIONS && rgSlots[s, p].Some? ==>
           InGrid(rgSlots[s, p].value)
    }

    /** Each weapon, in the extra row and column too, sits at its own slot and position. */
    ghost predicate AtHome()
      requires Valid()
      reads rgSlots
    {
      forall s: nat, p: nat :: s <= MAX_WEAPON_SLOTS && p <= MAX_WEAPON_POSITIONS && rgSlots[s, p].Some? ==>
        rgSlots[s, p].value.iSlot == s && rgSlots[s, p].value.iSlotPos == p
    }

    /** The positions that are searched, row after row. */
    ghost function Cells(): (cells: Cells)
      requires Valid()
      reads rgSlots
      ensures |cells| == ALL
    {
      seq(ALL, c requires 0 <= c < ALL reads rgSlots => rgSlots[c / MAX_WEAPON_POSITIONS, c % MAX_WEAPON_POSITIONS])
    }

    lemma CellIs(slot: nat, pos: nat)
      requires Valid() && slot <= MAX_WEAPON_SLOTS && pos < MAX_WEAPON_POSITIONS
      ensures Index(slot, pos) < ALL && Cells()[Index(slot, pos)] == rgSlots[slot, pos]
    {
    }

    lemma AtHomeWellPlaced()
      requires Valid() && AtHome()
      ensures WellPlaced(Cells())
    {
    }

    constructor ()
      ensures Valid() && fresh(rgSlots) && AtHome()
      ensures forall s: nat, p: nat :: s <= MAX_WEAPON_SLOTS && p <= MAX_WEAPON_POSITIONS ==> rgSlots[s, p] == None
    {
      rgSlots := new Option<Weapon>[MAX_WEAPON_SLOTS + 1, MAX_WEAPON_POSITIONS + 1]((s, p) => None);
    }

    method PickupWeapon(w: Weapon)
      requires Valid() && InGrid(w)
      modifies rgSlots
      ensures Valid() && (old(AtHome()) ==> AtHome())
      ensures
        forall s: nat, p: nat :: s <= MAX_WEAPON_SLOTS && p <= MAX_WEAPON_POSITIONS ==>
          rgSlots[s, p] == if s == w.iSlot && p == w.iSlotPos then Some(w) else old(rgSlots[s, p])
    {
      rgSlots[w.iSlot, w.iSlotPos] := Some(w);
    }

    method DropWeapon(w: Weapon)
      requires Valid() && InGrid(w)
      modifies rgSlots
      ensures Valid() && (old(AtHome()) ==> AtHome())
      ensures
        forall s: nat, p: nat :: s <= MAX_WEAPON_SLOTS && p <= MAX_WEAPON_POSITIONS ==>
          rgSlots[s, p] == if s == w.iSlot && p == w.iSlotPos then None else old(rgSlots[s, p])
    {
      rgSlots[w.iSlot, w.iSlotPos] := None;
    }

    method GetWeaponSlot(slot: nat, pos: nat) returns (w: Option<Weapon>)
      requires Valid() && slot <= MAX_WEAPON_SLOTS && pos <= MAX_WEAPON_POSITIONS
      ensures w == rgSlots[slot, pos]
    {
      w := rgSlots[slot, pos];
    }

    /** The first weapon of a row, the extra column aside. */
    method GetFirstPos(iSlot: nat) returns (pret: Option<Weapon>)
      requires Valid() && iSlot <= MAX_WEAPON_SLOTS
      ensures pret.None? ==> forall p: nat :: p < MAX_WEAPON_POSITIONS ==> rgSlots[iSlot, p].None?
      ensures pret.Some? ==> exists p: nat :: p < MAX_WEAPON_POSITIONS && rgSlots[iSlot, p] == pret
                                              && forall q: nat :: q < p ==> rgSlots[iSlot, q].None?
    {
      pret := None;
      for i := 0 to MAX_WEAPON_POSITIONS
        invariant pret.None? && forall p: nat :: p < i ==> rgSlots[iSlot, p].None?
      {
        if rgSlots[iSlot, i].Some? {
          pret := rgSlots[iSlot, i];
          return;
        }
      }
    }

    /** The next weapon of the row that has ammunition; here the extra column counts, the extra row does not. */
    function GetNextActivePos(iSlot: nat, iSlotPos: nat, hasAmmo: set<Weapon>): (r: Option<Weapon>)
      requires Valid()
      reads rgSlots
      ensures
        r.None? <==>
        iSlot >= MAX_WEAPON_SLOTS
        || forall p: nat :: iSlotPos < p <= MAX_WEAPON_POSITIONS ==> !IsActive(iSlot, p, hasAmmo)
      ensures
        r.Some? ==>
          exists p: nat :: iSlotPos < p <= MAX_WEAPON_POSITIONS && IsActive(iSlot, p, hasAmmo) && r == rgSlots[iSlot, p]
                           && forall q: nat :: iSlotPos < q < p ==> !IsActive(iSlot, q, hasAmmo)
      decreases MAX_WEAPON_POSITIONS - iSlotPos
    {
      if iSlotPos >= MAX_WEAPON_POSITIONS || iSlot >= MAX_WEAPON_SLOTS then None
      else
        var p := rgSlots[iSlot, iSlotPos + 1];
        if p.None? || p.value !in hasAmmo then GetNextActivePos(iSlot, iSlotPos + 1, hasAmmo)
        else
          assert IsActive(iSlot, iSlotPos + 1, hasAmmo);
          p
    }

    ghost predicate IsActive(iSlot: nat, p: nat, hasAmmo: set<Weapon>)
      requires Valid() && iSlot < MAX_WEAPON_SLOTS && p <= MAX_WEAPON_POSITIONS
      reads rgSlots
    {
      rgSlots[iSlot, p].Some? && rgSlots[iSlot, p].value in hasAmmo
    }
  }

  /** What is selected in the menu: nothing, the list as such, or a weapon of it. */
  datatype Selection = Nothing | ListOnly | Chosen(weapon: Weapon)

  function AsSelection(w: Option<Weapon>): Selection {
    if w.Some? then Chosen(w.value) else Nothing
  }

  class CHudAmmo {
    const gWR: WeaponsResource
    var gpActiveSel: Selection
    var m_pWeapon: Option<Weapon>

    ghost predicate Valid()
      reads this, gWR.rgSlots
    {
      && gWR.Valid()
      && (gpActiveSel.Chosen? ==> InGrid(gpActiveSel.weapon))
      && (m_pWeapon.Some? ==> InGrid(m_pWeapon.value))
    }

    constructor (gWR: WeaponsResource)
      requires gWR.Valid()
      ensures Valid() && this.gWR == gWR && gpActiveSel == Nothing && m_pWeapon == None
    {
      this.gWR := gWR;
      gpActiveSel := Nothing;
      m_pWeapon := None;
    }

    /** With nothing chosen, the next key goes on from the weapon in the hands: to the next in rank. */
    method NextFromHands(w: Weapon)
      requires Valid() && gWR.AtHome() && InMenu(w)
      requires !gpActiveSel.Chosen? && m_pWeapon == Some(w) && gWR.rgSlots[w.iSlot, w.iSlotPos] == Some(w)
      modifies this`gpActiveSel
      ensures Valid() && gpActiveSel.Chosen? && InMenu(gpActiveSel.weapon)
      ensures
        var cells := gWR.Cells();
        var r, n := Rank(cells, CellOf(w)), Rank(cells, MENU);
        Rank(cells, CellOf(gpActiveSel.weapon)) == if r + 1 == n then 0 else r + 1
    {
      hide Rank, NextSelection, PrevSelection, WellPlaced;
      gWR.AtHomeWellPlaced();
      gWR.CellIs(w.iSlot, w.iSlotPos);
      SelectionRank(gWR.Cells(), w);
      UserCmd_NextWeapon(false, false);
    }

    /** The next key, pressed `n` times from a weapon of the menu, whatever is in the hands. */
    method PressNext(w: Weapon, n: nat)
      requires Valid() && gWR.AtHome() && InMenu(w)
      requires gpActiveSel == Chosen(w) && gWR.rgSlots[w.iSlot, w.iSlotPos] == Some(w)
      modifies this`gpActiveSel
      ensures Valid() && gpActiveSel == AsSelection(Selected(gWR.Cells(), Some(w), n))
      ensures n == Rank(gWR.Cells(), MENU) ==> gpActiveSel == old(gpActiveSel)
    {
      hide Rank, NextSelection, WellPlaced;
      ghost var cells := gWR.Cells();
      gWR.AtHomeWellPlaced();
      gWR.CellIs(w.iSlot, w.iSlotPos);
      for i := 0 to n
        invariant Valid() && gpActiveSel == AsSelection(Selected(cells, Some(w), i))
      {
        SelectedInMenu(cells, w, i);
        UserCmd_NextWeapon(false, false);
      }
      KeysCycleThroughMenu(cells, w);
    }

    /** The keys go on from the selected weapon, or else from the one in the hands. */
    method UserCmd_NextWeapon(m_fPlayerDead: bool, hidden: bool)
      requires Valid()
      modifies this`gpActiveSel
      ensures Valid()
      ensures m_fPlayerDead || hidden ==> gpActiveSel == old(gpActiveSel)
      ensures !m_fPlayerDead && !hidden ==>
                var from := if old(gpActiveSel).Chosen? then Some(old(gpActiveSel).weapon) else m_pWeapon;
                var v := NextSelection(gWR.Cells(), from);
                gpActiveSel == if v.Some? then Chosen(v.value) else Nothing
    {
      hide Ahead, Behind, Index;
      if m_fPlayerDead || hidden {
        return;
      }
      ghost var cells := gWR.Cells();
      if !gpActiveSel.Chosen? {
        gpActiveSel := if m_pWeapon.Some? then Chosen(m_pWeapon.value) else Nothing;
      }
      var pos: nat, slot: nat := 0, 0;
      if gpActiveSel.Chosen? {
        pos := gpActiveSel.weapon.iSlotPos + 1;
        slot := gpActiveSel.weapon.iSlot;
      }
      ghost var slot0, pos0 := slot, pos;
      for loop := 0 to 2
        invariant loop == 0 ==> slot == slot0 && pos == pos0
        invariant loop >= 1 ==> Ahead(cells, slot0, pos0) == None
        invariant loop == 1 ==> slot == 0 && pos == if slot0 < MAX_WEAPON_SLOTS then 0 else pos0
        invariant loop == 2 ==> Ahead(cells, 0, if slot0 < MAX_WEAPON_SLOTS then 0 else pos0) == None
      {
        ghost var start := Ahead(cells, slot, pos);
        while slot < MAX_WEAPON_SLOTS
          invariant Ahead(cells, slot, pos) == start
          invariant loop == 0 && slot0 < MAX_WEAPON_SLOTS && slot != slot0 ==> pos == 0
          invariant loop == 0 ==> slot >= slot0
          invariant loop == 0 && slot0 >= MAX_WEAPON_SLOTS ==> pos == pos0
          decreases MAX_WEAPON_SLOTS - slot
        {
          while pos < MAX_WEAPON_POSITIONS
            invariant Ahead(cells, slot, pos) == start
            decreases MAX_WEAPON_POSITIONS - pos
          {
            var wsp := gWR.GetWeaponSlot(slot, pos);
            gWR.CellIs(slot, pos);
            AheadStep(cells, slot, pos);
            if wsp.Some? {
              gpActiveSel := Chosen(wsp.value);
              return;
            }
            pos := pos + 1;
          }
          AheadStep(cells, slot, pos);
          pos := 0;
          slot := slot + 1;
        }
        AheadOfAll(cells, slot, pos);
        slot := 0;
      }
      gpActiveSel := Nothing;
    }

    method UserCmd_PrevWeapon(m_fPlayerDead: bool, hidden: bool)
      requires Valid()
      modifies this`gpActiveSel
      ensures Valid()
      ensures m_fPlayerDead || hidden ==> gpActiveSel == old(gpActiveSel)
      ensures !m_fPlayerDead && !hidden ==>
                var from := if old(gpActiveSel).Chosen? then Some(old(gpActiveSel).weapon) else m_pWeapon;
                var v := PrevSelection(gWR.Cells(), from);
                gpActiveSel == if v.Some? then Chosen(v.value) else Nothing
    {
      hide Ahead, Behind, Index;
      if m_fPlayerDead || hidden {
        return;
      }
      ghost var cells := gWR.Cells();
      if !gpActiveSel.Chosen? {
        gpActiveSel := if m_pWeapon.Some? then Chosen(m_pWeapon.value) else Nothing;
      }
      var pos, slot := MAX_WEAPON_POSITIONS - 1, MAX_WEAPON_SLOTS - 1;
      if gpActiveSel.Chosen? {
        pos := gpActiveSel.weapon.iSlotPos - 1;
        slot := gpActiveSel.weapon.iSlot;
      }
      ghost var slot0, pos0 := slot, pos;
      for loop := 0 to 2
        invariant loop == 0 ==> slot == slot0 && pos == pos0
        invariant loop >= 1 ==> slot == MAX_WEAPON_SLOTS - 1 && pos == MAX_WEAPON_POSITIONS - 1
        invariant loop >= 1 ==> Behind(cells, slot0, pos0) == None
        invariant loop == 2 ==> Behind(cells, MAX_WEAPON_SLOTS - 1, MAX_WEAPON_POSITIONS - 1) == None
      {
        ghost var start := Behind(cells, slot, pos);
        while slot >= 0
          invariant -1 <= slot <= MAX_WEAPON_SLOTS && -1 <= pos < MAX_WEAPON_POSITIONS
          invariant slot < 0 ==> pos == MAX_WEAPON_POSITIONS - 1
          invariant Behind(cells, slot, pos) == start
        {
          while pos >= 0
            invariant -1 <= pos < MAX_WEAPON_POSITIONS
            invariant Behind(cells, slot, pos) == start
          {
            var wsp := gWR.GetWeaponSlot(slot, pos);
            gWR.CellIs(slot, pos);
            BehindStep(cells, slot, pos);
            if wsp.Some? {
              gpActiveSel := Chosen(wsp.value);
              return;
            }
            pos := pos - 1;
          }
          BehindStep(cells, slot, pos);
          pos := MAX_WEAPON_POSITIONS - 1;
          slot := slot - 1;
        }
        BehindAll(cells);
        slot := MAX_WEAPON_SLOTS - 1;
      }
      gpActiveSel := Nothing;
    }
  }
}
