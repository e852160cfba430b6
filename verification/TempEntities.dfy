/** One update pass over the linked lists of active and free temporary entities. */
module TempEntities {

  import opened Reals

  const FTENT_FADEOUT: bv32 := 0x80
  const RENDER_NORMAL: int := 0
  const RENDER_TRANS_TEXTURE: int := 2

  /** What an entity is, apart from its link: the fields the survival test looks at. */
  datatype Body = Body(flags: bv32, die: real, fadeSpeed: real, rendermode: int, renderamt: int, baseRenderamt: int)

  /** What is left of the amount `base` at `life`, negative past the entity's time. */
  function Fading(base: int, life: real, fadeSpeed: real): real {
    base as real * (1.0 + life * fadeSpeed)
  }

  function FadeAmount(base: int, life: real, fadeSpeed: real): int {
    Trunc(Fading(base, life, fadeSpeed))
  }

  predicate Fades(b: Body, time: real) {
    b.die - time < 0.0 && b.flags & FTENT_FADEOUT != 0
  }

  /** What the test itself changes: an entity past its time becomes more transparent. */
  function Faded(b: Body, time: real): Body {
    if Fades(b, time) then
      b.(rendermode := if b.rendermode == RENDER_NORMAL then RENDER_TRANS_TEXTURE else b.rendermode,
         renderamt := FadeAmount(b.baseRenderamt, b.die - time, b.fadeSpeed))
    else
      b
  }

  predicate Survives(b: Body, time: real) {
    b.die - time >= 0.0 || (Fades(b, time) && Faded(b, time).renderamt > 0)
  }

  /**
   An entity lives until its time. One that fades lives on exactly as long as at least one whole unit of
   its amount is left; the others do not.
   */
  lemma SurvivesExactly(b: Body, time: real)
    ensures
      Survives(b, time) <==>
      || time <= b.die
      || (b.flags & 0x80 != 0 && b.baseRenderamt as real * (1.0 + (b.die - time) * b.fadeSpeed) >= 1.0)
  {
    hide Fading;
    var x := Fading(b.baseRenderamt, b.die - time, b.fadeSpeed);
    assert x == b.baseRenderamt as real * (1.0 + (b.die - time) * b.fadeSpeed) by { FadingIs(b, time); }
    assert x >= 1.0 <==> Trunc(x) > 0;
  }

  lemma FadingIs(b: Body, time: real)
    ensures
      Fading(b.baseRenderamt, b.die - time, b.fadeSpeed)
      == b.baseRenderamt as real * (1.0 + (b.die - time) * b.fadeSpeed)
  {
  }

  /** The test changes an entity only past its time, if it fades: its mode, and the whole part of its amount. */
  lemma FadedExactly(b: Body, time: real)
    ensures time <= b.die || b.flags & 0x80 == 0 ==> Faded(b, time) == b
    ensures time > b.die && b.flags & 0x80 != 0 ==>
              Faded(b, time) == b.(
                rendermode := if b.rendermode == 0 then 2 else b.rendermode,
                renderamt := Trunc(b.baseRenderamt as real * (1.0 + (b.die - time) * b.fadeSpeed)))
  {
    hide Trunc, Fading;
    FadingIs(b, time);
  }

  /** Time alone never brings an entity back, nor one that was faded in the meantime. */
  lemma DeadStaysDead(b: Body, time: real, later: real)
    requires time <= later && b.baseRenderamt >= 0 && b.fadeSpeed >= 0.0
    requires !Survives(b, time)
    ensures !Survives(b, later) && !Survives(Faded(b, time), later)
  {
    hide Fading, Trunc;
    if Fades(b, time) {
      FadingIs(b, time);
      FadingIs(b, later);
      SurvivesExactly(b, time);
      SurvivesExactly(b, later);
      SurvivesExactly(Faded(b, time), later);
      FadingShrinks(b.baseRenderamt, b.die - time, b.die - later, b.fadeSpeed);
    }
  }

  lemma FadingShrinks(base: int, life: real, shorter: real, fadeSpeed: real)
    requires base >= 0 && shorter <= life && fadeSpeed >= 0.0
    ensures Fading(base, shorter, fadeSpeed) <= Fading(base, life, fadeSpeed)
  {
    var d := (life - shorter) * fadeSpeed;
    assert d >= 0.0;
    assert base as real * d >= 0.0;
    assert Fading(base, life, fadeSpeed) == Fading(base, shorter, fadeSpeed) + base as real * d;
  }

  class TempEnt {
    var next: TempEnt?
    var body: Body

    constructor (b: Body)
      ensures next == null && body == b
    {
      next, body := null, b;
    }
  }

  ghost function Filter(s: seq<TempEnt>, alive: set<TempEnt>): seq<TempEnt> {
    if s == [] then []
    else Filter(s[..|s| - 1], alive) + if s[|s| - 1] in alive then [s[|s| - 1]] else []
  }

  /** Those not in `alive`, the last one first. */
  ghost function Dropped(s: seq<TempEnt>, alive: set<TempEnt>): seq<TempEnt> {
    if s == [] then []
    else (if s[|s| - 1] in alive then [] else [s[|s| - 1]]) + Dropped(s[..|s| - 1], alive)
  }

  ghost predicate NoDup(s: seq<TempEnt>) {
    forall i, j :: 0 <= i < j < |s| ==> s[i] != s[j]
  }

  ghost function Nth(s: seq<TempEnt>, i: nat, after: TempEnt?): TempEnt? {
    if i < |s| then s[i] else after
  }

  /** The links from `head` run through `s` and arrive at `after`. */
  ghost predicate LinkedTo(head: TempEnt?, s: seq<TempEnt>, after: TempEnt?)
    reads s`next
  {
    head == Nth(s, 0, after) && forall i :: 0 <= i < |s| ==> s[i].next == Nth(s, i + 1, after)
  }

  /** A chain of links can be cut anywhere. */
  lemma Cut(head: TempEnt?, a: seq<TempEnt>, b: seq<TempEnt>, after: TempEnt?)
    ensures LinkedTo(head, a + b, after) <==>
            LinkedTo(head, a, Nth(b, 0, after)) && LinkedTo(Nth(b, 0, after), b, after)
  {
    var s := a + b;
    var middle := Nth(b, 0, after);
    forall i | 0 <= i < |a|
      ensures a[i] == s[i] && Nth(a, i + 1, middle) == Nth(s, i + 1, after)
    {
      if i + 1 == |a| && b != [] {
        assert s[|a|] == b[0];
      }
    }
    forall i | 0 <= i < |b|
      ensures b[i] == s[|a| + i] && Nth(b, i + 1, after) == Nth(s, |a| + i + 1, after)
    {
      if i + 1 < |b| {
        assert s[|a| + i + 1] == b[i + 1];
      }
    }
    if LinkedTo(head, a, middle) && LinkedTo(middle, b, after) {
      forall i | 0 <= i < |s|
        ensures s[i].next == Nth(s, i + 1, after)
      {
        if i >= |a| {
          assert s[i] == b[i - |a|];
        }
      }
    }
  }

  /** Moving one element to another place makes no duplicate. */
  lemma MoveOne(a: seq<TempEnt>, t: TempEnt, b: seq<TempEnt>, f: seq<TempEnt>)
    requires NoDup(a + ([t] + b) + f)
    ensures NoDup(a + b + ([t] + f))
  {
    var s := a + ([t] + b) + f;
    var r := a + b + ([t] + f);
    forall i, j | 0 <= i < j < |r|
      ensures r[i] != r[j]
    {
      var m := (k: int) => if k < |a| then k else if k < |a| + |b| then k + 1 else if k == |a| + |b| then |a| else k;
      assert r[i] == s[m(i)] && r[j] == s[m(j)];
    }
  }

  /** The three parts of the two lists have nothing in common. */
  lemma KeptApart(kept: seq<TempEnt>, t: TempEnt, rest: seq<TempEnt>, f: seq<TempEnt>)
    requires NoDup(kept + ([t] + rest) + f)
    ensures NoDup(kept) && t !in kept && t !in rest && t !in f
    ensures forall u :: u in kept ==> u !in rest && u !in f
  {
    var s := kept + ([t] + rest) + f;
    assert t == s[|kept|];
    assert forall k :: 0 <= k < |kept| ==> kept[k] == s[k];
    assert forall k :: 0 <= k < |rest| ==> rest[k] == s[|kept| + 1 + k];
    assert forall k :: 0 <= k < |f| ==> f[k] == s[|kept| + 1 + |rest| + k];
  }

  lemma OnlyOnce(all: seq<TempEnt>, done: seq<TempEnt>, t: TempEnt, rest: seq<TempEnt>)
    requires NoDup(all) && all == done + ([t] + rest)
    ensures t in all && t !in done && t !in rest
  {
    assert t == all[|done|];
    assert forall k :: 0 <= k < |done| ==> done[k] == all[k];
    assert forall k :: 0 <= k < |rest| ==> rest[k] == all[|done| + 1 + k];
  }

  lemma Regroup(a: seq<TempEnt>, t: TempEnt, b: seq<TempEnt>)
    ensures a + ([t] + b) == a + [t] + b
  {
  }

  lemma SingleLink(t: TempEnt, after: TempEnt?)
    ensures LinkedTo(t, [t], after) <==> t.next == after
  {
  }

  class TempEntLists {
    var free: TempEnt?
    var active: TempEnt?
    ghost var freeSeq: seq<TempEnt>
    ghost var activeSeq: seq<TempEnt>

    /** Both lists are proper and no entity is in both, or twice in one. */
    ghost predicate Valid()
      reads this, activeSeq`next, freeSeq`next
    {
      LinkedTo(active, activeSeq, null) && LinkedTo(free, freeSeq, null) && NoDup(activeSeq + freeSeq)
    }

    lemma ValidStart()
      requires Valid()
      ensures NoDup(activeSeq) && active == Nth(activeSeq, 0, null)
    {
      NoDupPrefix(activeSeq, freeSeq);
    }

    ghost function Alive(time: real): set<TempEnt>
      reads this, activeSeq`body
    {
      set t | t in activeSeq && Survives(t.body, time)
    }

    /** Movement, collisions and callbacks: they change the entity but not the links. */
    method Simulate(t: TempEnt)
      modifies t`body
    {
      t.body := *;
    }

    /** The survival test, with the fading it does on the way. */
    method IsActive(t: TempEnt, time: real) returns (isActive: bool)
      modifies t`body
      ensures isActive == Survives(old(t.body), time) && t.body == Faded(old(t.body), time)
    {
      hide FadeAmount;
      isActive := true;
      var life := t.body.die - time;
      if life < 0.0 {
        if t.body.flags & FTENT_FADEOUT != 0 {
          if t.body.rendermode == RENDER_NORMAL {
            t.body := t.body.(rendermode := RENDER_TRANS_TEXTURE);
          }
          t.body := t.body.(renderamt := FadeAmount(t.body.baseRenderamt, life, t.body.fadeSpeed));
          if t.body.renderamt <= 0 {
            isActive := false;
          }
        } else {
          isActive := false;
        }
      }
    }

    method PushFree(t: TempEnt)
      requires LinkedTo(free, freeSeq, null) && t !in freeSeq
      modifies this`free, this`freeSeq, t`next
      ensures LinkedTo(free, freeSeq, null) && freeSeq == [t] + old(freeSeq)
    {
      hide LinkedTo;
      ghost var f := freeSeq;
      ListHead(free, f);
      t.next := free;
      free := t;
      freeSeq := [t] + freeSeq;
      assert LinkedTo(Nth(f, 0, null), f, null);
      SingleLink(t, Nth(f, 0, null));
      assert LinkedTo(free, [t], Nth(f, 0, null));
      Cut(free, [t], f, null);
      assert LinkedTo(free, [t] + f, null);
    }

    /** Leads the links of the first part of the active list past `t` to `pnext`. */
    method Bypass(t: TempEnt, pprev: TempEnt?, pnext: TempEnt?, ghost kept: seq<TempEnt>)
      requires LinkedTo(active, kept, t) && NoDup(kept)
      requires pprev == Last(kept)
      modifies this`active, (set u | u in kept)`next
      ensures LinkedTo(active, kept, pnext)
      ensures forall k :: 0 <= k < |kept| - 1 ==> kept[k].next == old(kept[k].next)
    {
      if pprev == null {
        active := pnext;
      } else {
        pprev.next := pnext;
      }
    }

    /** Takes `t` out of the active list, behind `pprev`, and pushes it on the free list. */
    method Kill(t: TempEnt, pprev: TempEnt?, pnext: TempEnt?, ghost kept: seq<TempEnt>, ghost rest: seq<TempEnt>)
      requires Valid() && activeSeq == kept + ([t] + rest)
      requires pprev == Last(kept)
      requires pnext == t.next
      modifies this, t`next, (set u | u in kept)`next
      ensures Valid() && activeSeq == kept + rest && freeSeq == [t] + old(freeSeq)
    {
      hide NoDup, LinkedTo;
      MoveOne(kept, t, rest, freeSeq);
      KeptApart(kept, t, rest, freeSeq);
      Cut(active, kept, [t] + rest, null);
      Cut(t, [t], rest, null);
      SingleLink(t, Nth(rest, 0, null));
      PushFree(t);
      Bypass(t, pprev, pnext, kept);
      Cut(active, kept, rest, null);
      activeSeq := kept + rest;
    }

    /** The body of the loop: `t` is next, behind those kept so far. */
    method UpdateOne(t: TempEnt, pprev0: TempEnt?, time: real, ghost kept: seq<TempEnt>, ghost rest: seq<TempEnt>)
      returns (pnext: TempEnt?, pprev: TempEnt?, ghost survives: bool)
      requires Valid() && activeSeq == kept + ([t] + rest) && pprev0 == Last(kept)
      modifies this, t, (set u | u in kept)`next
      ensures Valid() && survives == Survives(old(t.body), time) && pnext == Nth(rest, 0, null)
      ensures survives ==> activeSeq == old(activeSeq) && freeSeq == old(freeSeq) && pprev == t
      ensures !survives ==>
                && activeSeq == kept + rest && freeSeq == [t] + old(freeSeq) && pprev == pprev0
                && t.body == Faded(old(t.body), time)
    {
      hide NoDup, Survives, Faded;
      assert t == activeSeq[|kept|] && activeSeq[|kept|].next == Nth(activeSeq, |kept| + 1, null);
      var isActive := IsActive(t, time);
      survives := isActive;
      pnext := t.next;
      if !isActive {
        pprev := pprev0;
        Kill(t, pprev, pnext, kept, rest);
      } else {
        pprev := t;
        Simulate(t);
      }
    }

    method HUD_TempEntUpdate(frametime: real, time: real)
      requires Valid()
      modifies this, set u | u in activeSeq
      ensures Valid()
      ensures frametime <= 0.0 ==> activeSeq == old(activeSeq) && freeSeq == old(freeSeq)
      ensures frametime <= 0.0 ==> forall t :: t in old(activeSeq) ==> t.body == old(t.body)
      ensures frametime > 0.0 ==>
                && activeSeq == Filter(old(activeSeq), old(Alive(time)))
                && freeSeq == Dropped(old(activeSeq), old(Alive(time))) + old(freeSeq)
      ensures frametime > 0.0 ==>
                forall t :: t in old(activeSeq) ==>
                  var b := old(t.body);
                  var survives :=
                    || time <= b.die
                    || (b.flags & 0x80 != 0 && b.baseRenderamt as real * (1.0 + (b.die - time) * b.fadeSpeed) >= 1.0);
                  (t in activeSeq <==> survives) && (!survives ==> t in freeSeq)
    {
      hide NoDup, LinkedTo, Filter, Dropped, Survives, Faded;
      ghost var all, alive := activeSeq, Alive(time);
      forall t | t in all
        ensures t in Filter(all, alive) <==> t in alive
        ensures t !in alive ==> t in Dropped(all, alive)
      {
        FilterMembers(all, alive, t);
      }
      forall t | t in all { SurvivesExactly(t.body, time); }
      ListHead(active, activeSeq);
      NoneActive(Alive(time));
      if active == null {
        return;
      }
      if frametime <= 0.0 {
        return;
      }
      Simulation(time);
    }

    method Simulation(time: real)
      requires Valid()
      modifies this, set u | u in activeSeq
      ensures Valid()
      ensures activeSeq == Filter(old(activeSeq), old(Alive(time)))
      ensures freeSeq == Dropped(old(activeSeq), old(Alive(time))) + old(freeSeq)
    {
      hide Valid, NoDup, LinkedTo, Filter, Dropped, Survives, Faded;
      ghost var all, free0, alive := activeSeq, freeSeq, Alive(time);
      ghost var done: seq<TempEnt>, kept: seq<TempEnt>, rest := [], [], all;
      var pTemp := active;
      var pprev: TempEnt? := null;
      NoneActive(alive);
      ValidStart();
      while pTemp != null
        invariant all == done + rest && activeSeq == kept + rest
        invariant Valid() && pTemp == Nth(rest, 0, null) && pprev == Last(kept)
        invariant kept == Filter(done, alive) && freeSeq == Dropped(done, alive) + free0
        invariant forall t :: t in all && t in rest ==> t.body == old(t.body)
        invariant forall t :: t in kept ==> t in done
        decreases |rest|
      {
        var t: TempEnt := pTemp;
        ghost var rest' := rest[1..];
        assert rest == [t] + rest';
        Advance(done, t, alive);
        OnlyOnce(all, done, t, rest');
        Regroup(done, t, rest');
        Regroup(kept, t, rest');
        assert [t] + (Dropped(done, alive) + free0) == [t] + Dropped(done, alive) + free0;
        assert forall u :: u in kept ==> u in all;
        ghost var survives;
        pTemp, pprev, survives := UpdateOne(t, pprev, time, kept, rest');
        if survives {
          kept := kept + [t];
        }
        done, rest := done + [t], rest';
      }
      assert done == all && activeSeq == kept;
    }
  }

  /** Any run of passes, paused ones among them; `alives` are the survivors of those that are not. */
  method RunPasses(lists: TempEntLists, frametimes: seq<real>, times: seq<real>)
    returns (ghost alives: seq<set<TempEnt>>)
    requires lists.Valid() && |frametimes| == |times|
    modifies lists, set u | u in lists.activeSeq
    ensures lists.Valid() && |alives| <= |times|
    ensures (lists.activeSeq, lists.freeSeq) == AfterPasses(old(lists.activeSeq), old(lists.freeSeq), alives)
    ensures multiset(lists.activeSeq) + multiset(lists.freeSeq)
         == multiset(old(lists.activeSeq)) + multiset(old(lists.freeSeq))
  {
    hide NoDup, LinkedTo, Filter, Dropped, Survives, AfterPasses;
    alives := [];
    NoPasses(lists.activeSeq, lists.freeSeq);
    for i := 0 to |times|
      invariant lists.Valid() && |alives| <= i
      invariant forall u :: u in lists.activeSeq ==> u in old(lists.activeSeq)
      invariant (lists.activeSeq, lists.freeSeq) == AfterPasses(old(lists.activeSeq), old(lists.freeSeq), alives)
    {
      ghost var active, alive := lists.activeSeq, lists.Alive(times[i]);
      lists.HUD_TempEntUpdate(frametimes[i], times[i]);
      if frametimes[i] > 0.0 {
        forall u | u in lists.activeSeq
          ensures u in active
        {
          FilterMembers(active, alive, u);
        }
        OnePassMore(old(lists.activeSeq), old(lists.freeSeq), alives, alive);
        alives := alives + [alive];
      }
    }
    PassesConserve(old(lists.activeSeq), old(lists.freeSeq), alives);
  }

  lemma NoPasses(active: seq<TempEnt>, free: seq<TempEnt>)
    ensures AfterPasses(active, free, []) == (active, free)
  {
  }

  lemma NoDupPrefix(a: seq<TempEnt>, b: seq<TempEnt>)
    requires NoDup(a + b)
    ensures NoDup(a)
  {
    assert forall i :: 0 <= i < |a| ==> a[i] == (a + b)[i];
  }

  ghost function Last(s: seq<TempEnt>): TempEnt? {
    if s == [] then null else s[|s| - 1]
  }

  lemma ListHead(head: TempEnt?, s: seq<TempEnt>)
    requires LinkedTo(head, s, null)
    ensures head == Nth(s, 0, null)
  {
  }

  lemma NoneActive(alive: set<TempEnt>)
    ensures Filter([], alive) == [] && Dropped([], alive) == []
  {
  }

  lemma Advance(done: seq<TempEnt>, t: TempEnt, alive: set<TempEnt>)
    ensures Filter(done + [t], alive) == Filter(done, alive) + if t in alive then [t] else []
    ensures Dropped(done + [t], alive) == (if t in alive then [] else [t]) + Dropped(done, alive)
  {
  }

  // Every run of passes.

  /** The two lists after one pass in which `alive` survive. */
  ghost function AfterPass(
    active: seq<TempEnt>, free: seq<TempEnt>, alive: set<TempEnt>
  ): (seq<TempEnt>, seq<TempEnt>) {
    (Filter(active, alive), Dropped(active, alive) + free)
  }

  ghost function AfterPasses(
    active: seq<TempEnt>, free: seq<TempEnt>, alive: seq<set<TempEnt>>
  ): (seq<TempEnt>, seq<TempEnt>)
    decreases |alive|
  {
    if alive == [] then (active, free)
    else
      var (a, f) := AfterPass(active, free, alive[0]);
      AfterPasses(a, f, alive[1..])
  }

  lemma {:induction false} PassConserves(s: seq<TempEnt>, alive: set<TempEnt>)
    ensures multiset(Filter(s, alive)) + multiset(Dropped(s, alive)) == multiset(s)
  {
    hide Filter, Dropped;
    if s == [] {
      NoneActive(alive);
    } else {
      var rest, t := s[..|s| - 1], s[|s| - 1];
      assert s == rest + [t];
      PassConserves(rest, alive);
      Advance(rest, t, alive);
    }
  }

  /** Over any number of passes, whatever survives them, no entity is lost or gained. */
  lemma {:induction false} PassesConserve(active: seq<TempEnt>, free: seq<TempEnt>, alive: seq<set<TempEnt>>)
    ensures
      var (a, f) := AfterPasses(active, free, alive);
      multiset(a) + multiset(f) == multiset(active) + multiset(free)
    decreases |alive|
  {
    if alive != [] {
      var (a, f) := AfterPass(active, free, alive[0]);
      PassConserves(active, alive[0]);
      assert multiset(f) == multiset(Dropped(active, alive[0])) + multiset(free);
      PassesConserve(a, f, alive[1..]);
    }
  }

  lemma {:induction false} OnePassMore(
    active: seq<TempEnt>, free: seq<TempEnt>, alive: seq<set<TempEnt>>, last: set<TempEnt>
  )
    ensures
      var (a, f) := AfterPasses(active, free, alive);
      AfterPasses(active, free, alive + [last]) == AfterPass(a, f, last)
    decreases |alive|
  {
    hide Filter, Dropped;
    if alive == [] {
      assert [last][1..] == [];
    } else {
      var (a, f) := AfterPass(active, free, alive[0]);
      assert (alive + [last])[1..] == alive[1..] + [last];
      OnePassMore(a, f, alive[1..], last);
    }
  }

  /** The filtered list holds exactly the survivors ... */
  lemma {:induction false} FilterMembers(s: seq<TempEnt>, alive: set<TempEnt>, t: TempEnt)
    ensures t in Filter(s, alive) <==> t in s && t in alive
    ensures t in Dropped(s, alive) <==> t in s && t !in alive
  {
    if s != [] {
      FilterMembers(s[..|s| - 1], alive, t);
      assert s == s[..|s| - 1] + [s[|s| - 1]];
    }
  }

  /** ... in the order of the list, and the dropped ones are in the opposite order. */
  lemma {:induction false} FilterOrder(a: seq<TempEnt>, b: seq<TempEnt>, alive: set<TempEnt>)
    ensures Filter(a + b, alive) == Filter(a, alive) + Filter(b, alive)
    ensures Dropped(a + b, alive) == Dropped(b, alive) + Dropped(a, alive)
  {
    hide Filter, Dropped;
    if b == [] {
      assert a + b == a;
      NoneActive(alive);
    } else {
      var b', t := b[..|b| - 1], b[|b| - 1];
      assert b == b' + [t] && a + b == a + b' + [t];
      FilterOrder(a, b', alive);
      Advance(a + b', t, alive);
      Advance(b', t, alive);
    }
  }
}
