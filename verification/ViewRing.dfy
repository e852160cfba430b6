/** Smoothing the view on trains and lifts: a ring of the last 64 positions stands for the whole history. */
module ViewRing {

  import opened Options
  import opened Vectors

  const ORIGIN_BACKUP: int := 64
  const ORIGIN_MASK: int := 63

  /** Where the player was, and when. */
  datatype Entry = Entry(origin: Vec, time: real)

  /** The history grows only when the position differs from the last one recorded. */
  function Recorded(log: seq<Entry>, simorg: Vec, time: real): seq<Entry> {
    if simorg == LastOrigin(log) then log else log + [Entry(simorg, time)]
  }

  function LastOrigin(log: seq<Entry>): Vec {
    if log == [] then ZERO else log[|log| - 1].origin
  }

  /** A first position is recorded unless it is the origin of the map. */
  lemma FirstRecorded(simorg: Vec, time: real)
    ensures Recorded([], simorg, time) == [] <==> simorg.x == 0.0 && simorg.y == 0.0 && simorg.z == 0.0
  {
  }

  /** The search on the history: the entry before the last first, and back from there. */
  function Scan(log: seq<Entry>, t: real, i: nat): Option<nat>
    decreases ORIGIN_MASK - i
  {
    if i >= ORIGIN_MASK || |log| - 1 - i < 0 then None
    else if log[|log| - 1 - i].time <= t then Some(|log| - 1 - i)
    else Scan(log, t, i + 1)
  }

  function Min(a: real, b: real): real {
    if a <= b then a else b
  }

  /** The part of the way from the first entry to the second that is done at time `t`. */
  function Fraction(a: Entry, b: Entry, t: real): real
    requires a.time < b.time
  {
    Min(1.0, (t - a.time) / (b.time - a.time))
  }

  /** The smoothed position, if there is one. */
  function Smoothed(log: seq<Entry>, t: real): Option<Vec> {
    match Scan(log, t, 1)
    case None => None
    case Some(k) => if k + 1 < |log| then Between(log[k], log[k + 1], t) else None
  }

  function Between(a: Entry, b: Entry, t: real): Option<Vec> {
    var delta := Minus(b.origin, a.origin);
    if a.time == 0.0 || b.time <= a.time || Dot(delta, delta) >= 4096.0 then None
    else Some(Plus(a.origin, Times(Fraction(a, b, t), delta)))
  }

  // What the search and the position it gives mean.

  /** The entry found is the newest one scanned that is no later than the target time. */
  ghost predicate IsNewest(log: seq<Entry>, t: real, i: nat, k: nat) {
    && k <= |log| - 1 - i && |log| - ORIGIN_MASK <= k
    && log[k].time <= t
    && forall j :: k < j <= |log| - 1 - i ==> log[j].time > t
  }

  lemma {:induction false} ScanFindsNewest(log: seq<Entry>, t: real, i: nat, k: nat)
    requires i >= 1
    ensures Scan(log, t, i) == Some(k) <==> IsNewest(log, t, i, k)
    decreases ORIGIN_MASK - i
  {
    if i < ORIGIN_MASK && |log| - 1 - i >= 0 && log[|log| - 1 - i].time > t {
      ScanFindsNewest(log, t, i + 1, k);
    }
  }

  /** Nothing found means that all entries scanned are later. */
  lemma {:induction false} ScanFindsNothing(log: seq<Entry>, t: real, i: nat)
    requires i >= 1
    ensures Scan(log, t, i).None? <==>
            forall j :: 0 <= j <= |log| - 1 - i && |log| - ORIGIN_MASK <= j ==> log[j].time > t
    decreases ORIGIN_MASK - i
  {
    if i < ORIGIN_MASK && |log| - 1 - i >= 0 && log[|log| - 1 - i].time > t {
      ScanFindsNothing(log, t, i + 1);
    }
  }

  /** On the segment between two consecutive entries, less than 64 units long. */
  ghost predicate OnSegment(a: Vec, b: Vec, f: real, p: Vec) {
    && 0.0 <= f <= 1.0
    && p.x == a.x + f * (b.x - a.x) && p.y == a.y + f * (b.y - a.y) && p.z == a.z + f * (b.z - a.z)
    && DistanceSquared(b, a) < 4096.0
  }

  /** The fraction is in [0, 1]: the way done at `t`, and all of it once the second entry is past. */
  lemma FractionInRange(a: Entry, b: Entry, t: real)
    requires a.time <= t && a.time < b.time
    ensures 0.0 <= Fraction(a, b, t) <= 1.0
    ensures t <= b.time ==> Fraction(a, b, t) * (b.time - a.time) == t - a.time
    ensures t >= b.time ==> Fraction(a, b, t) == 1.0
  {
  }

  /** A smoothed position lies between the newest scanned entry no later than `t` and the entry after it. */
  lemma SmoothedOnSegment(log: seq<Entry>, t: real, k: nat)
    requires Smoothed(log, t).Some? && Scan(log, t, 1) == Some(k)
    ensures k + 1 < |log| && IsNewest(log, t, 1, k) && log[k].time < log[k + 1].time
    ensures OnSegment(log[k].origin, log[k + 1].origin, Fraction(log[k], log[k + 1], t), Smoothed(log, t).value)
  {
    hide Fraction, Dot;
    ScanFindsNewest(log, t, 1, k);
    FractionInRange(log[k], log[k + 1], t);
  }

  /** The target time lies between the two entries, or both are the last: it is never extrapolated. */
  lemma NeverExtrapolates(log: seq<Entry>, t: real, k: nat)
    requires Smoothed(log, t).Some? && Scan(log, t, 1) == Some(k)
    ensures k + 1 < |log| && log[k].time <= t && (t < log[k + 1].time || k + 2 == |log|)
    ensures t >= log[k + 1].time ==> Smoothed(log, t).value == log[k + 1].origin
  {
    ScanFindsNewest(log, t, 1, k);
    if t >= log[k + 1].time {
      FractionInRange(log[k], log[k + 1], t);
    }
  }

  // Whole runs: a frame is a position and a time.

  function History(frames: seq<Entry>): seq<Entry> {
    if frames == [] then []
    else
      var n := |frames| - 1;
      Recorded(History(frames[..n]), frames[n].origin, frames[n].time)
  }

  /** A frame is added to the history as it is, if its position is not that of the frame before, at first the origin. */
  lemma {:induction false} HistoryExactly(frames: seq<Entry>)
    requires frames != []
    ensures
      var n := |frames| - 1;
      var before := if n == 0 then Vec(0.0, 0.0, 0.0) else frames[n - 1].origin;
      History(frames) == History(frames[..n]) + if frames[n].origin == before then [] else [frames[n]]
    ensures LastOrigin(History(frames)) == frames[|frames| - 1].origin
  {
    var n := |frames| - 1;
    if n > 0 {
      HistoryExactly(frames[..n]);
    }
  }

  ghost predicate Forward(es: seq<Entry>) {
    && (forall i :: 0 <= i < |es| ==> es[i].time > 0.0)
    && (forall i, j :: 0 <= i < j < |es| ==> es[i].time < es[j].time)
  }

  /** The history keeps the order of the frames' times, and each entry moves away from the one before. */
  lemma {:induction false} HistoryForward(frames: seq<Entry>)
    requires Forward(frames)
    ensures Forward(History(frames))
    ensures frames != [] && History(frames) != [] ==>
              History(frames)[|History(frames)| - 1].time <= frames[|frames| - 1].time
    ensures forall i :: 1 <= i < |History(frames)| ==> History(frames)[i].origin != History(frames)[i - 1].origin
    ensures frames != [] ==> LastOrigin(History(frames)) == frames[|frames| - 1].origin
  {
    if frames != [] {
      var n := |frames| - 1;
      HistoryForward(frames[..n]);
    }
  }

  /** The second entry is later and near, and the first one's time is not taken for an unfilled slot's. */
  ghost predicate Joins(a: Entry, b: Entry) {
    a.time != 0.0 && a.time < b.time && DistanceSquared(b.origin, a.origin) < 4096.0
  }

  /** Whatever the times, the view is smoothed exactly when an entry is old enough and joins the next one. */
  lemma SmoothedExactly(log: seq<Entry>, t: real)
    ensures Smoothed(log, t).Some? <==> exists k: nat :: IsNewest(log, t, 1, k) && Joins(log[k], log[k + 1])
  {
    hide Dot, Minus;
    match Scan(log, t, 1)
    case Some(k) =>
      ScanFindsNewest(log, t, 1, k);
      forall j: nat | IsNewest(log, t, 1, j)
        ensures j == k
      {
        ScanFindsNewest(log, t, 1, j);
      }
    case None =>
      forall j: nat
        ensures !IsNewest(log, t, 1, j)
      {
        ScanFindsNewest(log, t, 1, j);
      }
  }

  /** While time runs on, only the distance decides. */
  lemma ForwardEntriesJoin(frames: seq<Entry>, k: nat)
    requires Forward(frames) && k + 1 < |History(frames)|
    ensures
      var log := History(frames);
      Joins(log[k], log[k + 1]) <==> DistanceSquared(log[k + 1].origin, log[k].origin) < 4096.0
  {
    HistoryForward(frames);
  }

  // The ring.

  function Slot(k: int): (s: nat)
    ensures s < ORIGIN_BACKUP
    ensures 0 <= k < ORIGIN_BACKUP ==> s == k
    ensures -ORIGIN_BACKUP <= k < 0 ==> s == k + ORIGIN_BACKUP
  {
    k % ORIGIN_BACKUP
  }

  lemma SlotsDiffer(k: int, n: int)
    requires k < n < k + ORIGIN_BACKUP
    ensures Slot(k) != Slot(n)
  {
  }

  /** What the smoothing reads and moves: the player, the eye and the weapon in view. */
  datatype View = View(simorg: Vec, vieworg: Vec, weapon: Vec)

  function Moved(v: View, p: Vec): View {
    var delta := Minus(p, v.simorg);
    View(p, Plus(v.vieworg, delta), Plus(v.weapon, delta))
  }

  /** The player comes to `p`; the eye and the weapon keep their places relative to the player. */
  lemma MovedTogether(v: View, p: Vec)
    ensures
      var w := Moved(v, p);
      && w.simorg == p
      && w.vieworg.x - p.x == v.vieworg.x - v.simorg.x && w.weapon.x - p.x == v.weapon.x - v.simorg.x
      && w.vieworg.y - p.y == v.vieworg.y - v.simorg.y && w.weapon.y - p.y == v.weapon.y - v.simorg.y
      && w.vieworg.z - p.z == v.vieworg.z - v.simorg.z && w.weapon.z - p.z == v.weapon.z - v.simorg.z
  {
  }

  lemma ThereAndBack(a: Vec, b: Vec)
    ensures Plus(a, Minus(b, a)) == b
  {
  }

  class ViewInterp {
    const Origins: array<Vec>
    const OriginTime: array<real>
    var CurrentOrigin: int
    var lastorg: Vec
    ghost var log: seq<Entry>

    /** The ring holds the last 64 entries of the history; slots never filled hold time zero. */
    ghost predicate Valid()
      reads this, Origins, OriginTime
    {
      && Origins.Length == ORIGIN_BACKUP && OriginTime.Length == ORIGIN_BACKUP
      && CurrentOrigin == |log|
      && lastorg == LastOrigin(log)
      && (forall k :: 0 <= k < |log| && |log| - ORIGIN_BACKUP <= k ==>
            Origins[Slot(k)] == log[k].origin && OriginTime[Slot(k)] == log[k].time)
      && (forall s :: |log| <= s < ORIGIN_BACKUP ==> OriginTime[s] == 0.0)
    }

    constructor ()
      ensures Valid() && log == []
      ensures fresh(Origins) && fresh(OriginTime)
    {
      Origins := new Vec[ORIGIN_BACKUP](i => ZERO);
      OriginTime := new real[ORIGIN_BACKUP](i => 0.0);
      CurrentOrigin := 0;
      lastorg := ZERO;
      log := [];
    }

    method Record(simorg: Vec, time: real)
      requires Valid()
      modifies this, Origins, OriginTime
      ensures Valid() && log == Recorded(old(log), simorg, time)
    {
      hide Slot;
      var delta := Minus(simorg, lastorg);
      if delta.x != 0.0 || delta.y != 0.0 || delta.z != 0.0 {
        forall k | |log| - ORIGIN_BACKUP < k < |log|
          ensures Slot(k) != Slot(|log|)
        {
          SlotsDiffer(k, |log|);
        }
        Origins[Slot(CurrentOrigin)] := simorg;
        OriginTime[Slot(CurrentOrigin)] := time;
        CurrentOrigin := CurrentOrigin + 1;
        lastorg := simorg;
        log := log + [Entry(simorg, time)];
      }
    }

    /** The slot of the newest scanned time no later than `t`, or none (`i` past the last one looked at). */
    method Lookup(t: real) returns (i: int, foundidx: int)
      requires Valid()
      ensures i < ORIGIN_MASK && 0 <= foundidx ==> foundidx <= |log| - 2 && Scan(log, t, 1) == Some(foundidx)
      ensures
        i < ORIGIN_MASK && 0 <= foundidx ==>
          && log[foundidx] == Entry(Origins[Slot(foundidx)], OriginTime[Slot(foundidx)])
          && log[foundidx + 1] == Entry(Origins[Slot(foundidx + 1)], OriginTime[Slot(foundidx + 1)])
      ensures i >= ORIGIN_MASK ==> Scan(log, t, 1) == None
      ensures i < ORIGIN_MASK && foundidx < 0 ==> Scan(log, t, 1) == None && OriginTime[Slot(foundidx)] == 0.0
    {
      foundidx := CurrentOrigin - 2;
      i := 1;
      while i < ORIGIN_MASK
        invariant 1 <= i <= ORIGIN_MASK
        invariant Scan(log, t, 1) == Scan(log, t, i)
      {
        foundidx := CurrentOrigin - 1 - i;
        if OriginTime[Slot(foundidx)] <= t {
          break;
        }
        i := i + 1;
      }
    }

    /** The ring's answer is the answer of the whole history. */
    method Smooth(v: View, time: real, value: real, smoothing: bool, maxclients: int) returns (w: View, newValue: real)
      requires Valid()
      ensures
        var active := value != 0.0 && smoothing && maxclients > 1;
        var t := time - newValue;
        && newValue == (if active && value < 0.0 then 0.0 else value)
        && w == if active && Smoothed(log, t).Some? then Moved(v, Smoothed(log, t).value) else v
    {
      hide Slot, Dot, Plus, Minus, Times, Min, Scan;
      w := v;
      newValue := value;
      if value != 0.0 && smoothing && maxclients > 1 {
        if value < 0.0 {
          newValue := 0.0;
        }
        var t := time - newValue;
        var i, foundidx := Lookup(t);
        if i < ORIGIN_MASK && OriginTime[Slot(foundidx)] != 0.0 {
          var dt := OriginTime[Slot(foundidx + 1)] - OriginTime[Slot(foundidx)];
          if dt > 0.0 {
            var frac := (t - OriginTime[Slot(foundidx)]) / dt;
            frac := Min(1.0, frac);
            var delta := Minus(Origins[Slot(foundidx + 1)], Origins[Slot(foundidx)]);
            var neworg := Plus(Origins[Slot(foundidx)], Times(frac, delta));
            if Dot(delta, delta) < 4096.0 {
              ThereAndBack(v.simorg, neworg);
              delta := Minus(neworg, v.simorg);
              w := View(Plus(v.simorg, delta), Plus(v.vieworg, delta), Plus(v.weapon, delta));
            }
          }
        }
      }
    }
  }

  /** Any run of frames fills a new ring with their history. */
  method RecordAll(frames: seq<Entry>) returns (ring: ViewInterp)
    ensures fresh(ring) && ring.Valid() && ring.log == History(frames)
  {
    hide Slot, Recorded;
    ring := new ViewInterp();
    for i := 0 to |frames|
      invariant fresh(ring) && fresh(ring.Origins) && fresh(ring.OriginTime)
      invariant ring.Valid() && ring.log == History(frames[..i])
    {
      assert frames[..i + 1][..i] == frames[..i];
      ring.Record(frames[i].origin, frames[i].time);
    }
    assert frames[..|frames|] == frames;
  }
}
