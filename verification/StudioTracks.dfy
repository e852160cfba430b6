/**
 Animation tracks of studio models. A track is a list of runs: a header cell with two byte counts,
 `valid` stored values, and the last of them held up to `total` frames. Both readers skip through
 the runs to the frame they want; here they are compared with the track written out in full.
 */
module StudioTracks {

  import opened Options

  /** One cell of a track: 16 bits, read as a signed value or as two unsigned byte counts. */
  type Cell = x: int | -0x8000 <= x < 0x8000

  function NumValid(c: Cell): nat {
    c % 0x100
  }

  function NumTotal(c: Cell): nat {
    c % 0x1_0000 / 0x100
  }

  datatype Run = Run(values: seq<Cell>, total: nat)

  /** Both counts are bytes; the source asks no more of a run. */
  predicate IsRun(r: Run) {
    |r.values| <= 0xFF && r.total <= 0xFF
  }

  ghost predicate AllRuns(rs: seq<Run>) {
    forall i :: 0 <= i < |rs| ==> IsRun(rs[i])
  }

  function Header(valid: nat, total: nat): Cell
    requires valid <= 0xFF && total <= 0xFF
  {
    var word := total * 0x100 + valid;
    if word < 0x8000 then word else word - 0x1_0000
  }

  lemma HeaderCounts(valid: nat, total: nat)
    requires valid <= 0xFF && total <= 0xFF
    ensures NumValid(Header(valid, total)) == valid && NumTotal(Header(valid, total)) == total
    ensures (Header(valid, total) - (total * 0x100 + valid)) % 0x1_0000 == 0
  {
    var word := total * 0x100 + valid;
    assert word % 0x100 == valid && word / 0x100 == total;
    assert Header(valid, total) % 0x1_0000 == word;
    assert (word - 0x1_0000) % 0x100 == (word - 0x100 * 0x100) % 0x100 == valid;
  }

  /** The header, and then the values. */
  function CellOf(r: Run, i: nat): Cell
    requires IsRun(r) && i <= |r.values|
  {
    if i == 0 then Header(|r.values|, r.total) else r.values[i - 1]
  }

  /** The runs `rs` lie in memory from `at` on. */
  ghost predicate Holds(data: seq<Cell>, at: nat, rs: seq<Run>)
    requires AllRuns(rs)
    decreases |rs|
  {
    rs == [] ||
    var n := |rs[0].values|;
    && at + 1 + n <= |data|
    && (forall i :: 0 <= i <= n ==> data[at + i] == CellOf(rs[0], i))
    && Holds(data, at + 1 + n, rs[1..])
  }

  // What is read, whatever the counts.

  /** A run that stores more values than it has frames is entered at its start. */
  function Entered(r: Run, k: nat): nat {
    if r.total < |r.values| then 0 else k
  }

  /** Reading frame `k` ends in one of the runs, with a value behind that run if one is needed. */
  ghost predicate Readable(rs: seq<Run>, k: nat)
    decreases |rs|
  {
    rs != [] &&
    var j := Entered(rs[0], k);
    if j < rs[0].total then j + 1 < |rs[0].values| || j + 1 < rs[0].total || (|rs| > 1 && rs[1].values != [])
    else Readable(rs[1..], j - rs[0].total)
  }

  /** The last of the values that have come up by frame `j` of a run; of a run without values, its header. */
  function Latest(r: Run, j: nat): Cell
    requires IsRun(r)
  {
    CellOf(r, if j < |r.values| then j + 1 else |r.values|)
  }

  /** The value read for a frame and the one to go on to. */
  ghost function PairAt(rs: seq<Run>, k: nat): (Cell, Cell)
    requires AllRuns(rs) && Readable(rs, k)
    decreases |rs|
  {
    var r, j := rs[0], Entered(rs[0], k);
    if j >= r.total then PairAt(rs[1..], j - r.total)
    else
      (Latest(r, j),
       if j + 1 < |r.values| then r.values[j + 1] else if j + 1 < r.total then Latest(r, j) else rs[1].values[0])
  }

  /** The last frame of a run whose frames are all stored. */
  ghost predicate IsSeam(rs: seq<Run>, k: nat)
    decreases |rs|
  {
    rs != [] &&
    var j := Entered(rs[0], k);
    if j < rs[0].total then j + 1 == rs[0].total == |rs[0].values|
    else IsSeam(rs[1..], j - rs[0].total)
  }

  /** Where the run that is read begins, and the frame within it. */
  ghost function Seek(at: nat, rs: seq<Run>, k: nat): (nat, nat)
    decreases |rs|
  {
    if rs == [] then (at, k)
    else
      var j := Entered(rs[0], k);
      if j < rs[0].total then (at, j) else Seek(at + |rs[0].values| + 1, rs[1..], j - rs[0].total)
  }

  // The track written out.

  /** A run that stores some value, and no more of them than it has frames. */
  predicate Proper(r: Run) {
    1 <= |r.values| <= r.total <= 0xFF
  }

  ghost predicate AllProper(rs: seq<Run>) {
    forall i :: 0 <= i < |rs| ==> Proper(rs[i])
  }

  /** The value of a run at one of its frames. */
  function ValueAt(r: Run, k: nat): Cell
    requires Proper(r)
  {
    if k < |r.values| then r.values[k] else r.values[|r.values| - 1]
  }

  function Expand(r: Run): (vs: seq<Cell>)
    requires Proper(r)
    ensures |vs| == r.total && forall k :: 0 <= k < r.total ==> vs[k] == ValueAt(r, k)
  {
    r.values + Repeated(r.values[|r.values| - 1], r.total - |r.values|)
  }

  function Repeated(v: Cell, n: nat): (vs: seq<Cell>)
    ensures |vs| == n && forall k :: 0 <= k < n ==> vs[k] == v
  {
    if n == 0 then [] else [v] + Repeated(v, n - 1)
  }

  /** The track written out: one value for each frame. */
  function ExpandAll(rs: seq<Run>): seq<Cell>
    requires AllProper(rs)
  {
    if rs == [] then [] else Expand(rs[0]) + ExpandAll(rs[1..])
  }

  /** Of proper runs, the values read are those of the track written out, at the frame and the next. */
  lemma {:induction false} PairIsExpanded(rs: seq<Run>, k: nat)
    requires AllProper(rs) && k + 1 < |ExpandAll(rs)|
    ensures AllRuns(rs) && Readable(rs, k)
    ensures PairAt(rs, k) == (ExpandAll(rs)[k], ExpandAll(rs)[k + 1])
    decreases |rs|
  {
    var first, rest := Expand(rs[0]), ExpandAll(rs[1..]);
    assert ExpandAll(rs) == first + rest;
    if k >= rs[0].total {
      PairIsExpanded(rs[1..], k - rs[0].total);
    } else if k + 1 == rs[0].total {
      assert rest[0] == Expand(rs[1])[0] == rs[1].values[0];
    }
  }

  /** But a run with more values than frames holds every reader that comes to it at its first two values. */
  lemma OverfullRunFreezes(rs: seq<Run>, k: nat)
    requires AllRuns(rs) && rs != [] && 0 < rs[0].total < |rs[0].values|
    ensures Readable(rs, k) && PairAt(rs, k) == (rs[0].values[0], rs[0].values[1]) && !IsSeam(rs, k)
  {
  }

  /** ... and one without any frames sends it to the start of the run behind. */
  lemma EmptyRunRestarts(rs: seq<Run>, k: nat)
    requires AllRuns(rs) && rs != [] && rs[0].total == 0 < |rs[0].values|
    ensures Readable(rs, k) <==> Readable(rs[1..], 0)
    ensures Readable(rs, k) ==> PairAt(rs, k) == PairAt(rs[1..], 0)
  {
  }

  // The readers.

  /** A reader at `at` with `k` frames to go has the same to read as one at the start. */
  ghost predicate OnTheWay(data: seq<Cell>, base: nat, runs: seq<Run>, frame: nat, at: nat, rs: seq<Run>, k: nat)
    requires AllRuns(runs) && Readable(runs, frame)
  {
    && AllRuns(rs) && Holds(data, at, rs) && Readable(rs, k)
    && PairAt(rs, k) == PairAt(runs, frame)
    && (IsSeam(rs, k) <==> IsSeam(runs, frame))
    && Seek(at, rs, k) == Seek(base, runs, frame)
  }

  lemma Setout(data: seq<Cell>, base: nat, runs: seq<Run>, frame: nat)
    requires AllRuns(runs) && Readable(runs, frame) && Holds(data, base, runs)
    ensures OnTheWay(data, base, runs, frame, base, runs, frame)
  {
  }

  /** Coming to a run: it is entered, and skipped if it is too short. */
  lemma SkipRun(data: seq<Cell>, base: nat, runs: seq<Run>, frame: nat, at: nat, rs: seq<Run>, k: nat)
    requires AllRuns(runs) && Readable(runs, frame) && OnTheWay(data, base, runs, frame, at, rs, k)
    ensures rs != [] && at < |data|
    ensures NumValid(data[at]) == |rs[0].values| && NumTotal(data[at]) == rs[0].total
    ensures
      var j := Entered(rs[0], k);
      && Entered(rs[0], j) == j && OnTheWay(data, base, runs, frame, at, rs, j)
      && (j >= rs[0].total ==>
            OnTheWay(data, base, runs, frame, at + |rs[0].values| + 1, rs[1..], j - rs[0].total))
  {
    hide Header;
    HeaderCounts(|rs[0].values|, rs[0].total);
    assert data[at + 0] == CellOf(rs[0], 0);
  }

  function FrameIn(header: Cell, k: nat): nat {
    if NumTotal(header) < NumValid(header) then 0 else k
  }

  /** The skipping loop both readers start with. */
  method Skip(data: seq<Cell>, base: nat, frame: nat, ghost runs: seq<Run>)
    returns (at: nat, k: nat, ghost rs: seq<Run>)
    requires AllRuns(runs) && Readable(runs, frame) && Holds(data, base, runs)
    ensures (at, k) == Seek(base, runs, frame) && at < |data| && k < NumTotal(data[at])
    ensures OnTheWay(data, base, runs, frame, at, rs, k) && rs != [] && k < rs[0].total && k == Entered(rs[0], k)
  {
    hide OnTheWay, Seek, AllRuns, Holds, PairAt, Readable, NumValid, NumTotal;
    at, k, rs := base, frame, runs;
    Setout(data, base, runs, frame);
    SkipRun(data, base, runs, frame, at, rs, k);
    k := FrameIn(data[at], k);
    while NumTotal(data[at]) <= k
      invariant OnTheWay(data, base, runs, frame, at, rs, k)
      invariant rs != [] && at < |data| && k == Entered(rs[0], k)
      invariant NumTotal(data[at]) == rs[0].total
      decreases |rs|
    {
      SkipRun(data, base, runs, frame, at, rs, k);
      k := k - NumTotal(data[at]);
      at := at + NumValid(data[at]) + 1;
      rs := rs[1..];
      SkipRun(data, base, runs, frame, at, rs, k);
      k := FrameIn(data[at], k);
    }
    Arrived(data, base, runs, frame, at, rs, k);
  }

  lemma Arrived(data: seq<Cell>, base: nat, runs: seq<Run>, frame: nat, at: nat, rs: seq<Run>, k: nat)
    requires AllRuns(runs) && Readable(runs, frame) && OnTheWay(data, base, runs, frame, at, rs, k)
    requires rs != [] && k == Entered(rs[0], k) < rs[0].total
    ensures Seek(base, runs, frame) == (at, k)
  {
  }

  /** What lies where, around the frame arrived at. */
  lemma Around(data: seq<Cell>, base: nat, runs: seq<Run>, frame: nat, at: nat, rs: seq<Run>, k: nat)
    requires AllRuns(runs) && Readable(runs, frame) && OnTheWay(data, base, runs, frame, at, rs, k)
    requires rs != [] && k == Entered(rs[0], k) < rs[0].total
    ensures
      var r, (v1, v2) := rs[0], PairAt(runs, frame);
      var n := |r.values|;
      && at + n < |data| && NumValid(data[at]) == n && NumTotal(data[at]) == r.total
      && v1 == data[at + if k < n then k + 1 else n]
      && (k + 1 < n ==> v2 == data[at + k + 2])
      && (n <= k + 1 < r.total ==> v2 == v1)
      && (n <= k + 1 && r.total == k + 1 ==> at + n + 2 < |data| && v2 == data[at + n + 2])
      && (IsSeam(runs, frame) <==> k + 1 == r.total == n)
  {
    hide Header;
    SkipRun(data, base, runs, frame, at, rs, k);
    var r := rs[0];
    var n := |r.values|;
    assert data[at + if k < n then k + 1 else n] == Latest(r, k);
    if k + 1 < n {
      assert data[at + (k + 2)] == CellOf(r, k + 2);
    } else if k + 1 == r.total {
      var next := rs[1..][0];
      assert Holds(data, at + 1 + n, rs[1..]) && IsRun(next);
      assert data[at + 1 + n + 1] == CellOf(next, 1);
    }
  }

  /** The values of a rotation track at a frame and the next. */
  method ReadRotation(data: seq<Cell>, base: nat, frame: nat, ghost runs: seq<Run>) returns (v1: Cell, v2: Cell)
    requires AllRuns(runs) && Readable(runs, frame) && Holds(data, base, runs)
    ensures (v1, v2) == PairAt(runs, frame)
  {
    hide OnTheWay, Seek, AllRuns, Holds, PairAt, Readable, IsSeam, NumValid, NumTotal;
    var at, k;
    ghost var rs;
    at, k, rs := Skip(data, base, frame, runs);
    Around(data, base, runs, frame, at, rs, k);
    var valid, total := NumValid(data[at]), NumTotal(data[at]);
    if valid > k {
      v1 := data[at + k + 1];
      if valid > k + 1 {
        v2 := data[at + k + 2];
      } else {
        if total > k + 1 {
          v2 := v1;
        } else {
          v2 := data[at + valid + 2];
        }
      }
    } else {
      v1 := data[at + valid];
      if total > k + 1 {
        v2 := v1;
      } else {
        v2 := data[at + valid + 2];
      }
    }
  }

  function Blend(a: Cell, b: Cell, s: real): real {
    a as real * (1.0 - s) + s * b as real
  }

  /** The value a position track has between a frame and the next: at a seam it is not blended. */
  ghost function Sampled(runs: seq<Run>, frame: nat, s: real): real
    requires AllRuns(runs) && Readable(runs, frame)
  {
    var (cur, next) := PairAt(runs, frame);
    if IsSeam(runs, frame) then cur as real else Blend(cur, next, s)
  }

  method ReadPosition(data: seq<Cell>, base: nat, frame: nat, s: real, ghost runs: seq<Run>) returns (x: real)
    requires AllRuns(runs) && Readable(runs, frame) && Holds(data, base, runs)
    ensures x == Sampled(runs, frame, s)
  {
    hide OnTheWay, Seek, AllRuns, Holds, PairAt, Readable, IsSeam, NumValid, NumTotal, Blend;
    var at, k;
    ghost var rs;
    at, k, rs := Skip(data, base, frame, runs);
    Around(data, base, runs, frame, at, rs, k);
    var valid, total := NumValid(data[at]), NumTotal(data[at]);
    if valid > k {
      if valid > k + 1 {
        x := Blend(data[at + k + 1], data[at + k + 2], s);
      } else {
        x := data[at + k + 1] as real;
        BlendSame(data[at + k + 1], s);
      }
    } else {
      if total <= k + 1 {
        x := Blend(data[at + valid], data[at + valid + 2], s);
      } else {
        x := data[at + valid] as real;
        BlendSame(data[at + valid], s);
      }
    }
  }

  lemma BlendSame(a: Cell, s: real)
    ensures Blend(a, a, s) == a as real
  {
  }

  /** A part `s` of the way from one value to the other. */
  lemma BlendIsLinear(a: Cell, b: Cell, s: real)
    ensures Blend(a, b, s) == a as real + s * (b as real - a as real)
  {
  }

  /** In the track written out, the seams are the last frames of runs that store as many values as they have frames. */
  lemma {:induction false} SeamsExactly(before: seq<Run>, r: Run, after: seq<Run>, j: nat)
    requires AllProper(before) && Proper(r) && j < r.total
    ensures IsSeam(before + [r] + after, |ExpandAll(before)| + j) <==> j + 1 == r.total == |r.values|
    decreases |before|
  {
    if before == [] {
      assert (before + [r] + after)[0] == r;
    } else {
      var rs := before + [r] + after;
      assert rs[0] == before[0] && rs[1..] == before[1..] + [r] + after;
      SeamsExactly(before[1..], r, after, j);
    }
  }

  /** So reading blends linearly exactly when no seam holds back a change. */
  lemma SeamMatters(runs: seq<Run>, frame: nat, s: real)
    requires AllProper(runs) && frame + 1 < |ExpandAll(runs)|
    ensures AllRuns(runs) && Readable(runs, frame)
    ensures
      var cur, next := ExpandAll(runs)[frame], ExpandAll(runs)[frame + 1];
      Sampled(runs, frame, s) == Blend(cur, next, s)
      <==> !IsSeam(runs, frame) || s == 0.0 || cur == next
  {
    hide Blend, PairAt, ExpandAll, Readable, IsSeam, AllProper, AllRuns;
    PairIsExpanded(runs, frame);
    BlendMoves(ExpandAll(runs)[frame], ExpandAll(runs)[frame + 1], s);
  }

  lemma BlendMoves(a: Cell, b: Cell, s: real)
    ensures Blend(a, b, s) == a as real <==> s == 0.0 || a == b
  {
    assert Blend(a, b, s) - a as real == s * (b as real - a as real);
  }

  /** For instance, of a track of two stored frames the position stays behind where the rotation goes halfway. */
  lemma SeamExample()
    ensures
      var runs := [Run([0], 1), Run([10], 1)];
      var data := [0, 257, 0, 257, 10];
      && AllProper(runs) && ExpandAll(runs) == [0, 10]
      && AllRuns(runs) && Holds(data, 1, runs) && Readable(runs, 0)
      && PairAt(runs, 0) == (0, 10) && Blend(0, 10, 0.5) == 5.0
      && Sampled(runs, 0, 0.5) == 0.0
  {
    var runs := [Run([0], 1), Run([10], 1)];
    var data: seq<Cell> := [0, 257, 0, 257, 10];
    assert runs[1..] == [Run([10], 1)] && runs[1..][1..] == [];
    assert Expand(runs[0]) == [0] && Expand(runs[1]) == [10];
    assert ExpandAll(runs[1..]) == [10];
    PairIsExpanded(runs, 0);
    assert Holds(data, 3, runs[1..]);
  }

  // A bone has three position channels and three rotation channels.

  const CHANNELS: nat := 6

  datatype Bone = Bone(value: seq<real>, scale: seq<real>, bonecontroller: seq<int>)

  /** The tracks of a bone: channel `j` has none if its offset is zero. */
  ghost predicate BoneHolds(data: seq<Cell>, bone: Bone, offset: seq<nat>, tracks: seq<seq<Run>>, frame: nat) {
    && |bone.value| == |bone.scale| == |bone.bonecontroller| == |offset| == |tracks| == CHANNELS
    && (forall j :: 0 <= j < CHANNELS && offset[j] != 0 ==>
          AllRuns(tracks[j]) && Readable(tracks[j], frame) && Holds(data, offset[j], tracks[j]))
  }

  /** Each channel has a controller among `adj`, or none. */
  ghost predicate HasControllers(bone: Bone, adj: seq<real>) {
    forall j :: 0 <= j < |bone.bonecontroller| ==> -1 <= bone.bonecontroller[j] < |adj|
  }

  /** A channel moved by `x` from rest, with its controller added if there are any. */
  function Channel(bone: Bone, j: nat, x: real, adj: Option<seq<real>>): real
    requires j < |bone.value| && j < |bone.bonecontroller|
    requires adj.Some? ==> -1 <= bone.bonecontroller[j] < |adj.value|
  {
    bone.value[j] + x
    + if adj.None? || bone.bonecontroller[j] == -1 then 0.0 else adj.value[bone.bonecontroller[j]]
  }

  /** What a track says, in the units of the bone. */
  function Scaled(x: real, scale: real): real {
    x * scale
  }

  /** One rotation channel, at the frame and at the next. */
  method CalcAngles(
    data: seq<Cell>, frame: nat, bone: Bone, offset: seq<nat>, adj: seq<real>, j: nat, ghost tracks: seq<seq<Run>>
  ) returns (angle1: real, angle2: real)
    requires BoneHolds(data, bone, offset, tracks, frame) && HasControllers(bone, adj) && j < CHANNELS
    ensures angle1 == Pose(data, bone, offset, adj, tracks, frame, j, false)
    ensures angle2 == Pose(data, bone, offset, adj, tracks, frame, j, true)
    ensures
      var adjusted := if bone.bonecontroller[j] == -1 then 0.0 else adj[bone.bonecontroller[j]];
      && (offset[j] == 0 ==> angle1 == angle2 == bone.value[j] + adjusted)
      && (offset[j] != 0 && AllProper(tracks[j]) && frame + 1 < |ExpandAll(tracks[j])| ==>
            && angle1 == bone.value[j] + ExpandAll(tracks[j])[frame] as real * bone.scale[j] + adjusted
            && angle2 == bone.value[j] + ExpandAll(tracks[j])[frame + 1] as real * bone.scale[j] + adjusted)
  {
    hide PairAt, Holds, AllRuns, Readable, Scaled, AllProper, ExpandAll;
    PoseExactly(data, bone, offset, adj, tracks, frame, j);
    if offset[j] == 0 {
      angle1 := bone.value[j];
      angle2 := angle1;
    } else {
      var v1, v2 := ReadRotation(data, offset[j], frame, tracks[j]);
      angle1 := bone.value[j] + Scaled(v1 as real, bone.scale[j]);
      angle2 := bone.value[j] + Scaled(v2 as real, bone.scale[j]);
    }
    if bone.bonecontroller[j] != -1 {
      angle1 := angle1 + adj[bone.bonecontroller[j]];
      angle2 := angle2 + adj[bone.bonecontroller[j]];
    }
  }

  /** The channel as its track has it, at the frame or at the next. */
  ghost function Pose(
    data: seq<Cell>, bone: Bone, offset: seq<nat>, adj: seq<real>, tracks: seq<seq<Run>>, frame: nat, j: nat, next: bool
  ): real
    requires BoneHolds(data, bone, offset, tracks, frame) && HasControllers(bone, adj) && j < CHANNELS
  {
    if offset[j] == 0 then Channel(bone, j, 0.0, Some(adj))
    else
      var (v1, v2) := PairAt(tracks[j], frame);
      Channel(bone, j, Scaled((if next then v2 else v1) as real, bone.scale[j]), Some(adj))
  }

  /** Of proper tracks, the channel is rest plus the value of the track written out, to scale, plus the controller. */
  lemma PoseExactly(
    data: seq<Cell>, bone: Bone, offset: seq<nat>, adj: seq<real>, tracks: seq<seq<Run>>, frame: nat, j: nat
  )
    requires BoneHolds(data, bone, offset, tracks, frame) && HasControllers(bone, adj) && j < CHANNELS
    ensures
      var angle1 := Pose(data, bone, offset, adj, tracks, frame, j, false);
      var angle2 := Pose(data, bone, offset, adj, tracks, frame, j, true);
      var adjusted := if bone.bonecontroller[j] == -1 then 0.0 else adj[bone.bonecontroller[j]];
      && (offset[j] == 0 ==> angle1 == angle2 == bone.value[j] + adjusted)
      && (offset[j] != 0 && AllProper(tracks[j]) && frame + 1 < |ExpandAll(tracks[j])| ==>
            && angle1 == bone.value[j] + ExpandAll(tracks[j])[frame] as real * bone.scale[j] + adjusted
            && angle2 == bone.value[j] + ExpandAll(tracks[j])[frame + 1] as real * bone.scale[j] + adjusted)
  {
    hide PairAt, Holds, AllRuns, Readable, AllProper, ExpandAll;
    if offset[j] != 0 && AllProper(tracks[j]) && frame + 1 < |ExpandAll(tracks[j])| {
      PairIsExpanded(tracks[j], frame);
    }
  }

  /** The two sets of angles between which the rotation of a frame is interpolated. */
  method CalcBoneAngles(
    data: seq<Cell>, frame: nat, bone: Bone, offset: seq<nat>, adj: seq<real>,
    angle1: array<real>, angle2: array<real>, ghost tracks: seq<seq<Run>>
  )
    requires BoneHolds(data, bone, offset, tracks, frame) && HasControllers(bone, adj)
    requires angle1.Length == angle2.Length == 3 && angle1 != angle2
    modifies angle1, angle2
    ensures forall j :: 0 <= j < 3 ==> angle1[j] == Pose(data, bone, offset, adj, tracks, frame, j + 3, false)
    ensures forall j :: 0 <= j < 3 ==> angle2[j] == Pose(data, bone, offset, adj, tracks, frame, j + 3, true)
    ensures
      forall j :: 3 <= j < 6 ==>
        var adjusted := if bone.bonecontroller[j] == -1 then 0.0 else adj[bone.bonecontroller[j]];
        && (offset[j] == 0 ==> angle1[j - 3] == angle2[j - 3] == bone.value[j] + adjusted)
        && (offset[j] != 0 && AllProper(tracks[j]) && frame + 1 < |ExpandAll(tracks[j])| ==>
              && angle1[j - 3] == bone.value[j] + ExpandAll(tracks[j])[frame] as real * bone.scale[j] + adjusted
              && angle2[j - 3] == bone.value[j] + ExpandAll(tracks[j])[frame + 1] as real * bone.scale[j] + adjusted)
  {
    hide Pose;
    for j := 0 to 3
      invariant forall i :: 0 <= i < j ==> angle1[i] == Pose(data, bone, offset, adj, tracks, frame, i + 3, false)
      invariant forall i :: 0 <= i < j ==> angle2[i] == Pose(data, bone, offset, adj, tracks, frame, i + 3, true)
    {
      var a1, a2 := CalcAngles(data, frame, bone, offset, adj, j + 3, tracks);
      angle1[j] := a1;
      angle2[j] := a2;
    }
    forall j | 3 <= j < 6 {
      PoseExactly(data, bone, offset, adj, tracks, frame, j);
    }
  }

  ghost function Position(
    data: seq<Cell>, bone: Bone, offset: seq<nat>, adj: Option<seq<real>>, tracks: seq<seq<Run>>,
    frame: nat, s: real, j: nat
  ): real
    requires BoneHolds(data, bone, offset, tracks, frame) && j < CHANNELS
    requires adj.Some? ==> HasControllers(bone, adj.value)
  {
    Channel(bone, j, if offset[j] != 0 then Scaled(Sampled(tracks[j], frame, s), bone.scale[j]) else 0.0, adj)
  }

  /** Of proper tracks, it is at rest plus the blend of two values of the track written out, or at a seam the first. */
  lemma PositionExactly(
    data: seq<Cell>, bone: Bone, offset: seq<nat>, adj: Option<seq<real>>, tracks: seq<seq<Run>>,
    frame: nat, s: real, j: nat
  )
    requires BoneHolds(data, bone, offset, tracks, frame) && j < CHANNELS
    requires adj.Some? ==> HasControllers(bone, adj.value)
    ensures
      var x := Position(data, bone, offset, adj, tracks, frame, s, j);
      var adjusted := if adj.None? || bone.bonecontroller[j] == -1 then 0.0 else adj.value[bone.bonecontroller[j]];
      && (offset[j] == 0 ==> x == bone.value[j] + adjusted)
      && (offset[j] != 0 && AllProper(tracks[j]) && frame + 1 < |ExpandAll(tracks[j])| ==>
            var cur, next := ExpandAll(tracks[j])[frame] as real, ExpandAll(tracks[j])[frame + 1] as real;
            var blended := if IsSeam(tracks[j], frame) then cur else cur + s * (next - cur);
            x == bone.value[j] + blended * bone.scale[j] + adjusted)
  {
    hide PairAt, Holds, AllRuns, Readable, AllProper, ExpandAll, IsSeam, Blend;
    if offset[j] != 0 && AllProper(tracks[j]) && frame + 1 < |ExpandAll(tracks[j])| {
      PairIsExpanded(tracks[j], frame);
      BlendIsLinear(ExpandAll(tracks[j])[frame], ExpandAll(tracks[j])[frame + 1], s);
    }
  }

  /** The three position channels; every channel starts from its resting value. */
  method CalcBonePosition(
    data: seq<Cell>, frame: nat, s: real, bone: Bone, offset: seq<nat>, adj: Option<seq<real>>,
    pos: array<real>, ghost tracks: seq<seq<Run>>
  )
    requires BoneHolds(data, bone, offset, tracks, frame) && pos.Length == 3
    requires adj.Some? ==> HasControllers(bone, adj.value)
    modifies pos
    ensures forall j :: 0 <= j < 3 ==> pos[j] == Position(data, bone, offset, adj, tracks, frame, s, j)
    ensures
      forall j :: 0 <= j < 3 ==>
        var adjusted := if adj.None? || bone.bonecontroller[j] == -1 then 0.0 else adj.value[bone.bonecontroller[j]];
        && (offset[j] == 0 ==> pos[j] == bone.value[j] + adjusted)
        && (offset[j] != 0 && AllProper(tracks[j]) && frame + 1 < |ExpandAll(tracks[j])| ==>
              var cur, next := ExpandAll(tracks[j])[frame] as real, ExpandAll(tracks[j])[frame + 1] as real;
              var blended := if IsSeam(tracks[j], frame) then cur else cur + s * (next - cur);
              pos[j] == bone.value[j] + blended * bone.scale[j] + adjusted)
  {
    hide PairAt, Holds, AllRuns, Readable, Sampled, Scaled, Position, AllProper, ExpandAll, IsSeam;
    for j := 0 to 3
      invariant forall i :: 0 <= i < j ==> pos[i] == Position(data, bone, offset, adj, tracks, frame, s, i)
    {
      pos[j] := bone.value[j];
      if offset[j] != 0 {
        var x := ReadPosition(data, offset[j], frame, s, tracks[j]);
        pos[j] := pos[j] + Scaled(x, bone.scale[j]);
      }
      if bone.bonecontroller[j] != -1 && adj.Some? {
        pos[j] := pos[j] + adj.value[bone.bonecontroller[j]];
      }
      PositionIs(data, bone, offset, adj, tracks, frame, s, j);
    }
    forall j | 0 <= j < 3 {
      PositionExactly(data, bone, offset, adj, tracks, frame, s, j);
    }
  }

  lemma PositionIs(
    data: seq<Cell>, bone: Bone, offset: seq<nat>, adj: Option<seq<real>>, tracks: seq<seq<Run>>,
    frame: nat, s: real, j: nat
  )
    requires BoneHolds(data, bone, offset, tracks, frame) && j < CHANNELS
    requires adj.Some? ==> HasControllers(bone, adj.value)
    ensures Position(data, bone, offset, adj, tracks, frame, s, j) ==
            bone.value[j] + (if offset[j] != 0 then Scaled(Sampled(tracks[j], frame, s), bone.scale[j]) else 0.0)
            + if adj.None? || bone.bonecontroller[j] == -1 then 0.0 else adj.value[bone.bonecontroller[j]]
  {
  }
}
