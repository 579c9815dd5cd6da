/**
 * The registry: owns the live vehicles of one video session and, frame by
 * frame, runs association and the zone checks for every vehicle in list
 * order, expires vehicles unseen for MAX_UNSEEN_FRAMES frames, and spawns new
 * vehicles from the leftover detections that are big enough and touch the
 * left or right edge of the frame.
 */
module Tracking {
  import opened Wrappers
  import opened Geometry
  import opened Vehicles

  const MAX_UNSEEN_FRAMES: nat := 10
  /** Shift of the frame centre used by the midpoint marker, in pixels. */
  const FUDGE_FACTOR: real := 10.0
  /** Largest distance, exclusive, of a vehicle centre from the shifted frame centre. */
  const CENTER_TOLERANCE: real := 30.0

  /** `a * num / den` truncated toward zero, as `int()` of the source's float product. */
  function IntOf(a: int, num: nat, den: nat): int
    requires den > 0
  {
    if a >= 0 then a * num / den else -((-a) * num / den)
  }

  /** Zone boundary: ten percent of the frame width from the left, truncated toward zero. */
  function LeftEdgeOf(width: int): (e: int)
    ensures 0 <= width ==> 0 <= 10 * e <= width < 10 * e + 10
    ensures width < 0 ==> 10 * e - 10 < width <= 10 * e <= 0
  {
    IntOf(width, 1, 10)
  }

  /** Spawn gate on width: 7.5 percent of the frame width, truncated toward zero. */
  function MinWidthOf(width: int): (m: int)
    ensures 0 <= width ==> 0 <= 40 * m <= 3 * width < 40 * m + 40
    ensures width < 0 ==> 40 * m - 40 < 3 * width <= 40 * m <= 0
  {
    IntOf(width, 3, 40)
  }

  /** Spawn gate on height: 5 percent of the frame height, truncated toward zero. */
  function MinHeightOf(height: int): (m: int)
    ensures 0 <= height ==> 0 <= 20 * m <= height < 20 * m + 20
    ensures height < 0 ==> 20 * m - 20 < height <= 20 * m <= 0
  {
    IntOf(height, 1, 20)
  }

  /** The zone boundaries sit inside the frame, in order, and the width gate is not negative. */
  lemma ZoneEdgesAreOrdered(width: int)
    requires width >= 0
    ensures 0 <= LeftEdgeOf(width) <= width - LeftEdgeOf(width) <= width
    ensures 0 <= MinWidthOf(width) <= width
  {
  }

  // ---------------------------------------------------------------------------
  // The speed meter's zone checks

  /** The leading edge has crossed the zone boundary behind the direction of travel. */
  predicate StartFires(r: Rect, direction: int, leftEdge: int, rightEdge: int) {
    if direction > 0 then r.x + r.w > leftEdge else r.x < rightEdge
  }

  /** The leading edge has crossed the zone boundary ahead in the direction of travel. */
  predicate StopFires(r: Rect, direction: int, leftEdge: int, rightEdge: int) {
    if direction > 0 then r.x + r.w > rightEdge else r.x < leftEdge
  }

  /**
   * The state after one frame's zone checks against rectangle `r`: start,
   * then stop, may both fire. The meter never goes backwards, Done is final,
   * and each step is the one its zone check allows.
   */
  function SpeedStep(s: State, r: Rect, direction: int, leftEdge: int, rightEdge: int): (t: State)
    ensures Rank(s) <= Rank(t)
    ensures s == Done ==> t == Done
    ensures s == New && !StartFires(r, direction, leftEdge, rightEdge) ==> t == New
    ensures s == New && StartFires(r, direction, leftEdge, rightEdge) ==> t != New
    ensures s == Active ==> (t == Done <==> StopFires(r, direction, leftEdge, rightEdge))
  {
    var started := if s == New && StartFires(r, direction, leftEdge, rightEdge) then Active else s;
    if started == Active && StopFires(r, direction, leftEdge, rightEdge) then Done else started
  }

  /**
   * With ordered zone boundaries a rectangle past the stop line is past the
   * start line too, so a New vehicle found past the stop line goes straight
   * to Done in one frame.
   */
  lemma StopLineIsBeyondStartLine(s: State, r: Rect, direction: int, leftEdge: int, rightEdge: int)
    requires leftEdge <= rightEdge
    ensures StopFires(r, direction, leftEdge, rightEdge) ==> StartFires(r, direction, leftEdge, rightEdge)
    ensures s != Done ==>
      (SpeedStep(s, r, direction, leftEdge, rightEdge) == Done <==> StopFires(r, direction, leftEdge, rightEdge))
  {
  }

  // ---------------------------------------------------------------------------
  // The midpoint marker

  function RealAbs(a: real): real { if a < 0.0 then -a else a }

  /** The centre of `r` is within CENTER_TOLERANCE of the frame centre shifted left by FUDGE_FACTOR. */
  function NearCenter(r: Rect, width: int): (near: bool)
    ensures near <==> -60 < 2 * r.x + r.w - width + 20 < 60
  {
    var d := r.x as real + r.w as real / 2.0 - (width as real / 2.0 - FUDGE_FACTOR);
    assert 2.0 * d == (2 * r.x + r.w - width + 20) as real;
    RealAbs(d) < CENTER_TOLERANCE
  }

  /** An unset marker: None, or the falsy frame number 0. */
  predicate Unmarked(centerFrame: Option<int>) {
    centerFrame == None || centerFrame == Some(0)
  }

  /** The marker after one frame's check against rectangle `r`. */
  function MidpointMark(centerFrame: Option<int>, r: Rect, width: int, frameNumber: int): (m: Option<int>)
    ensures !Unmarked(centerFrame) ==> m == centerFrame
    ensures m != centerFrame ==> m == Some(frameNumber) && NearCenter(r, width)
    ensures Unmarked(centerFrame) && NearCenter(r, width) ==> m == Some(frameNumber)
  {
    if Unmarked(centerFrame) && NearCenter(r, width) then Some(frameNumber) else centerFrame
  }

  // ---------------------------------------------------------------------------
  // Spawning

  /** Both dimensions strictly exceed the spawn gates. */
  predicate BigEnough(r: Rect, minWidth: int, minHeight: int) {
    r.w > minWidth && r.h > minHeight
  }

  /** Entering from the left (moving right), from the right (moving left), or not at an edge. */
  function EntryDirection(r: Rect, width: int): Option<int> {
    if r.x <= 0 then Some(1)
    else if r.x + r.w >= width then Some(-1)
    else None
  }

  /** A spawned vehicle: the detection it was seeded with, its direction, and the union its own association took. */
  datatype Spawn = Spawn(seed: Rect, direction: int, first: Rect)

  /**
   * The vehicles spawned from a leftover pool: the head is dropped unless it
   * is big enough and at an edge; otherwise it seeds a vehicle whose own
   * association immediately takes it and every other detection in reach.
   */
  function Admit(pool: seq<Rect>, width: int, minWidth: int, minHeight: int): seq<Spawn>
    requires minWidth >= 0
    decreases |pool|
  {
    if pool == [] then []
    else
      var head := pool[0];
      if BigEnough(head, minWidth, minHeight) && EntryDirection(head, width).Some? then
        var direction := EntryDirection(head, width).value;
        var window := Reach(head, direction);
        ReachTakesItself(head, direction);
        TakingHeadShrinks(window, pool);
        [Spawn(head, direction, Cover(Candidates(window, pool)))] +
        Admit(Survivors(window, pool), width, minWidth, minHeight)
      else
        Admit(pool[1..], width, minWidth, minHeight)
  }

  /** A head that is big enough and at an edge spawns the first vehicle; the rest come from the survivors. */
  lemma AdmitSpawnsHead(pool: seq<Rect>, width: int, minWidth: int, minHeight: int)
    requires minWidth >= 0 && pool != []
    requires BigEnough(pool[0], minWidth, minHeight) && EntryDirection(pool[0], width).Some?
    ensures var window := Reach(pool[0], EntryDirection(pool[0], width).value);
      && Candidates(window, pool) != []
      && Admit(pool, width, minWidth, minHeight)
        == [Spawn(pool[0], EntryDirection(pool[0], width).value, Cover(Candidates(window, pool)))]
           + Admit(Survivors(window, pool), width, minWidth, minHeight)
  {
    ReachTakesItself(pool[0], EntryDirection(pool[0], width).value);
  }

  function Seeds(spawns: seq<Spawn>): (seeds: seq<Rect>)
    ensures |seeds| == |spawns|
    ensures forall k :: 0 <= k < |spawns| ==> seeds[k] == spawns[k].seed
  {
    if spawns == [] then [] else [spawns[0].seed] + Seeds(spawns[1..])
  }

  /**
   * Every spawned vehicle was seeded by a big-enough detection at an edge,
   * moves away from that edge, and starts with a union enclosing its seed.
   */
  lemma {:induction false} AdmittedSeedsQualify(pool: seq<Rect>, width: int, minWidth: int, minHeight: int)
    requires minWidth >= 0
    ensures forall s :: s in Admit(pool, width, minWidth, minHeight) ==>
      && BigEnough(s.seed, minWidth, minHeight)
      && EntryDirection(s.seed, width) == Some(s.direction)
      && (s.direction == 1 || s.direction == -1)
      && Encloses(s.first, s.seed)
    decreases |pool|
  {
    if pool != [] {
      var head := pool[0];
      if BigEnough(head, minWidth, minHeight) && EntryDirection(head, width).Some? {
        var direction := EntryDirection(head, width).value;
        var window := Reach(head, direction);
        ReachTakesItself(head, direction);
        TakingHeadShrinks(window, pool);
        var cands := Candidates(window, pool);
        AdmittedSeedsQualify(Survivors(window, pool), width, minWidth, minHeight);
        CoverEnclosesAll(cands);
        assert Encloses(Cover(cands), cands[0]);
      } else {
        AdmittedSeedsQualify(pool[1..], width, minWidth, minHeight);
      }
    }
  }

  /** The seeds of a spawn list are its first seed and the seeds of the rest. */
  lemma SeedsOfCons(s: Spawn, later: seq<Spawn>)
    ensures multiset(Seeds([s] + later)) == multiset{s.seed} + multiset(Seeds(later))
  {
    assert ([s] + later)[1..] == later;
  }

  /** The inductive step of AdmittedSeedsComeFromPool when the head spawns a vehicle. */
  lemma SpawningHeadKeepsSeeds(pool: seq<Rect>, width: int, minWidth: int, minHeight: int)
    requires minWidth >= 0 && pool != [] && pool[0].w > 0
    requires BigEnough(pool[0], minWidth, minHeight) && EntryDirection(pool[0], width).Some?
    requires var rest := Survivors(Reach(pool[0], EntryDirection(pool[0], width).value), pool);
      multiset(Seeds(Admit(rest, width, minWidth, minHeight))) <= multiset(rest)
    ensures multiset(Seeds(Admit(pool, width, minWidth, minHeight))) <= multiset(pool)
  {
    var head := pool[0];
    var direction := EntryDirection(head, width).value;
    var window := Reach(head, direction);
    var rest := Survivors(window, pool);
    var cands := Candidates(window, pool);
    AdmitSpawnsHead(pool, width, minWidth, minHeight);
    ReachTakesItself(head, direction);
    TakingHeadShrinks(window, pool);
    PoolIsPartitioned(window, pool);
    assert head in cands;
    SeedsOfCons(Spawn(head, direction, Cover(cands)), Admit(rest, width, minWidth, minHeight));
    assert multiset{head} <= multiset(cands);
  }

  /** The seeds are drawn from the pool, each detection at most once. */
  lemma {:induction false} AdmittedSeedsComeFromPool(pool: seq<Rect>, width: int, minWidth: int, minHeight: int)
    requires minWidth >= 0
    ensures multiset(Seeds(Admit(pool, width, minWidth, minHeight))) <= multiset(pool)
    decreases |pool|
  {
    if pool != [] {
      var head := pool[0];
      if BigEnough(head, minWidth, minHeight) && EntryDirection(head, width).Some? {
        var window := Reach(head, EntryDirection(head, width).value);
        ReachTakesItself(head, EntryDirection(head, width).value);
        TakingHeadShrinks(window, pool);
        AdmittedSeedsComeFromPool(Survivors(window, pool), width, minWidth, minHeight);
        SpawningHeadKeepsSeeds(pool, width, minWidth, minHeight);
      } else {
        AdmittedSeedsComeFromPool(pool[1..], width, minWidth, minHeight);
        assert pool == [head] + pool[1..];
      }
    }
  }

  /** A pool without a big-enough detection at an edge spawns nothing: no vehicle is born mid-frame. */
  lemma {:induction false} NoSpawnAwayFromEdges(pool: seq<Rect>, width: int, minWidth: int, minHeight: int)
    requires minWidth >= 0
    requires forall i :: 0 <= i < |pool| ==>
      !BigEnough(pool[i], minWidth, minHeight) || EntryDirection(pool[i], width) == None
    ensures Admit(pool, width, minWidth, minHeight) == []
    decreases |pool|
  {
    if pool != [] {
      NoSpawnAwayFromEdges(pool[1..], width, minWidth, minHeight);
    }
  }

  // ---------------------------------------------------------------------------
  // Association of the existing vehicles, in list order

  /** The search window of a vehicle in state `s`: its last rectangle, widened ahead. */
  function Window(s: Snapshot): Rect
    requires |s.rects| > 0
  {
    Reach(s.rects[|s.rects| - 1], s.direction)
  }

  /** What is left of `pool` after each window in turn has taken its candidates. */
  function Sweep(windows: seq<Rect>, pool: seq<Rect>): seq<Rect>
    decreases |windows|
  {
    if windows == [] then pool
    else Survivors(windows[|windows| - 1], Sweep(windows[..|windows| - 1], pool))
  }

  /**
   * The association pass as the tracker runs it: each vehicle is offered the
   * pool its predecessors left, `pools[k]` to the k-th. What the last one
   * leaves is the sweep of all their windows over the first pool.
   */
  lemma {:induction false} ChainIsSweep(windows: seq<Rect>, pools: seq<seq<Rect>>)
    requires |pools| == |windows| + 1
    requires forall k :: 0 <= k < |windows| ==> pools[k + 1] == Survivors(windows[k], pools[k])
    ensures pools[|windows|] == Sweep(windows, pools[0])
    decreases |windows|
  {
    if windows != [] {
      var n := |windows| - 1;
      ChainIsSweep(windows[..n], pools[..n + 1]);
    }
  }

  /**
   * Pool exclusivity: what the sweep leaves overlaps none of the windows, so
   * no detection taken by an existing vehicle is left over for spawning.
   */
  lemma {:induction false} SweepLeavesUnclaimed(windows: seq<Rect>, pool: seq<Rect>)
    ensures forall r, k :: r in Sweep(windows, pool) && 0 <= k < |windows| ==> !OverlapsInX(windows[k], r)
    decreases |windows|
  {
    if windows != [] {
      var n := |windows| - 1;
      var before := Sweep(windows[..n], pool);
      SweepLeavesUnclaimed(windows[..n], pool);
      SurvivorsAreTheRest(windows[n], before);
      forall r, k | r in Sweep(windows, pool) && 0 <= k < |windows|
        ensures !OverlapsInX(windows[k], r)
      {
        assert r in Survivors(windows[n], before);
        if k < n {
          assert windows[..n][k] == windows[k];
          assert r in before;
        }
      }
    }
  }

  /** The sweep only removes detections: what it leaves was in the pool, as often as there. */
  lemma {:induction false} SweepOnlyRemoves(windows: seq<Rect>, pool: seq<Rect>)
    ensures multiset(Sweep(windows, pool)) <= multiset(pool)
    decreases |windows|
  {
    if windows != [] {
      var n := |windows| - 1;
      SweepOnlyRemoves(windows[..n], pool);
      PoolIsPartitioned(windows[n], Sweep(windows[..n], pool));
    }
  }

  /** Every seed spawned from the leftover pool lies outside every existing vehicle's search window. */
  lemma SpawnedSeedsWereUnclaimed(windows: seq<Rect>, pool: seq<Rect>, width: int, minWidth: int, minHeight: int)
    requires minWidth >= 0
    ensures forall s, k :: s in Admit(Sweep(windows, pool), width, minWidth, minHeight) && 0 <= k < |windows| ==>
      !OverlapsInX(windows[k], s.seed)
  {
    var leftover := Sweep(windows, pool);
    SweepLeavesUnclaimed(windows, pool);
    SweepOnlyRemoves(windows, pool);
    AdmittedSeedsComeFromPool(leftover, width, minWidth, minHeight);
    var spawns := Admit(leftover, width, minWidth, minHeight);
    forall s | s in spawns
      ensures s.seed in leftover
    {
      var i :| 0 <= i < |spawns| && spawns[i] == s;
      assert Seeds(spawns)[i] == s.seed;
      assert s.seed in multiset(Seeds(spawns));
    }
  }

  // ---------------------------------------------------------------------------
  // Expiry

  /** The vehicles of `vs` seen within the last MAX_UNSEEN_FRAMES frames, in list order. */
  function Young(vs: seq<Vehicle>): seq<Vehicle>
    reads vs
    decreases |vs|
  {
    if vs == [] then []
    else
      var last := vs[|vs| - 1];
      Young(vs[..|vs| - 1]) + (if last.framesSinceSeen < MAX_UNSEEN_FRAMES then [last] else [])
  }

  /** A vehicle is kept exactly when it was in the list and has been unseen for fewer than MAX_UNSEEN_FRAMES frames. */
  lemma {:induction false} YoungAreTheRecentlySeen(vs: seq<Vehicle>)
    ensures forall v :: v in Young(vs) ==> v in vs && v.framesSinceSeen < MAX_UNSEEN_FRAMES
    ensures forall v :: v in vs && v.framesSinceSeen < MAX_UNSEEN_FRAMES ==> v in Young(vs)
    decreases |vs|
  {
    if vs != [] {
      YoungAreTheRecentlySeen(vs[..|vs| - 1]);
      assert vs == vs[..|vs| - 1] + [vs[|vs| - 1]];
    }
  }

  /**
   * The first pass of expiry: the vehicles unseen for MAX_UNSEEN_FRAMES
   * frames or more, and among them those still being timed.
   */
  method CollectStale(vs: seq<Vehicle>) returns (removed: seq<Vehicle>, incomplete: seq<Vehicle>)
    ensures forall v :: v in removed <==> v in vs && v.framesSinceSeen >= MAX_UNSEEN_FRAMES
    ensures forall v :: v in incomplete <==>
      v in vs && v.framesSinceSeen >= MAX_UNSEEN_FRAMES && v.state == Active
  {
    removed, incomplete := [], [];
    var i := 0;
    while i < |vs|
      invariant 0 <= i <= |vs|
      invariant forall v :: v in removed <==> v in vs[..i] && v.framesSinceSeen >= MAX_UNSEEN_FRAMES
      invariant forall v :: v in incomplete <==>
        v in vs[..i] && v.framesSinceSeen >= MAX_UNSEEN_FRAMES && v.state == Active
    {
      var v := vs[i];
      assert vs[..i + 1] == vs[..i] + [v];
      if v.framesSinceSeen >= MAX_UNSEEN_FRAMES {
        removed := removed + [v];
        if v.state == Active {
          incomplete := incomplete + [v];
        }
      }
      i := i + 1;
    }
    assert vs[..|vs|] == vs;
  }

  /** The second pass of expiry: the vehicles not in `removed`, in list order. */
  method Prune(vs: seq<Vehicle>, removed: seq<Vehicle>) returns (kept: seq<Vehicle>)
    requires forall v :: v in vs ==> (v in removed <==> v.framesSinceSeen >= MAX_UNSEEN_FRAMES)
    ensures kept == Young(vs)
  {
    kept := [];
    var j := 0;
    while j < |vs|
      invariant 0 <= j <= |vs|
      invariant kept == Young(vs[..j])
    {
      assert vs[..j + 1][..j] == vs[..j];
      if vs[j] !in removed {
        kept := kept + [vs[j]];
      }
      j := j + 1;
    }
    assert vs[..|vs|] == vs;
  }

  /** Every vehicle moves left or right; ids are below `nextId` and strictly increase along the list. */
  predicate Roster(vs: seq<Vehicle>, nextId: int)
  {
    && (forall k :: 0 <= k < |vs| ==> vs[k].direction == 1 || vs[k].direction == -1)
    && (forall k :: 0 <= k < |vs| ==> vs[k].id < nextId)
    && Ascending(vs)
  }

  /** Each vehicle's id is below the next one's. */
  predicate Ascending(vs: seq<Vehicle>)
  {
    forall k :: 0 <= k < |vs| - 1 ==> vs[k].id < vs[k + 1].id
  }

  /** Ids that increase from each vehicle to the next increase along the whole list. */
  lemma {:induction false} AscendingIsPairwise(vs: seq<Vehicle>)
    requires Ascending(vs)
    ensures forall a, b :: 0 <= a < b < |vs| ==> vs[a].id < vs[b].id
    decreases |vs|
  {
    if |vs| > 1 {
      var init := vs[..|vs| - 1];
      assert Ascending(init) by {
        forall k | 0 <= k < |init| - 1 ensures init[k].id < init[k + 1].id {
          assert init[k] == vs[k] && init[k + 1] == vs[k + 1];
        }
      }
      AscendingIsPairwise(init);
      forall a, b | 0 <= a < b < |vs| ensures vs[a].id < vs[b].id {
        if b < |vs| - 1 {
          assert vs[a] == init[a] && vs[b] == init[b];
        } else if a < b - 1 {
          assert vs[a] == init[a] && vs[b - 1] == init[b - 1];
        }
      }
    }
  }

  /** In a list of ascending ids, the vehicle at `i` is no other entry. */
  lemma OnlyAt(vs: seq<Vehicle>, i: nat)
    requires Ascending(vs) && i < |vs|
    ensures forall k :: 0 <= k < |vs| && k != i ==> vs[k] != vs[i]
  {
    AscendingIsPairwise(vs);
  }

  /** Every vehicle of `vs` is well formed. */
  ghost predicate AllValid(vs: seq<Vehicle>)
    reads vs
  {
    forall k :: 0 <= k < |vs| ==> vs[k].Valid()
  }

  /** Whether `v` is the vehicle spawned as `s`, with id `vehicleId`, in frame `frameNumber`. */
  ghost predicate SpawnedAs(v: Vehicle, s: Spawn, vehicleId: int, frameNumber: int)
    reads v
  {
    && v.Valid()
    && v.id == vehicleId && v.direction == s.direction && v.startFrame == frameNumber
    && v.rects == [s.seed, s.first]
    && v.state == New && v.framesSinceSeen == 0
    && v.centerFrame == None
  }

  /**
   * Seeds a new vehicle with the head of the pool and lets it run its own
   * association at once; the head is always among the detections it takes.
   */
  method Launch(pool: seq<Rect>, direction: int, vehicleId: int, frameNumber: int)
    returns (v: Vehicle, rest: seq<Rect>)
    requires pool != [] && pool[0].w > 0
    ensures fresh(v)
    ensures var window := Reach(pool[0], direction);
      && Candidates(window, pool) != []
      && SpawnedAs(v, Spawn(pool[0], direction, Cover(Candidates(window, pool))), vehicleId, frameNumber)
      && rest == Survivors(window, pool)
      && |rest| < |pool|
  {
    ReachTakesItself(pool[0], direction);
    TakingHeadShrinks(Reach(pool[0], direction), pool);
    v := new Vehicle(vehicleId, direction, pool[0], frameNumber);
    rest := v.FindMatch(pool);
  }

  /** Expiry keeps the survivors' relative order, so strictly increasing ids stay strictly increasing. */
  lemma {:induction false} YoungKeepsIdOrder(vs: seq<Vehicle>)
    requires forall a, b :: 0 <= a < b < |vs| ==> vs[a].id < vs[b].id
    ensures forall a, b :: 0 <= a < b < |Young(vs)| ==> Young(vs)[a].id < Young(vs)[b].id
    decreases |vs|
  {
    if vs != [] {
      var n := |vs| - 1;
      var init := vs[..n];
      YoungKeepsIdOrder(init);
      YoungAreTheRecentlySeen(init);
      var y := Young(init);
      forall a | 0 <= a < |y|
        ensures y[a].id < vs[n].id
      {
        assert y[a] in Young(init);
        assert y[a] in init;
      }
    }
  }

  /** Expiry keeps every survivor well formed and the roster in order. */
  lemma YoungKeepsRoster(vs: seq<Vehicle>, nextId: int)
    requires Roster(vs, nextId) && AllValid(vs)
    ensures Roster(Young(vs), nextId) && AllValid(Young(vs))
  {
    var y := Young(vs);
    YoungAreTheRecentlySeen(vs);
    AscendingIsPairwise(vs);
    YoungKeepsIdOrder(vs);
    forall k | 0 <= k < |y|
      ensures y[k].Valid() && (y[k].direction == 1 || y[k].direction == -1) && y[k].id < nextId
    {
      assert y[k] in y;
      var j :| 0 <= j < |vs| && vs[j] == y[k];
    }
  }

  class Tracker {
    const width: int
    const height: int
    /** Nominal frames per second; passed along by the source but unused by the meter. */
    const fps: real
    const leftEdge: int
    const rightEdge: int
    const minVehicleWidth: int
    const minVehicleHeight: int
    const frameCenterX: real

    var vehicles: seq<Vehicle>
    var nextVehicleId: int

    /**
     * Geometry fixed at construction; every vehicle is well formed and moves
     * left or right; ids are below next_vehicle_id and strictly increase
     * along the list (so the vehicles are distinct objects).
     */
    ghost predicate Valid()
      reads this, vehicles
    {
      Calibrated() && Roster(vehicles, nextVehicleId) && AllValid(vehicles)
    }

    /** The zone and size thresholds derived from the frame size. */
    predicate Calibrated()
    {
      && width >= 0
      && leftEdge == LeftEdgeOf(width)
      && rightEdge == width - leftEdge
      && minVehicleWidth == MinWidthOf(width)
      && minVehicleHeight == MinHeightOf(height)
      && frameCenterX == width as real / 2.0 - FUDGE_FACTOR
    }

    constructor (width: int, height: int, fps: real)
      requires width >= 0
      ensures Valid()
      ensures this.width == width && this.height == height && this.fps == fps
      ensures 0 <= leftEdge <= rightEdge <= width
      ensures vehicles == [] && nextVehicleId == 0
    {
      this.width := width;
      this.height := height;
      this.fps := fps;
      var edgeSize := LeftEdgeOf(width);
      leftEdge := 0 + edgeSize;
      rightEdge := width - edgeSize;
      minVehicleWidth := MinWidthOf(width);
      minVehicleHeight := MinHeightOf(height);
      frameCenterX := width as real / 2.0 - FUDGE_FACTOR;
      vehicles := [];
      nextVehicleId := 0;
      ZoneEdgesAreOrdered(width);
    }

    /**
     * The change one frame's zone checks against rectangle `last` make to a
     * vehicle's meter: the state takes one SpeedStep; leaving New records the
     * leading edge, the frame and the clock reading; becoming Done records
     * the frame and the speed over the leading edge's travel since the start;
     * nothing else changes.
     */
    predicate Metered(before: Meter, after: Meter, last: Rect, direction: int, frameNumber: int, now: int)
    {
      && after.state == SpeedStep(before.state, last, direction, leftEdge, rightEdge)
      && (if before.state == New && after.state != New then
            && after.startX == Some(LeadingEdge(last, direction))
            && after.startFrame == Some(frameNumber)
            && after.startTime == Some(now)
          else
            && after.startX == before.startX
            && after.startFrame == before.startFrame
            && after.startTime == before.startTime)
      && (if before.state != Done && after.state == Done then
            && after.doneFrame == Some(frameNumber)
            && after.startX.Some? && after.startTime.Some?
            && after.mph == Mph(Abs(LeadingEdge(last, direction) - after.startX.value),
                                ClockMicros(after.startTime.value, now))
          else
            && after.mph == before.mph
            && after.doneFrame == before.doneFrame)
    }

    /**
     * A vehicle that starts and stops in the same frame was timed over no
     * distance and no time, and reads 0.
     */
    lemma SameFrameStopReadsZero(before: Meter, after: Meter, last: Rect, direction: int, frameNumber: int, now: int)
      requires Metered(before, after, last, direction, frameNumber, now)
      requires before.state == New && after.state == Done
      ensures after.mph == 0.0
    {
      assert ClockMicros(after.startTime.value, now) == 0;
    }

    /**
     * One frame's work for `vehicle`, after association: the start check
     * (only from New), then the stop check (only from Active), both against
     * the rectangle the vehicle ended the association with.
     */
    method StartStopSpeed(frameNumber: int, now: int, vehicle: Vehicle)
      requires vehicle.Valid()
      modifies vehicle`state, vehicle`speedStartX, vehicle`speedStartFrame, vehicle`speedStartTime,
               vehicle`mph, vehicle`doneFrame
      ensures vehicle.Valid()
      ensures Metered(old(vehicle.Gauge()), vehicle.Gauge(), vehicle.Last(), vehicle.direction, frameNumber, now)
    {
      var r := vehicle.rects[|vehicle.rects| - 1];
      if vehicle.state == New {
        if vehicle.direction > 0 {
          if r.x + r.w > leftEdge {
            vehicle.StartSpeed(frameNumber, now);
          }
        } else {
          if r.x < rightEdge {
            vehicle.StartSpeed(frameNumber, now);
          }
        }
      }
      if vehicle.state == Active {
        if vehicle.direction > 0 {
          if r.x + r.w > rightEdge {
            vehicle.StopSpeed(frameNumber, now);
          }
        } else {
          if r.x < leftEdge {
            vehicle.StopSpeed(frameNumber, now);
          }
        }
      }
    }

    /** Marks the frame in which the vehicle's centre passes the (shifted) frame centre, once. */
    method CheckForMidpoint(frameNumber: int, vehicle: Vehicle)
      requires |vehicle.rects| > 0
      requires frameCenterX == width as real / 2.0 - FUDGE_FACTOR
      modifies vehicle`centerFrame
      ensures vehicle.centerFrame == MidpointMark(old(vehicle.centerFrame), vehicle.Last(), width, frameNumber)
    {
      if vehicle.centerFrame == None || vehicle.centerFrame == Some(0) {
        var r := vehicle.rects[|vehicle.rects| - 1];
        var vehicleCenterX := r.x as real + r.w as real / 2.0;
        if RealAbs(vehicleCenterX - frameCenterX) < CENTER_TOLERANCE {
          vehicle.centerFrame := Some(frameNumber);
        }
      }
    }

    /**
     * Drops every vehicle unseen for MAX_UNSEEN_FRAMES frames or more, keeping
     * the others in order, and reports the dropped ones that were still
     * being timed.
     */
    method RemoveOldVehicles() returns (incomplete: seq<Vehicle>)
      requires Valid()
      modifies this`vehicles
      ensures Valid()
      ensures vehicles == Young(old(vehicles))
      ensures forall v :: v in vehicles ==> v.framesSinceSeen < MAX_UNSEEN_FRAMES
      ensures forall v :: v in incomplete <==>
        v in old(vehicles) && v.framesSinceSeen >= MAX_UNSEEN_FRAMES && v.state == Active
    {
      var removed;
      removed, incomplete := CollectStale(vehicles);
      var kept := Prune(vehicles, removed);
      YoungAreTheRecentlySeen(vehicles);
      YoungKeepsRoster(vehicles, nextVehicleId);
      vehicles := kept;
    }

    /** Appends a vehicle that is not yet tracked, giving out the next id. */
    method Enrol(v: Vehicle)
      requires Valid() && v.Valid() && v !in vehicles
      requires v.id == nextVehicleId && (v.direction == 1 || v.direction == -1)
      modifies this`vehicles, this`nextVehicleId
      ensures Valid()
      ensures vehicles == old(vehicles) + [v] && nextVehicleId == old(nextVehicleId) + 1
    {
      vehicles := vehicles + [v];
      nextVehicleId := nextVehicleId + 1;
    }

    /**
     * One turn of the spawning loop: a head that is too small or away from
     * the edges is dropped; otherwise a new vehicle with the next id is
     * seeded with it and runs its own association, which takes at least the
     * head out of the pool.
     */
    method AdmitHead(pool: seq<Rect>, frameNumber: int) returns (rest: seq<Rect>, ghost born: seq<Vehicle>)
      requires Valid() && pool != []
      modifies this`vehicles, this`nextVehicleId
      ensures Valid()
      ensures |rest| < |pool|
      ensures var spawns := Admit(pool, width, minVehicleWidth, minVehicleHeight);
        && |born| <= 1 && |born| <= |spawns|
        && spawns[|born|..] == Admit(rest, width, minVehicleWidth, minVehicleHeight)
        && vehicles == old(vehicles) + born
        && nextVehicleId == old(nextVehicleId) + |born|
        && forall k :: 0 <= k < |born| ==>
             fresh(born[k]) && SpawnedAs(born[k], spawns[k], old(nextVehicleId) + k, frameNumber)
    {
      ZoneEdgesAreOrdered(width);
      var head := pool[0];
      if head.w > minVehicleWidth && head.h > minVehicleHeight {
        var direction;
        if head.x <= 0 {
          direction := 1;
        } else if head.x + head.w >= width {
          direction := -1;
        } else {
          return pool[1..], [];
        }
        AdmitSpawnsHead(pool, width, minVehicleWidth, minVehicleHeight);
        var v;
        v, rest := Launch(pool, direction, nextVehicleId, frameNumber);
        Enrol(v);
        born := [v];
      } else {
        rest, born := pool[1..], [];
      }
    }

    /** Spawns vehicles from the leftover detections, front to back, until the pool is empty. */
    method AddNewVehicles(matches: seq<Rect>, frameNumber: int) returns (ghost spawned: seq<Vehicle>)
      requires Valid()
      modifies this`vehicles, this`nextVehicleId
      ensures Valid()
      ensures var spawns := Admit(matches, width, minVehicleWidth, minVehicleHeight);
        && |spawned| == |spawns|
        && vehicles == old(vehicles) + spawned
        && nextVehicleId == old(nextVehicleId) + |spawns|
        && forall k :: 0 <= k < |spawns| ==>
             fresh(spawned[k]) && SpawnedAs(spawned[k], spawns[k], old(nextVehicleId) + k, frameNumber)
    {
      ghost var spawns := Admit(matches, width, minVehicleWidth, minVehicleHeight);
      spawned := [];
      var pool := matches;
      while |pool| > 0
        invariant Valid()
        invariant |spawned| <= |spawns|
        invariant spawns[|spawned|..] == Admit(pool, width, minVehicleWidth, minVehicleHeight)
        invariant vehicles == old(vehicles) + spawned
        invariant nextVehicleId == old(nextVehicleId) + |spawned|
        invariant forall k :: 0 <= k < |spawned| ==>
          fresh(spawned[k]) && SpawnedAs(spawned[k], spawns[k], old(nextVehicleId) + k, frameNumber)
        decreases |pool|
      {
        ghost var offered := spawns[|spawned|..];
        ghost var born;
        pool, born := AdmitHead(pool, frameNumber);
        assert spawns[|spawned| + |born|..] == offered[|born|..];
        forall k | |spawned| <= k < |spawned| + |born|
          ensures fresh(born[k - |spawned|])
          ensures SpawnedAs(born[k - |spawned|], spawns[k], old(nextVehicleId) + k, frameNumber)
        {
          assert spawns[k] == offered[k - |spawned|];
        }
        spawned := spawned + born;
      }
      assert spawns[|spawned|..] == [];
    }

    /**
     * The per-frame change association and the zone checks make to an
     * existing vehicle offered `pool`: it takes the candidates in its search
     * window, gaining their cover as a new rectangle and resetting its unseen
     * count, or gains nothing and counts one more unseen frame; then its
     * meter and its midpoint mark move on against its last rectangle.
     */
    predicate Stepped(before: Snapshot, after: Snapshot, pool: seq<Rect>, frameNumber: int, now: int)
    {
      && |before.rects| > 0
      && after.direction == before.direction
      && var found := Candidates(Window(before), pool);
      && after.rects == before.rects + (if found == [] then [] else [Cover(found)])
      && after.framesSinceSeen == (if found == [] then before.framesSinceSeen + 1 else 0)
      && var last := after.rects[|after.rects| - 1];
      && Metered(before.meter, after.meter, last, after.direction, frameNumber, now)
      && after.centerFrame == MidpointMark(before.centerFrame, last, width, frameNumber)
    }

    /** One existing vehicle's turn in a frame: association, then the zone checks, then the midpoint check. */
    method Advance(frameNumber: int, now: int, vehicle: Vehicle, pool: seq<Rect>) returns (rest: seq<Rect>)
      requires vehicle.Valid()
      requires frameCenterX == width as real / 2.0 - FUDGE_FACTOR
      modifies vehicle
      ensures vehicle.Valid()
      ensures Stepped(old(vehicle.Snap()), vehicle.Snap(), pool, frameNumber, now)
      ensures rest == Survivors(Window(old(vehicle.Snap())), pool)
    {
      rest := vehicle.FindMatch(pool);
      StartStopSpeed(frameNumber, now, vehicle);
      CheckForMidpoint(frameNumber, vehicle);
    }

    /**
     * The association pass of a frame: every tracked vehicle, in list order,
     * takes its turn on the pool its predecessors left; `pools[k]` is the
     * pool the k-th vehicle is offered.
     */
    method AssociateAll(matches: seq<Rect>, frameNumber: int, now: int)
      returns (leftover: seq<Rect>, ghost pools: seq<seq<Rect>>)
      requires Calibrated() && Ascending(vehicles) && AllValid(vehicles)
      modifies vehicles
      ensures AllValid(vehicles)
      ensures |pools| == |vehicles| + 1 && pools[0] == matches && pools[|vehicles|] == leftover
      ensures forall k :: 0 <= k < |vehicles| ==> Stepped(old(vehicles[k].Snap()), vehicles[k].Snap(), pools[k], frameNumber, now)
      ensures forall k :: 0 <= k < |vehicles| ==> pools[k + 1] == Survivors(Window(old(vehicles[k].Snap())), pools[k])
    {
      var vs := vehicles;
      ghost var befores := seq(|vs|, k requires 0 <= k < |vs| reads vs => vs[k].Snap());
      ghost var after: seq<Snapshot> := [];
      leftover, pools := matches, [matches];
      var i := 0;
      while i < |vs|
        invariant 0 <= i <= |vs|
        invariant forall k :: i <= k < |vs| ==> unchanged(vs[k])
        invariant forall k {:trigger befores[k]} :: 0 <= k < |vs| ==> befores[k] == old(vs[k].Snap())
        invariant |pools| == i + 1 && pools[0] == matches && pools[i] == leftover && |after| == i
        invariant forall k {:trigger after[k]} :: 0 <= k < i ==> vs[k].Valid() && vs[k].Snap() == after[k]
        invariant forall k {:trigger after[k]} :: 0 <= k < i ==> Stepped(befores[k], after[k], pools[k], frameNumber, now)
        invariant forall k {:trigger befores[k]} :: 0 <= k < i ==> pools[k + 1] == Survivors(Window(befores[k]), pools[k])
      {
        var vehicle := vs[i];
        OnlyAt(vs, i);
        leftover := Advance(frameNumber, now, vehicle, leftover);
        ghost var grown := after + [vehicle.Snap()];
        forall k | 0 <= k < i + 1
          ensures vs[k].Valid() && vs[k].Snap() == grown[k]
        {
          if k < i {
            assert grown[k] == after[k];
          }
        }
        ghost var chain := pools + [leftover];
        assert befores[i] == old(vs[i].Snap());
        forall k | 0 <= k < i + 1
          ensures Stepped(befores[k], grown[k], chain[k], frameNumber, now)
          ensures chain[k + 1] == Survivors(Window(befores[k]), chain[k])
        {
          if k < i {
            assert grown[k] == after[k] && chain[k] == pools[k] && chain[k + 1] == pools[k + 1];
          }
        }
        after, pools := grown, chain;
        i := i + 1;
      }
      forall k | 0 <= k < |vs|
        ensures vs[k].Valid()
        ensures Stepped(old(vs[k].Snap()), vs[k].Snap(), pools[k], frameNumber, now)
        ensures pools[k + 1] == Survivors(Window(old(vs[k].Snap())), pools[k])
      {
        assert vs[k].Snap() == after[k] && befores[k] == old(vs[k].Snap());
      }
    }

    /**
     * The end of a frame: the stale vehicles expire, then what is left of the
     * pool spawns vehicles; `incomplete` are the expired ones still being timed.
     */
    method Renew(pool: seq<Rect>, frameNumber: int) returns (incomplete: seq<Vehicle>, ghost spawned: seq<Vehicle>)
      requires Valid()
      modifies this`vehicles, this`nextVehicleId
      ensures Valid()
      ensures var spawns := Admit(pool, width, minVehicleWidth, minVehicleHeight);
        && |spawned| == |spawns|
        && vehicles == Young(old(vehicles)) + spawned
        && nextVehicleId == old(nextVehicleId) + |spawns|
        && forall k :: 0 <= k < |spawns| ==>
             fresh(spawned[k]) && SpawnedAs(spawned[k], spawns[k], old(nextVehicleId) + k, frameNumber)
      ensures forall v :: v in vehicles ==> v.framesSinceSeen < MAX_UNSEEN_FRAMES
      ensures forall v :: v in incomplete <==>
        v in old(vehicles) && v.framesSinceSeen >= MAX_UNSEEN_FRAMES && v.state == Active
    {
      incomplete := RemoveOldVehicles();
      ghost var kept := vehicles;
      spawned := AddNewVehicles(pool, frameNumber);
      forall v | v in vehicles
        ensures v.framesSinceSeen < MAX_UNSEEN_FRAMES
      {
        if v !in kept {
          var j :| 0 <= j < |spawned| && spawned[j] == v;
        }
      }
    }

    /**
     * One frame: every existing vehicle, in list order, takes its candidates
     * from the pool and runs the zone checks and the midpoint check; then the
     * stale vehicles expire, those still being timed reported as
     * `incomplete`; then what is left of the pool spawns vehicles.
     */
    method Track(matches: seq<Rect>, frameNumber: int, now: int)
      returns (live: seq<Vehicle>, incomplete: seq<Vehicle>, ghost pools: seq<seq<Rect>>, ghost spawned: seq<Vehicle>)
      requires Valid()
      modifies this, vehicles
      ensures Valid() && live == vehicles
      ensures |pools| == |old(vehicles)| + 1 && pools[0] == matches
      ensures forall k :: 0 <= k < |old(vehicles)| ==> Stepped(old(vehicles[k].Snap()), old(vehicles)[k].Snap(), pools[k], frameNumber, now)
      ensures forall k :: 0 <= k < |old(vehicles)| ==> pools[k + 1] == Survivors(Window(old(vehicles[k].Snap())), pools[k])
      ensures var spawns := Admit(pools[|old(vehicles)|], width, minVehicleWidth, minVehicleHeight);
        && |spawned| == |spawns|
        && vehicles == Young(old(vehicles)) + spawned
        && nextVehicleId == old(nextVehicleId) + |spawns|
        && forall k :: 0 <= k < |spawns| ==>
             fresh(spawned[k]) && SpawnedAs(spawned[k], spawns[k], old(nextVehicleId) + k, frameNumber)
      ensures forall v :: v in vehicles ==> v.framesSinceSeen < MAX_UNSEEN_FRAMES
      ensures forall v :: v in incomplete <==>
        v in old(vehicles) && v.framesSinceSeen >= MAX_UNSEEN_FRAMES && v.state == Active
    {
      var pool;
      pool, pools := AssociateAll(matches, frameNumber, now);
      incomplete, spawned := Renew(pool, frameNumber);
      live := vehicles;
    }
  }
}
