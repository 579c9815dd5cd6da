/**
 * The older centroid counter. A vehicle is a chain of centroids. Each frame,
 * every vehicle in list order takes the first centroid of the pool within 300
 * pixels of its last position, and that centroid leaves the pool; every
 * centroid left over starts a vehicle; every vehicle's speed is re-estimated;
 * vehicles unseen for 30 frames are dropped.
 */
module Counting {
  import opened Wrappers

  const MAX_UNSEEN_FRAMES: nat := 30
  /** Largest distance, in pixels, at which a centroid still continues a vehicle. */
  const MAX_DISTANCE: nat := 300

  /** A detection's centroid, in pixels. */
  datatype Point = Point(x: int, y: int)

  /**
   * The speed estimate of a vehicle. The mph figure is the straight-line
   * distance from the first to the last centroid, at ten pixels to the foot,
   * over the frames since the vehicle started at `fps` frames per second; it
   * is read 0 when no frame has passed. `Measured` keeps the two integers
   * the figure is computed from (the square root itself is not modelled).
   */
  datatype Speed = Unmeasured | Stationary | Measured(squaredPixels: nat, frames: int)

  /** The square of the Euclidean distance between two centroids. */
  function SquaredDistance(a: Point, b: Point): (d: nat)
    ensures d == 0 <==> a == b
  {
    (b.x - a.x) * (b.x - a.x) + (b.y - a.y) * (b.y - a.y)
  }

  /** The matching threshold, on the squared distance. */
  predicate IsValidDistance(squared: nat)
  {
    squared <= MAX_DISTANCE * MAX_DISTANCE
  }

  /** On the Euclidean distance `d` itself, the squared test is the test `d <= 300`. */
  lemma ValidDistanceIsWithin300(a: Point, b: Point, d: real)
    requires d >= 0.0 && d * d == SquaredDistance(a, b) as real
    ensures IsValidDistance(SquaredDistance(a, b)) <==> d <= MAX_DISTANCE as real
  {
    var m := MAX_DISTANCE as real;
    if d <= m {
      assert d * d <= m * d <= m * m;
    } else {
      assert d * d > m * d > m * m;
    }
  }

  /** The index of the first centroid of `pool` within reach of `p`, if any. */
  function FirstInReach(p: Point, pool: seq<Point>): (r: Option<nat>)
    ensures r.Some? ==> r.value < |pool| && IsValidDistance(SquaredDistance(p, pool[r.value]))
    ensures r.Some? ==> forall j :: 0 <= j < r.value ==> !IsValidDistance(SquaredDistance(p, pool[j]))
    ensures r.None? ==> forall j :: 0 <= j < |pool| ==> !IsValidDistance(SquaredDistance(p, pool[j]))
  {
    if pool == [] then None
    else if IsValidDistance(SquaredDistance(p, pool[0])) then Some(0)
    else match FirstInReach(p, pool[1..])
      case None => None
      case Some(i) => Some(i + 1)
  }

  /** The centroid a vehicle last seen at `p` takes from `pool`: none, or one. */
  function Taken(p: Point, pool: seq<Point>): (t: seq<Point>)
    ensures |t| <= 1
  {
    match FirstInReach(p, pool)
    case None => []
    case Some(i) => [pool[i]]
  }

  /** The pool once a vehicle last seen at `p` has taken its centroid from it. */
  function Offer(p: Point, pool: seq<Point>): seq<Point>
  {
    match FirstInReach(p, pool)
    case None => pool
    case Some(i) => pool[..i] + pool[i + 1..]
  }

  /** A turn moves at most one centroid from the pool to the vehicle and loses none. */
  lemma OfferPartitions(p: Point, pool: seq<Point>)
    ensures multiset(pool) == multiset(Offer(p, pool)) + multiset(Taken(p, pool))
    ensures |Offer(p, pool)| + |Taken(p, pool)| == |pool|
  {
    match FirstInReach(p, pool)
    case None =>
    case Some(i) =>
      assert pool == pool[..i] + [pool[i]] + pool[i + 1..];
  }

  class Vehicle {
    const id: int
    const startFrame: int
    /** Centroid history: seeded at creation, one centroid appended per matched frame. */
    var positions: seq<Point>
    var framesSinceSeen: nat
    var speed: Speed

    /** The history is never empty. */
    ghost predicate Valid()
      reads this
    {
      |positions| > 0
    }

    constructor (carId: int, position: Point, startFrame: int)
      ensures Valid()
      ensures id == carId && this.startFrame == startFrame
      ensures positions == [position] && framesSinceSeen == 0 && speed == Unmeasured
    {
      id := carId;
      this.startFrame := startFrame;
      positions := [position];
      framesSinceSeen := 0;
      speed := Unmeasured;
    }

    /** The most recent centroid: the history is the earlier ones followed by it. */
    function LastPosition(): (p: Point)
      reads this
      requires Valid()
      ensures positions == positions[..|positions| - 1] + [p]
    {
      positions[|positions| - 1]
    }

    /** Appends a centroid to the history; the vehicle was seen in this frame. */
    method AddPosition(p: Point)
      requires Valid()
      modifies this`positions, this`framesSinceSeen
      ensures Valid()
      ensures positions == old(positions) + [p] && framesSinceSeen == 0
      ensures LastPosition() == p
    {
      positions := positions + [p];
      framesSinceSeen := 0;
    }
  }

  /** The speed a vehicle with history `positions`, started in `startFrame`, is given in frame `frameNumber`. */
  function Estimate(positions: seq<Point>, startFrame: int, frameNumber: int): (s: Speed)
    requires |positions| > 0
    ensures s != Unmeasured
    ensures s == Stationary <==> frameNumber == startFrame
    ensures s.Measured? ==>
      && s.squaredPixels == SquaredDistance(positions[|positions| - 1], positions[0])
      && s.frames == frameNumber - startFrame
  {
    if frameNumber - startFrame == 0 then Stationary
    else Measured(SquaredDistance(positions[|positions| - 1], positions[0]), frameNumber - startFrame)
  }

  /** Whether `v` is the vehicle started at `centroid` with id `carId` in frame `frameNumber`. */
  ghost predicate Started(v: Vehicle, centroid: Point, carId: int, frameNumber: int)
    reads v`positions, v`framesSinceSeen
  {
    && v.id == carId && v.startFrame == frameNumber
    && v.positions == [centroid] && v.framesSinceSeen == 0
  }

  /**
   * Whether `v`, whose history was `before` and which had gone `unseen`
   * frames unseen, has had its turn at `pool`, leaving `rest`: it took the
   * first centroid within reach of its last position, if any, which left the
   * pool; with none in reach it went one more frame unseen.
   */
  ghost predicate Turned(before: seq<Point>, unseen: nat, v: Vehicle, pool: seq<Point>, rest: seq<Point>)
    reads v`positions, v`framesSinceSeen
  {
    && |before| > 0
    && var last := before[|before| - 1];
    && rest == Offer(last, pool)
    && v.positions == before + Taken(last, pool)
    && v.framesSinceSeen == if Taken(last, pool) == [] then unseen + 1 else 0
  }

  /** The centroids the vehicles `vs`, whose histories were `befores`, have gained since, in list order. */
  function Gained(befores: seq<seq<Point>>, vs: seq<Vehicle>): seq<Point>
    requires |befores| == |vs|
    reads vs
    decreases |vs|
  {
    if vs == [] then []
    else
      var n := |vs| - 1;
      var gain := if |befores[n]| <= |vs[n].positions| then vs[n].positions[|befores[n]|..] else [];
      Gained(befores[..n], vs[..n]) + gain
  }

  /**
   * The association pass never hands a centroid to two vehicles: if every
   * vehicle of `vs` in turn took its share of the pool the previous ones left
   * (`pools[k]` to the k-th), then what the vehicles gained and what is left
   * over are, together, exactly the frame's centroids, and no vehicle gained
   * more than one.
   */
  lemma {:induction false} PassPartitions(befores: seq<seq<Point>>, unseens: seq<nat>, vs: seq<Vehicle>, pools: seq<seq<Point>>)
    requires |befores| == |unseens| == |vs| && |pools| == |vs| + 1
    requires forall k :: 0 <= k < |vs| ==> Turned(befores[k], unseens[k], vs[k], pools[k], pools[k + 1])
    ensures multiset(pools[0]) == multiset(pools[|vs|]) + multiset(Gained(befores, vs))
    ensures |Gained(befores, vs)| <= |vs|
    decreases |vs|
  {
    if vs != [] {
      var n := |vs| - 1;
      var bs, us, ws, ps := befores[..n], unseens[..n], vs[..n], pools[..n + 1];
      forall k | 0 <= k < n
        ensures Turned(bs[k], us[k], ws[k], ps[k], ps[k + 1])
      {
        assert bs[k] == befores[k] && us[k] == unseens[k] && ws[k] == vs[k];
        assert ps[k] == pools[k] && ps[k + 1] == pools[k + 1];
      }
      PassPartitions(bs, us, ws, ps);
      assert Turned(befores[n], unseens[n], vs[n], pools[n], pools[n + 1]);
      var last := befores[n][|befores[n]| - 1];
      var gain := vs[n].positions[|befores[n]|..];
      assert gain == Taken(last, pools[n]);
      assert Gained(befores, vs) == Gained(bs, ws) + gain;
      OfferPartitions(last, pools[n]);
    }
  }

  /** The vehicles of `vs` seen within the last MAX_UNSEEN_FRAMES frames, in list order. */
  function Recent(vs: seq<Vehicle>): seq<Vehicle>
    reads vs
    decreases |vs|
  {
    if vs == [] then []
    else
      var last := vs[|vs| - 1];
      Recent(vs[..|vs| - 1]) + (if last.framesSinceSeen < MAX_UNSEEN_FRAMES then [last] else [])
  }

  /** Expiry keeps exactly the recently seen vehicles. */
  lemma {:induction false} RecentAreTheRecentlySeen(vs: seq<Vehicle>)
    ensures forall v :: v in Recent(vs) ==> v in vs && v.framesSinceSeen < MAX_UNSEEN_FRAMES
    ensures forall v :: v in vs && v.framesSinceSeen < MAX_UNSEEN_FRAMES ==> v in Recent(vs)
    decreases |vs|
  {
    if vs != [] {
      RecentAreTheRecentlySeen(vs[..|vs| - 1]);
      assert vs == vs[..|vs| - 1] + [vs[|vs| - 1]];
    }
  }

  /** Expiry keeps the survivors' relative order, so ascending ids stay ascending. */
  lemma {:induction false} RecentKeepsIdOrder(vs: seq<Vehicle>)
    requires forall a, b :: 0 <= a < b < |vs| ==> vs[a].id < vs[b].id
    ensures forall a, b :: 0 <= a < b < |Recent(vs)| ==> Recent(vs)[a].id < Recent(vs)[b].id
    decreases |vs|
  {
    if vs != [] {
      var n := |vs| - 1;
      var init := vs[..n];
      RecentKeepsIdOrder(init);
      RecentAreTheRecentlySeen(init);
      var r := Recent(init);
      forall a | 0 <= a < |r|
        ensures r[a].id < vs[n].id
      {
        assert r[a] in r;
        assert r[a] in init;
        var j :| 0 <= j < |init| && init[j] == r[a];
      }
    }
  }

  class VehicleCounter {
    const width: int
    const height: int
    /** Frames per second of the video; speeds divide by it. */
    const fps: real

    var vehicles: seq<Vehicle>
    var nextVehicleId: int

    /** Every vehicle is well formed; ids are below next_vehicle_id and increase along the list. */
    ghost predicate Valid()
      reads this, vehicles
    {
      && (forall k :: 0 <= k < |vehicles| ==> vehicles[k].Valid() && vehicles[k].id < nextVehicleId)
      && (forall a, b :: 0 <= a < b < |vehicles| ==> vehicles[a].id < vehicles[b].id)
    }

    constructor (width: int, height: int, fps: real)
      ensures Valid()
      ensures this.width == width && this.height == height && this.fps == fps
      ensures vehicles == [] && nextVehicleId == 0
    {
      this.width, this.height, this.fps := width, height, fps;
      vehicles := [];
      nextVehicleId := 0;
    }

    /**
     * Offers the pool to one vehicle: the first centroid within reach of its
     * last position is appended to its history and its index returned;
     * with none in reach, the vehicle goes one more frame unseen.
     */
    method UpdateVehicle(vehicle: Vehicle, matches: seq<Point>) returns (found: Option<nat>)
      requires vehicle.Valid()
      modifies vehicle`positions, vehicle`framesSinceSeen
      ensures vehicle.Valid()
      ensures found == FirstInReach(old(vehicle.LastPosition()), matches)
      ensures vehicle.positions == old(vehicle.positions) + Taken(old(vehicle.LastPosition()), matches)
      ensures vehicle.framesSinceSeen == if found.Some? then 0 else old(vehicle.framesSinceSeen) + 1
    {
      var i := 0;
      while i < |matches|
        invariant 0 <= i <= |matches|
        invariant forall j :: 0 <= j < i ==> !IsValidDistance(SquaredDistance(vehicle.LastPosition(), matches[j]))
      {
        var distance := SquaredDistance(vehicle.LastPosition(), matches[i]);
        if IsValidDistance(distance) {
          ghost var first := FirstInReach(vehicle.LastPosition(), matches);
          assert first == Some(i);
          vehicle.AddPosition(matches[i]);
          return Some(i);
        }
        i := i + 1;
      }
      vehicle.framesSinceSeen := vehicle.framesSinceSeen + 1;
      return None;
    }

    /**
     * One vehicle's turn in the association pass: `vehicle` is offered `pool`
     * and what it takes is deleted from it, leaving `rest`.
     */
    method Turn(vehicle: Vehicle, pool: seq<Point>) returns (rest: seq<Point>)
      requires vehicle.Valid()
      modifies vehicle`positions, vehicle`framesSinceSeen
      ensures Turned(old(vehicle.positions), old(vehicle.framesSinceSeen), vehicle, pool, rest)
    {
      rest := pool;
      var found := UpdateVehicle(vehicle, pool);
      if found.Some? {
        rest := pool[..found.value] + pool[found.value + 1..];
      }
    }

    /**
     * The association pass: every vehicle, in list order, is offered the pool
     * its predecessors left (`pools[k]` to the k-th), and the centroid it
     * takes is deleted from the pool.
     */
    method MatchAll(matches: seq<Point>) returns (leftover: seq<Point>, ghost pools: seq<seq<Point>>)
      requires Valid()
      modifies vehicles`positions, vehicles`framesSinceSeen
      ensures Valid()
      ensures |pools| == |vehicles| + 1 && pools[0] == matches && pools[|vehicles|] == leftover
      ensures forall k :: 0 <= k < |vehicles| ==>
        Turned(old(vehicles[k].positions), old(vehicles[k].framesSinceSeen), vehicles[k], pools[k], pools[k + 1])
    {
      var vs := vehicles;
      leftover, pools := matches, [matches];
      var i := 0;
      while i < |vs|
        invariant 0 <= i <= |vs|
        invariant |pools| == i + 1 && pools[0] == matches && pools[i] == leftover
        invariant forall k :: 0 <= k < i ==> vs[k].Valid()
        invariant forall k :: 0 <= k < i ==>
          Turned(old(vs[k].positions), old(vs[k].framesSinceSeen), vs[k], pools[k], pools[k + 1])
        invariant forall k :: i <= k < |vs| ==> unchanged(vs[k])
      {
        var vehicle := vs[i];
        leftover := Turn(vehicle, leftover);
        pools := pools + [leftover];
        i := i + 1;
      }
    }

    /** Starts a vehicle at every centroid left in the pool, in pool order, with consecutive ids. */
    method SpawnAll(pool: seq<Point>, frameNumber: int) returns (ghost spawned: seq<Vehicle>)
      requires Valid()
      modifies this`vehicles, this`nextVehicleId
      ensures Valid()
      ensures |spawned| == |pool|
      ensures vehicles == old(vehicles) + spawned && nextVehicleId == old(nextVehicleId) + |pool|
      ensures forall k :: 0 <= k < |pool| ==>
        fresh(spawned[k]) && Started(spawned[k], pool[k], old(nextVehicleId) + k, frameNumber)
    {
      spawned := [];
      var j := 0;
      while j < |pool|
        invariant 0 <= j <= |pool| && |spawned| == j
        invariant Valid()
        invariant vehicles == old(vehicles) + spawned && nextVehicleId == old(nextVehicleId) + j
        invariant forall k :: 0 <= k < j ==>
          fresh(spawned[k]) && Started(spawned[k], pool[k], old(nextVehicleId) + k, frameNumber)
      {
        var v := new Vehicle(nextVehicleId, pool[j], frameNumber);
        Enlist(v);
        spawned := spawned + [v];
        j := j + 1;
      }
    }

    /** Appends a vehicle carrying the next id. */
    method Enlist(v: Vehicle)
      requires Valid() && v.Valid() && v.id == nextVehicleId
      modifies this`vehicles, this`nextVehicleId
      ensures Valid()
      ensures vehicles == old(vehicles) + [v] && nextVehicleId == old(nextVehicleId) + 1
    {
      vehicles := vehicles + [v];
      nextVehicleId := nextVehicleId + 1;
    }

    /** Re-estimates the speed of every vehicle for frame `frameNumber`. */
    method MeasureAll(frameNumber: int)
      requires Valid()
      requires fps != 0.0 || vehicles == []
      modifies vehicles`speed
      ensures Valid()
      ensures forall k :: 0 <= k < |vehicles| ==>
        vehicles[k].speed == Estimate(vehicles[k].positions, vehicles[k].startFrame, frameNumber)
    {
      var vs := vehicles;
      var i := 0;
      while i < |vs|
        invariant 0 <= i <= |vs|
        invariant forall k :: 0 <= k < i ==> vs[k].speed == Estimate(vs[k].positions, vs[k].startFrame, frameNumber)
      {
        var vehicle := vs[i];
        vehicle.speed := Estimate(vehicle.positions, vehicle.startFrame, frameNumber);
        i := i + 1;
      }
    }

    /** Drops the vehicles unseen for MAX_UNSEEN_FRAMES frames or more, keeping the others in order. */
    method Expire()
      requires Valid()
      modifies this`vehicles
      ensures Valid()
      ensures vehicles == Recent(old(vehicles))
      ensures forall v :: v in vehicles <==> v in old(vehicles) && v.framesSinceSeen < MAX_UNSEEN_FRAMES
    {
      RecentAreTheRecentlySeen(vehicles);
      RecentKeepsIdOrder(vehicles);
      forall k | 0 <= k < |Recent(vehicles)|
        ensures Recent(vehicles)[k].Valid() && Recent(vehicles)[k].id < nextVehicleId
      {
        assert Recent(vehicles)[k] in Recent(vehicles);
        assert Recent(vehicles)[k] in vehicles;
        var j :| 0 <= j < |vehicles| && vehicles[j] == Recent(vehicles)[k];
      }
      vehicles := Recent(vehicles);
    }

    /** Re-estimates every speed, then drops the vehicles gone unseen too long. */
    method Refresh(frameNumber: int)
      requires Valid()
      requires fps != 0.0 || vehicles == []
      modifies this`vehicles, vehicles`speed
      ensures Valid()
      ensures vehicles == Recent(old(vehicles))
      ensures forall v :: v in vehicles ==>
        v.framesSinceSeen < MAX_UNSEEN_FRAMES && v.speed == Estimate(v.positions, v.startFrame, frameNumber)
    {
      MeasureAll(frameNumber);
      ghost var all := vehicles;
      Expire();
      forall v | v in vehicles
        ensures v.speed == Estimate(v.positions, v.startFrame, frameNumber)
      {
        var k :| 0 <= k < |all| && all[k] == v;
      }
    }

    /** The end of a frame: spawning, speed estimates, expiry. */
    method Settle(pool: seq<Point>, frameNumber: int) returns (ghost spawned: seq<Vehicle>)
      requires Valid()
      requires fps != 0.0 || (vehicles == [] && pool == [])
      modifies this`vehicles, this`nextVehicleId, vehicles`speed
      ensures Valid()
      ensures |spawned| == |pool|
      ensures vehicles == Recent(old(vehicles) + spawned) && nextVehicleId == old(nextVehicleId) + |pool|
      ensures forall k :: 0 <= k < |pool| ==>
        fresh(spawned[k]) && Started(spawned[k], pool[k], old(nextVehicleId) + k, frameNumber)
      ensures forall v :: v in vehicles ==>
        v.framesSinceSeen < MAX_UNSEEN_FRAMES && v.speed == Estimate(v.positions, v.startFrame, frameNumber)
    {
      spawned := SpawnAll(pool, frameNumber);
      Refresh(frameNumber);
    }

    /**
     * One frame: association, spawning, speed estimates and expiry; the
     * result is the number of vehicles tracked afterwards.
     */
    method UpdateCount(matches: seq<Point>, frameNumber: int)
      returns (count: nat, ghost pools: seq<seq<Point>>, ghost spawned: seq<Vehicle>)
      requires Valid()
      requires fps != 0.0 || (vehicles == [] && matches == [])
      modifies this, vehicles
      ensures Valid() && count == |vehicles|
      ensures |pools| == |old(vehicles)| + 1 && pools[0] == matches
      ensures forall k :: 0 <= k < |old(vehicles)| ==>
        Turned(old(vehicles[k].positions), old(vehicles[k].framesSinceSeen), old(vehicles)[k], pools[k], pools[k + 1])
      ensures var leftover := pools[|old(vehicles)|];
        && |spawned| == |leftover|
        && vehicles == Recent(old(vehicles) + spawned)
        && nextVehicleId == old(nextVehicleId) + |leftover|
        && forall k :: 0 <= k < |leftover| ==>
             fresh(spawned[k]) && Started(spawned[k], leftover[k], old(nextVehicleId) + k, frameNumber)
      ensures forall v :: v in vehicles ==>
        v.framesSinceSeen < MAX_UNSEEN_FRAMES && v.speed == Estimate(v.positions, v.startFrame, frameNumber)
    {
      var pool;
      pool, pools := MatchAll(matches);
      spawned := Settle(pool, frameNumber);
      count := |vehicles|;
    }
  }
}
