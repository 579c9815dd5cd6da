# street-traffic tracking core, in Dafny

This project models the deterministic tracking core of *street-traffic*, a
program that times road vehicles in a video. The detector hands the tracker
one list of bounding rectangles per frame. From those lists the core keeps
persistent vehicle tracks.

- **`Geometry`** (`geometry.dfy`) is the rectangle vocabulary of
  `vehicle.py`:
  - overlap in x only;
  - the bounding union;
  - the last rectangle widened by 50 pixels ahead of travel (`Reach`);
  - the split of a detection pool into the detections a window takes
    (`Candidates`) and the ones it leaves (`Survivors`);
  - the running union of the candidates (`Cover`).
- **`Vehicles`** (`vehicle.dfy`) is the `Vehicle` class of `vehicle.py`:
  - the rectangle history;
  - association (`find_match`): scan the pool, delete the matches highest
    index first, and append their union;
  - the speed meter New → Active → Done, with the mph computed from the
    pixel traverse and the wall-clock interval.
- **`Tracking`** (`tracker.dfy`) is the `Tracker` registry:
  - the zone and size thresholds derived from the frame size;
  - one frame of `track`: each vehicle in list order takes its candidates
    from the pool its predecessors left, then runs the start/stop zone
    checks and the midpoint marker;
  - expiry after `MAX_UNSEEN_FRAMES` (10) unseen frames;
  - spawning new vehicles from the leftover detections that are big enough
    and touch the left or right edge.
- **`Counting`** (`vehicle_counter.dfy`) is the older centroid counter of
  `vehicle_counter.py`. Each vehicle takes the first centroid within 300
  pixels of its last position, and that centroid is deleted from the list.
  Leftover centroids start vehicles with consecutive ids. Speeds are
  re-estimated, and vehicles unseen for 30 frames are dropped.

Stateful entities are classes: `Vehicles.Vehicle`, `Tracking.Tracker`,
`Counting.Vehicle` and `Counting.VehicleCounter`. Their methods update fields
under `modifies` clauses. Loops stay loops, with invariants. Each method is
proved against a pure reference:
- `Survivors` and `Cover` for association;
- `Sweep` for a whole pass;
- `Admit` for spawning;
- `Young` and `Recent` for expiry;
- `SpeedStep` and `MidpointMark` for the zone checks;
- `FirstInReach`, `Offer` and `Taken` for the counter's matching.

The lemmas beside each reference state what the source promises about it.

The shared detection list is an in-place Python list. The model threads it
through the methods as a `seq` value: each method takes a pool and returns
what is left. The wall clock (`datetime.now()`) is an integer parameter
`now`, in microseconds.

Three places where the code's behaviour may surprise a reader; the model
follows the code:
- **Midpoint marker.** `check_for_midpoint` tests `not vehicle.center_frame`,
  so a marker set in frame 0 counts as unset and can be overwritten. See
  `Unmarked`.
- **Expiry threshold.** Expiry removes a vehicle once `frames_since_seen`
  reaches the threshold (`>=`), not once it exceeds it.
- **Malformed detections.** Detections with negative sizes or outside the
  frame are not dropped. The code has no such check.

## Model

| member | source | states |
|---|---|---|
| Geometry.OverlapsInX | vehicle.py:64-73 | For positive widths the test holds exactly when the two x-spans share an interior point (the larger left edge is left of the smaller right edge). A zero-width rectangle overlaps exactly when its x lies strictly inside the other's span. |
| Geometry.OverlapIsSymmetric | vehicle.py:64-73 | The x-overlap test gives the same verdict in either argument order. |
| Geometry.TouchingIsNotOverlap | vehicle.py:64-73 | Rectangles that only share an edge do not overlap (the test is strict). |
| Geometry.OverlapIgnoresY | vehicle.py:64-73 | The overlap verdict does not depend on either rectangle's y or height. |
| Geometry.Union | vehicle.py:75-91 | The union encloses both rectangles, and each of its four edges is the matching edge of one of them. |
| Geometry.UnionIsLeastBound | vehicle.py:75-91 | Every rectangle that encloses both encloses their union. Its left and top edges are the smaller of the two, its right and bottom edges the larger. |
| Geometry.UnionCommutes | vehicle.py:75-91 | The union does not depend on argument order. |
| Geometry.Reach | vehicle.py:100-109 | The search window keeps the y-extent and the trailing edge, is 50 pixels wider, and moves the leading edge 50 pixels further in the direction of travel: right when moving right, left otherwise. |
| Geometry.ReachTakesItself | vehicle.py:100-116 | A rectangle of positive width overlaps its own search window. |
| Geometry.PoolIsPartitioned | vehicle.py:113-129 | Candidates and survivors together are exactly the pool as a multiset, and their lengths add up to its length. |
| Geometry.CandidatesAreTheOverlapping | vehicle.py:113-122 | A detection is a candidate exactly when it is in the pool and overlaps the window. |
| Geometry.SurvivorsAreTheRest | vehicle.py:124-129 | A detection survives exactly when it is in the pool and does not overlap the window. |
| Geometry.SurvivorsDistribute | vehicle.py:124-129 | Filtering distributes over concatenation, so survivors keep their relative order. |
| Geometry.SurvivorsOfUntouched | vehicle.py:124-137 | A pool the window does not touch is returned whole. |
| Geometry.TakingHeadShrinks | vehicle.py:113-129 | When the first detection overlaps the window, it is the first candidate and the pool strictly shrinks. |
| Geometry.CoverEnclosesAll | vehicle.py:117-120 | The running union encloses every candidate it was folded over. |
| Geometry.CoverIsLeast | vehicle.py:117-120 | Every rectangle enclosing all candidates encloses their running union. |
| Geometry.CoverEdgesAreAttained | vehicle.py:117-120 | Each edge of the running union is the matching edge of some candidate. |
| Geometry.CoverOfFew | vehicle.py:117-120 | One candidate is taken verbatim; two are merged into exactly their union. |
| Vehicles.ClockMicros | vehicle.py:161-162 | The elapsed clock time drops whole days, is below one day, equals the true difference when that is under a day, and is zero exactly when the difference is a whole number of days. |
| Vehicles.MinimumTravelIsAHundredFeet | vehicle.py:157-171 | The traverses the speed gate accepts, 410 pixels and up, are exactly those of at least 100 feet at 4.1 pixels to the foot. |
| Vehicles.Mph | vehicle.py:151-172 | The mph is non-negative. It is zero exactly when the traverse is under 410 pixels or the clock interval is zero. Otherwise mph × miles-per-pixel × hours equals the pixel traverse. |
| Vehicles.Vehicle.constructor | vehicle.py:25-41 | A new vehicle has a one-rectangle history, is New, unseen for 0 frames, 0 mph, and has no start, centre or done bookkeeping. |
| Vehicles.Vehicle.LastPosition | vehicle.py:46-53 | The position is the leading edge (right when moving right, left otherwise) and the bottom of the last rectangle. |
| Vehicles.Vehicle.Age | vehicle.py:55-57 | The age plus the start frame is the frame number; the age is zero exactly in the start frame. |
| Vehicles.Vehicle.AddPosition | vehicle.py:59-62 | The rectangle is appended to the history and the unseen counter reset; the history stays non-empty. |
| Vehicles.Vehicle.FindMatch | vehicle.py:93-137 | The returned pool is the survivors of the widened last rectangle. With candidates, their running union is appended and the counter reset. Without, the history is unchanged and the counter goes up by one. |
| Vehicles.ScanPool | vehicle.py:111-122 | The scan records the indices of exactly the overlapping detections, in increasing order, and folds exactly the candidates into their running union. |
| Vehicles.DeleteMatched | vehicle.py:124-129 | Deleting the recorded indices from highest to lowest leaves exactly the survivors, in order. |
| Vehicles.GapIsClear | vehicle.py:124-129 | Between two consecutive recorded indices the pool holds no candidate. |
| Vehicles.LeadingGapIsClear | vehicle.py:124-129 | Before the first recorded index the pool holds no candidate, so that part of the pool survives whole. |
| Vehicles.DeleteCandidate | vehicle.py:127-129 | One deletion step extends the already-filtered tail of the pool down to the deleted index. |
| Vehicles.Vehicle.StartSpeed | vehicle.py:139-149 | From New, the meter goes to Active and records the leading edge, the frame and the clock instant. In any other state it changes nothing. |
| Vehicles.Vehicle.StopSpeed | vehicle.py:151-190 | The meter ends in Done at this frame, with the mph of the traverse from the recorded start edge over the clock time since the recorded instant. |
| Tracking.LeftEdgeOf | tracker.py:25-26 | The edge size is a tenth of the width truncated toward zero: for a non-negative width, 10·e ≤ width < 10·e + 10; for a negative one the mirror bound. |
| Tracking.MinWidthOf | tracker.py:29 | The width gate is 7.5% of the width truncated toward zero: 40·m ≤ 3·width < 40·m + 40 for a non-negative width, the mirror bound otherwise. |
| Tracking.MinHeightOf | tracker.py:30 | The height gate is 5% of the height truncated toward zero: 20·m ≤ height < 20·m + 20 for a non-negative height, the mirror bound otherwise. |
| Tracking.ZoneEdgesAreOrdered | tracker.py:25-30 | For a non-negative width, 0 ≤ left edge ≤ right edge ≤ width, and the minimum spawn width is between 0 and the width. |
| Tracking.Tracker.constructor | tracker.py:15-33 | The edges are int(10% of width) from each side; the spawn gates are int(7.5% of width) and int(5% of height); the centre is width/2 − 10. No vehicles, next id 0. |
| Tracking.SpeedStep | tracker.py:59-78 | The state never moves backwards, and Done is final. New stays New exactly when the start line does not fire. From Active, the meter reaches Done exactly when the stop line fires. |
| Tracking.StopLineIsBeyondStartLine | tracker.py:59-78 | With ordered edges, a rectangle past the stop line is past the start line, so any non-Done vehicle reaches Done in a frame exactly when the stop line fires. |
| Tracking.Tracker.StartStopSpeed | tracker.py:59-78 | The new state is the zone-check step from the old one. Leaving New records the leading edge, the frame and the clock instant; otherwise the start bookkeeping is unchanged. Reaching Done records the frame and the mph of the leading edge's traverse since the recorded start over the clock time since then; otherwise the mph and done frame are unchanged. |
| Tracking.Tracker.SameFrameStopReadsZero | vehicle.py:139-172 | A vehicle that leaves New and reaches Done in the same frame was timed over no clock time and reads 0 mph. |
| Tracking.MidpointMark | tracker.py:126-133 | A set marker never changes. A change is only to the current frame and only when the centre is near the shifted frame centre. An unset marker near the centre is set. |
| Tracking.NearCenter | tracker.py:130-131 | The real-valued centre test is exactly the integer test −60 < 2x + w − width + 20 < 60. |
| Tracking.Tracker.CheckForMidpoint | tracker.py:126-133 | The vehicle's marker becomes the one-shot marker step for its last rectangle. |
| Tracking.YoungAreTheRecentlySeen | tracker.py:80-96 | A vehicle survives expiry exactly when it was tracked and is unseen for fewer than 10 frames. |
| Tracking.CollectStale | tracker.py:83-94 | The removed list is exactly the vehicles unseen for 10 or more frames; the reported ones are exactly those among them still Active. |
| Tracking.Prune | tracker.py:96 | Filtering out the removed vehicles yields the young vehicles, in list order. |
| Tracking.YoungKeepsIdOrder | tracker.py:96 | Expiry keeps the survivors' order, so strictly increasing ids stay strictly increasing. |
| Tracking.YoungKeepsRoster | tracker.py:96 | Expiry keeps every survivor well formed, moving left or right, with an id below the next id and in id order. |
| Tracking.Tracker.RemoveOldVehicles | tracker.py:80-96 | The vehicle list becomes exactly the young vehicles, in order. Every survivor is unseen for fewer than 10 frames. The returned list holds exactly the expired vehicles that were still Active. |
| Tracking.AdmitSpawnsHead | tracker.py:102-122 | A head that is big enough and at an edge spawns the first vehicle, seeded with it and started with the union of its candidates; the rest spawn from the survivors. |
| Tracking.AdmittedSeedsQualify | tracker.py:102-122 | Every spawned vehicle's seed is strictly larger than both gates and touches the edge it moves away from (direction ±1); its first union encloses its seed. |
| Tracking.AdmittedSeedsComeFromPool | tracker.py:102-122 | The seeds are drawn from the pool, each detection at most as often as it occurs there. |
| Tracking.NoSpawnAwayFromEdges | tracker.py:106-114 | A pool with no big-enough detection at an edge spawns nothing. |
| Tracking.Launch | tracker.py:116-119 | A new vehicle seeded with the head runs its own association at once. It takes at least the head, starts with the head and the union of its candidates, and the pool strictly shrinks. |
| Tracking.Tracker.Enrol | tracker.py:121-122 | The vehicle is appended and the next id advances by one, keeping the registry valid. |
| Tracking.Tracker.AdmitHead | tracker.py:102-124 | One loop turn spawns at most one vehicle, exactly as the spawning reference does for this head, and leaves a strictly shorter pool whose spawns are the reference's remaining spawns. |
| Tracking.Tracker.AddNewVehicles | tracker.py:98-124 | Exactly the reference's spawns are appended, as fresh vehicles with consecutive ids from the next id, each New, with the seed and first union the reference gives. |
| Tracking.Tracker.Advance | tracker.py:42-45 | One vehicle's turn on a pool. With candidates in its window, their running union is appended and the unseen count reset; without, the history is unchanged and the count goes up by one. The meter then takes its zone-check step and the midpoint marker its one-shot step, both against the new last rectangle. Direction is unchanged, and the pool left is the survivors of the window. |
| Tracking.Tracker.AssociateAll | tracker.py:42-45 | Every vehicle, in list order, takes its turn on the pool its predecessors left: each vehicle's history, unseen count, meter and marker change exactly as in its per-frame step on that pool, and the next pool is the survivors of its window. |
| Tracking.ChainIsSweep | tracker.py:42-45 | The pool the last vehicle leaves is the sweep of all the vehicles' windows over the frame's detections. |
| Tracking.SweepLeavesUnclaimed | tracker.py:42-45 | Nothing the sweep leaves overlaps any existing vehicle's window: no detection taken by one vehicle is left for another or for spawning. |
| Tracking.SweepOnlyRemoves | tracker.py:42-45 | The sweep only removes detections. |
| Tracking.SpawnedSeedsWereUnclaimed | tracker.py:54-55 | Every seed spawned from the leftover pool lies outside every existing vehicle's window. |
| Tracking.Tracker.Renew | tracker.py:54-55 | After expiry and spawning, the list is the young vehicles followed by exactly the reference's spawns, and every vehicle is unseen for fewer than 10 frames. The returned list holds exactly the expired vehicles that were still Active. |
| Tracking.Tracker.Track | tracker.py:38-57 | One frame: each old vehicle, in list order, makes its per-frame step (association, meter, marker) on the pool its predecessors left. The new list is the young old vehicles followed by the vehicles spawned from the final pool. The result is the vehicle list; the expired vehicles still being timed are returned too. |
| Counting.SquaredDistance | vehicle_counter.py:62-66 | The squared distance is zero exactly when the two centroids coincide. |
| Counting.ValidDistanceIsWithin300 | vehicle_counter.py:62-71 | The squared-distance test accepts exactly the pairs whose Euclidean distance is at most 300. |
| Counting.FirstInReach | vehicle_counter.py:73-86 | The result is the least index whose centroid is within reach, or None exactly when no centroid is within reach. |
| Counting.OfferPartitions | vehicle_counter.py:93-96 | A vehicle's turn moves at most one centroid from the pool to the vehicle and loses none. |
| Counting.Vehicle.LastPosition | vehicle_counter.py:22-24 | The last position is the final centroid of the history: the history is the earlier centroids followed by it. |
| Counting.Vehicle.constructor | vehicle_counter.py:9-17 | A new vehicle's history is its first centroid; unseen for 0 frames; no speed yet. |
| Counting.Vehicle.AddPosition | vehicle_counter.py:22-28 | The centroid is appended, becomes the last position, and the unseen counter is reset; the history stays non-empty. |
| Counting.VehicleCounter.constructor | vehicle_counter.py:51-60 | No vehicles, next id 0, frame size and fps as given. |
| Counting.VehicleCounter.UpdateVehicle | vehicle_counter.py:73-86 | The returned index is that of the first centroid within 300 pixels of the last position, and that centroid is appended. With none in reach: None, the history unchanged, and the unseen counter plus one. |
| Counting.VehicleCounter.Turn | vehicle_counter.py:93-96 | A vehicle's turn deletes from the pool exactly the centroid it took. |
| Counting.VehicleCounter.MatchAll | vehicle_counter.py:93-96 | Every vehicle in list order takes its turn on the pool its predecessors left. Only the histories and unseen counters may change; speeds are left as they were. |
| Counting.PassPartitions | vehicle_counter.py:93-96 | Over a whole pass, the centroids the vehicles gained and those left over are exactly the frame's centroids: no centroid is given to two vehicles, and no vehicle gains more than one. |
| Counting.VehicleCounter.SpawnAll | vehicle_counter.py:100-117 | Every leftover centroid, in order, starts a fresh vehicle with consecutive ids from the next id, a one-centroid history and the current frame as start. |
| Counting.VehicleCounter.Enlist | vehicle_counter.py:114-117 | The vehicle is appended and the next id advances by one. |
| Counting.Estimate | vehicle_counter.py:120-130 | Every vehicle gets a speed. It is `Stationary` (0 mph) exactly when no frame has passed since the vehicle started; otherwise it is `Measured` with the squared distance from the first to the last centroid and the number of frames since the start. A zero distance there also reads 0 mph. |
| Counting.VehicleCounter.MeasureAll | vehicle_counter.py:120-132 | Every vehicle's speed is re-estimated from its first and last centroids and the frames since its start. |
| Counting.RecentAreTheRecentlySeen | vehicle_counter.py:141-145 | A vehicle survives exactly when it was tracked and is unseen for fewer than 30 frames. |
| Counting.RecentKeepsIdOrder | vehicle_counter.py:144-145 | The filter keeps the survivors' order, so increasing ids stay increasing. |
| Counting.VehicleCounter.Expire | vehicle_counter.py:141-145 | The list becomes exactly the vehicles unseen for fewer than 30 frames, in order. |
| Counting.VehicleCounter.Refresh | vehicle_counter.py:120-145 | After re-estimation and expiry, every remaining vehicle is unseen for fewer than 30 frames and carries this frame's estimate. |
| Counting.VehicleCounter.Settle | vehicle_counter.py:98-145 | Spawning, then estimation, then expiry. The list is the recent vehicles among the old ones followed by the new ones. |
| Counting.VehicleCounter.UpdateCount | vehicle_counter.py:90-153 | One frame: each old vehicle takes its turn on the pool chain. The leftover centroids start vehicles. Every remaining vehicle is unseen for fewer than 30 frames and has this frame's estimate. The result is the number of vehicles. |

## Left out

- Drawing, logging and the random display colour are left out: `draw`, `log`, the `cv2` calls, `log.debug` and `log.warning`, and `color`. `Tracker.track` takes `output_image` only to draw.
- `Vehicle.track` in `vehicle.py` is `find_match` followed by drawing. The tracker calls `FindMatch` directly.
- `photo`, `counted`, `vehicle_count`, `pixel_speed` and `log` are fields that the core never reads or updates meaningfully. They are not modelled.
- `datetime.now()` becomes the `now` parameter, an integer count of microseconds. Leap seconds and clock adjustments are not modelled.
- Vehicles.Mph: the speed is computed in exact real arithmetic, not in IEEE doubles, so its last bits are not claimed to match Python floats. The distance gate is taken from the double computation: `feet > 100` with `feet = pixels / 4.1` first holds at 410 pixels, because 410 / 4.1 rounds to 100.00000000000001.
- One clock instant per frame: `now` is read once per frame and shared by every vehicle's start and stop checks. The source calls `datetime.now()` afresh in each `start_speed` and `stop_speed`, so its instants differ by the time the frame's work takes, which is not modelled. A vehicle that starts and stops in the same frame therefore reads 0 mph here (`SameFrameStopReadsZero`); in the source its clock interval is a few microseconds, but its traverse is zero pixels, so it reads 0 there too.
- Counting.Estimate: the mph value (a square root of the squared pixel distance, divided by the hours) is not computed. The estimate keeps the squared pixel distance and the frame count it is computed from, plus the zero case. The square root is not modelled.
- Counting.IsValidDistance: the test compares the squared integer distance with 300². Python takes the square root of a float. For integer centroids the two agree (`ValidDistanceIsWithin300`), apart from float rounding, which is not modelled.
- Counting.VehicleCounter.UpdateCount: it requires `fps != 0` whenever a vehicle would be measured. With `fps == 0` Python raises ZeroDivisionError, and that error path is not modelled.
- Tracking.Tracker.constructor: it requires a non-negative width. With a width of −14 or less the minimum spawn width is negative (for widths −13 to −1, `int(width * 0.075)` truncates to 0). A zero-width head could then spawn a vehicle that takes no detection, and `add_new_vehicles` would never finish.
- The detection list is modelled as a value passed in and returned. In-place identity is not modelled: the caller's list being mutated, and `self.vehicles[:] =` keeping the same list object.
- The counter's matches are `(contour, centroid)` pairs. Only the centroid is modelled, because the contour is only passed to `add_position`, which ignores it.
- `main.py`, `detector.py`, `video.py`, `log.py` and `debug_video.py` are not part of this model: video input, background subtraction, photo capture and persistence.
- Concurrency is not modelled: the program processes frames one at a time.
