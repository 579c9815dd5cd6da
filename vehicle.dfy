/**
 * One tracked vehicle: its rectangle history, the association step that
 * continues the track from a frame's detection pool, and the three-state
 * speed meter New -> Active -> Done.
 */
module Vehicles {
  import opened Wrappers
  import opened Geometry

  /** Lifecycle of the speed measurement. */
  datatype State =
    | New     // entered the frame, start line not yet crossed
    | Active  // start line crossed, stop line not yet crossed
    | Done    // stop line crossed, speed recorded

  /** Position of a state in the order New < Active < Done. */
  function Rank(s: State): nat {
    match s
    case New => 0
    case Active => 1
    case Done => 2
  }

  const PIXELS_PER_FOOT: real := 4.1
  const FEET_PER_MILE: real := 5280.0
  const PIXELS_PER_MILE: real := PIXELS_PER_FOOT * FEET_PER_MILE
  const SECONDS_PER_HOUR: real := 3600.0
  const MIN_FEET_OF_TRAVEL: real := 100.0

  const MICROS_PER_SECOND: int := 1_000_000
  const MICROS_PER_DAY: int := 86_400_000_000

  function Abs(a: int): nat { if a < 0 then -a else a }

  /**
   * The elapsed clock time, in microseconds, as stop_speed reads it from the
   * difference of two wall-clock instants: seconds plus microseconds of the
   * difference, with its whole-day part dropped.
   */
  function ClockMicros(start: int, now: int): (r: nat)
    ensures r < MICROS_PER_DAY
    ensures 0 <= now - start < MICROS_PER_DAY ==> r == now - start
    ensures (r == 0) == ((now - start) % MICROS_PER_DAY == 0)
  {
    (now - start) % MICROS_PER_DAY
  }

  /**
   * The fewest whole pixels of travel that count as more than
   * MIN_FEET_OF_TRAVEL feet. The feet are computed in double precision as
   * pixels / 4.1, and 410 / 4.1 rounds up to 100.00000000000001, which passes
   * the strict test; 409 pixels is about 99.76 feet, which does not.
   */
  const MIN_PIXELS_OF_TRAVEL: nat := 410

  /**
   * In exact arithmetic the accepted traverses are those of at least
   * MIN_FEET_OF_TRAVEL feet; the strict double-precision test lets the
   * boundary case through.
   */
  lemma MinimumTravelIsAHundredFeet(pixels: nat)
    ensures pixels >= MIN_PIXELS_OF_TRAVEL <==> pixels as real / PIXELS_PER_FOOT >= MIN_FEET_OF_TRAVEL
  {
    var feet := pixels as real / PIXELS_PER_FOOT;
    assert feet * PIXELS_PER_FOOT == pixels as real;
  }

  /**
   * Speed in miles per hour for a traverse of `pixels` pixels that took
   * `clockMicros` microseconds of clock time. A traverse shorter than
   * MIN_PIXELS_OF_TRAVEL pixels is noise and reads 0, and so does a timing
   * window of zero length.
   */
  function Mph(pixels: nat, clockMicros: nat): (mph: real)
    ensures mph >= 0.0
    ensures mph == 0.0 <==> pixels < MIN_PIXELS_OF_TRAVEL || clockMicros == 0
    ensures pixels >= MIN_PIXELS_OF_TRAVEL && clockMicros > 0 ==>
      mph * (PIXELS_PER_MILE * clockMicros as real) == pixels as real * SECONDS_PER_HOUR * MICROS_PER_SECOND as real
  {
    var miles := pixels as real / PIXELS_PER_MILE;
    var clockSecs := clockMicros as real / MICROS_PER_SECOND as real;
    var cmph := if clockSecs > 0.0 then miles / (clockSecs / SECONDS_PER_HOUR) else 0.0;
    if pixels >= MIN_PIXELS_OF_TRAVEL then cmph else 0.0
  }

  /** The speed meter's bookkeeping, as a value. */
  datatype Meter = Meter(
    state: State, mph: real,
    startX: Option<int>, startFrame: Option<int>, startTime: Option<int>, doneFrame: Option<int>)

  /** The part of a vehicle one frame of tracking changes, with its direction of travel. */
  datatype Snapshot = Snapshot(
    direction: int, rects: seq<Rect>, framesSinceSeen: nat, centerFrame: Option<int>, meter: Meter)

  class Vehicle {
    const id: int
    const direction: int
    const startFrame: int

    /** Rectangle history: seeded at creation, one rectangle appended per matched frame. */
    var rects: seq<Rect>
    var state: State
    var framesSinceSeen: nat
    var mph: real
    var speedStartX: Option<int>
    var speedStartFrame: Option<int>
    var speedStartTime: Option<int>
    var centerFrame: Option<int>
    var doneFrame: Option<int>

    /**
     * The history is never empty; the speed bookkeeping is filled in exactly
     * when the meter leaves New, the done frame exactly when it reaches Done,
     * and a speed is only ever recorded on reaching Done.
     */
    ghost predicate Valid()
      reads this
    {
      && |rects| > 0
      && (state == New <==> speedStartX == None)
      && (state == New <==> speedStartFrame == None)
      && (state == New <==> speedStartTime == None)
      && (state == Done <==> doneFrame != None)
      && mph >= 0.0
      && (state != Done ==> mph == 0.0)
    }

    constructor (vehicleId: int, direction: int, rect: Rect, startFrame: int)
      ensures Valid()
      ensures id == vehicleId && this.direction == direction && this.startFrame == startFrame
      ensures rects == [rect] && state == New && framesSinceSeen == 0 && mph == 0.0
      ensures centerFrame == None && doneFrame == None
    {
      id := vehicleId;
      this.direction := direction;
      this.startFrame := startFrame;
      rects := [rect];
      state := New;
      framesSinceSeen := 0;
      mph := 0.0;
      speedStartX, speedStartFrame, speedStartTime := None, None, None;
      centerFrame, doneFrame := None, None;
    }

    /** The vehicle's tracking state as a value. */
    ghost function Snap(): Snapshot
      reads this
    {
      Snapshot(direction, rects, framesSinceSeen, centerFrame, Gauge())
    }

    /** The vehicle's speed meter as a value. */
    ghost function Gauge(): Meter
      reads this
    {
      Meter(state, mph, speedStartX, speedStartFrame, speedStartTime, doneFrame)
    }

    /** The most recent rectangle of the history. */
    function Last(): Rect
      reads this
      requires |rects| > 0
    {
      rects[|rects| - 1]
    }

    /** The leading edge and the bottom edge of the most recent rectangle. */
    function LastPosition(): (p: (int, int))
      reads this
      requires |rects| > 0
      ensures direction > 0 ==> p.0 == Last().x + Last().w
      ensures direction <= 0 ==> p.0 == Last().x
      ensures p.1 == Last().y + Last().h
    {
      (LeadingEdge(Last(), direction), Last().Bottom())
    }

    /** Frames since the vehicle was created. */
    function Age(frameNumber: int): (age: int)
      ensures age + startFrame == frameNumber
      ensures age == 0 <==> frameNumber == startFrame
    {
      frameNumber - startFrame
    }

    method AddPosition(r: Rect)
      requires Valid()
      modifies this`rects, this`framesSinceSeen
      ensures Valid()
      ensures rects == old(rects) + [r] && framesSinceSeen == 0
    {
      rects := rects + [r];
      framesSinceSeen := 0;
    }

    /**
     * Association. Every detection of `matches` that overlaps, in x, the last
     * rectangle widened ahead of travel is a candidate. The candidates are
     * taken out of the pool (the survivors keep their order) and their union
     * is appended to the history; with no candidate the vehicle goes one more
     * frame unseen. Identity, direction and the speed meter are outside the
     * frame of this method and cannot change.
     */
    method FindMatch(matches: seq<Rect>) returns (rest: seq<Rect>)
      requires Valid()
      modifies this`rects, this`framesSinceSeen
      ensures Valid()
      ensures rest == Survivors(Reach(old(Last()), direction), matches)
      ensures Candidates(Reach(old(Last()), direction), matches) != [] ==>
        rects == old(rects) + [Cover(Candidates(Reach(old(Last()), direction), matches))] &&
        framesSinceSeen == 0
      ensures Candidates(Reach(old(Last()), direction), matches) == [] ==>
        rects == old(rects) && framesSinceSeen == old(framesSinceSeen) + 1
    {
      var window := Reach(rects[|rects| - 1], direction);
      var merged, matched := ScanPool(window, matches);
      rest := matches;
      if |matched| > 0 {
        rest := DeleteMatched(window, matches, matched);
        AddPosition(merged);
      } else {
        SurvivorsOfUntouched(window, matches);
        framesSinceSeen := framesSinceSeen + 1;
      }
    }

    /**
     * Starts timing: only from New, recording the leading edge of the last
     * rectangle, the frame and the clock instant `now`; in any other state it
     * changes nothing.
     */
    method StartSpeed(frameNumber: int, now: int)
      requires Valid()
      modifies this`state, this`speedStartX, this`speedStartFrame, this`speedStartTime
      ensures Valid()
      ensures old(state) == New ==>
        && state == Active
        && speedStartX == Some(LeadingEdge(Last(), direction))
        && speedStartFrame == Some(frameNumber)
        && speedStartTime == Some(now)
      ensures old(state) != New ==>
        && state == old(state)
        && speedStartX == old(speedStartX)
        && speedStartFrame == old(speedStartFrame)
        && speedStartTime == old(speedStartTime)
    {
      if state != New {
        return;
      }
      state := Active;
      var (x, _) := LastPosition();
      speedStartX := Some(x);
      speedStartFrame := Some(frameNumber);
      speedStartTime := Some(now);
    }

    /**
     * Stops timing: always ends in Done at `frameNumber`, with the speed of
     * the traverse from the recorded start edge to the current leading edge
     * over the clock time since the recorded start instant.
     */
    method StopSpeed(frameNumber: int, now: int)
      requires Valid() && state != New
      modifies this`state, this`mph, this`doneFrame
      ensures Valid()
      ensures state == Done && doneFrame == Some(frameNumber)
      ensures mph == Mph(Abs(LeadingEdge(Last(), direction) - speedStartX.value),
                         ClockMicros(speedStartTime.value, now))
    {
      var (x, _) := LastPosition();
      var pixels := Abs(x - speedStartX.value);
      var clockMicros := ClockMicros(speedStartTime.value, now);
      mph := Mph(pixels, clockMicros);
      state := Done;
      doneFrame := Some(frameNumber);
    }
  }

  /** Indices strictly increasing: the order in which the pool was scanned. */
  predicate Increasing(indices: seq<nat>) {
    forall a, b :: 0 <= a < b < |indices| ==> indices[a] < indices[b]
  }

  /**
   * The scan of find_match: walks the pool once, folding every detection that
   * overlaps `window` into `merged` (the first verbatim, later ones by union)
   * and recording its index.
   */
  method ScanPool(window: Rect, matches: seq<Rect>) returns (merged: Rect, matched: seq<nat>)
    ensures |matched| == |Candidates(window, matches)|
    ensures |matched| > 0 ==> merged == Cover(Candidates(window, matches))
    ensures Increasing(matched)
    ensures forall k :: 0 <= k < |matched| ==> matched[k] < |matches|
    ensures forall j :: 0 <= j < |matches| ==> (OverlapsInX(window, matches[j]) <==> j in matched)
    ensures matched == Overlapping(window, matches)
  {
    merged := Rect(0, 0, 0, 0);
    var matchCount := 0;
    matched := [];
    ghost var cands: seq<Rect> := [];
    var i := 0;
    while i < |matches|
      invariant 0 <= i <= |matches|
      invariant cands == Candidates(window, matches[..i])
      invariant matched == Overlapping(window, matches[..i])
      invariant matchCount == |matched| == |cands|
      invariant matchCount > 0 ==> merged == Cover(cands)
    {
      var m := matches[i];
      ScanStep(window, matches, i);
      if OverlapsInX(window, m) {
        if matchCount == 0 {
          merged := m;
        } else {
          CoverStep(cands, m);
          merged := Union(merged, m);
        }
        cands := cands + [m];
        matchCount := matchCount + 1;
        matched := matched + [i];
      }
      i := i + 1;
    }
    assert matches[..|matches|] == matches;
    OverlappingIndexes(window, matches);
  }

  /** The indices of the detections of `pool` that overlap `window`, in pool order. */
  function Overlapping(window: Rect, pool: seq<Rect>): seq<nat>
    decreases |pool|
  {
    if pool == [] then []
    else
      var n := |pool| - 1;
      Overlapping(window, pool[..n]) + (if OverlapsInX(window, pool[n]) then [n] else [])
  }

  /** The overlapping indices are increasing, in range, one per candidate, and exactly the overlapping ones. */
  lemma {:induction false} OverlappingIndexes(window: Rect, pool: seq<Rect>)
    ensures |Overlapping(window, pool)| == |Candidates(window, pool)|
    ensures Increasing(Overlapping(window, pool))
    ensures forall k :: 0 <= k < |Overlapping(window, pool)| ==> Overlapping(window, pool)[k] < |pool|
    ensures forall j :: 0 <= j < |pool| ==> (OverlapsInX(window, pool[j]) <==> j in Overlapping(window, pool))
    decreases |pool|
  {
    if pool != [] {
      var n := |pool| - 1;
      var init := pool[..n];
      OverlappingIndexes(window, init);
      assert forall j :: 0 <= j < n ==> pool[j] == init[j];
    }
  }

  /** Scanning one more detection adds it (and its index) exactly when it overlaps the window. */
  lemma ScanStep(window: Rect, matches: seq<Rect>, i: nat)
    requires i < |matches|
    ensures Candidates(window, matches[..i + 1]) ==
      Candidates(window, matches[..i]) + (if OverlapsInX(window, matches[i]) then [matches[i]] else [])
    ensures Overlapping(window, matches[..i + 1]) ==
      Overlapping(window, matches[..i]) + (if OverlapsInX(window, matches[i]) then [i] else [])
  {
    assert matches[..i + 1][..i] == matches[..i];
  }

  /** Folding one more rectangle into a cover is one more union. */
  lemma CoverStep(rs: seq<Rect>, r: Rect)
    requires rs != []
    ensures Cover(rs + [r]) == Union(Cover(rs), r)
  {
    assert (rs + [r])[..|rs|] == rs;
  }

  /**
   * The deletion of find_match: removes the recorded indices from the pool,
   * highest first so that the lower indices stay valid. What is left is the
   * pool minus its candidates, in the original order.
   */
  method DeleteMatched(ghost window: Rect, matches: seq<Rect>, matched: seq<nat>) returns (pool: seq<Rect>)
    requires |matched| > 0 && matched == Overlapping(window, matches)
    ensures pool == Survivors(window, matches)
  {
    pool := matches;
    var k := |matched|;
    assert matches[|matches|..] == [];
    while k > 0
      invariant 0 <= k <= |matched|
      invariant Cut(matched, k, |matches|) <= |matches|
      invariant pool == Pending(window, matches, Cut(matched, k, |matches|))
    {
      k := k - 1;
      var m := matched[k];
      DeleteStep(window, matches, matched, k);
      pool := pool[..m] + pool[m + 1..];
    }
    LeadingGapIsClear(window, matches, matched);
    DeleteFinish(window, matches, matched[0]);
  }

  /** The pool while deleting: untouched up to `cut`, already filtered from there on. */
  function Pending(window: Rect, matches: seq<Rect>, cut: nat): seq<Rect>
    requires cut <= |matches|
  {
    matches[..cut] + Survivors(window, matches[cut..])
  }

  /** Deleting the `k`-th recorded index extends the filtered tail down to that index. */
  lemma DeleteStep(window: Rect, matches: seq<Rect>, matched: seq<nat>, k: nat)
    requires k < |matched| && matched == Overlapping(window, matches)
    ensures matched[k] < Cut(matched, k + 1, |matches|) <= |matches|
    ensures var current := Pending(window, matches, Cut(matched, k + 1, |matches|));
      matched[k] < |current| &&
      current[..matched[k]] + current[matched[k] + 1..] == Pending(window, matches, matched[k])
  {
    GapIsClear(window, matches, matched, k);
    var m, cut := matched[k], Cut(matched, k + 1, |matches|);
    SurvivorsOfUntouched(window, matches[m + 1..cut]);
    DeleteCandidate(window, matches, m, cut);
  }

  /** Once every recorded index is deleted, the pool is the survivors: nothing before the first one is removed. */
  lemma DeleteFinish(window: Rect, matches: seq<Rect>, first: nat)
    requires first <= |matches| && Survivors(window, matches[..first]) == matches[..first]
    ensures Survivors(window, matches) == matches[..first] + Survivors(window, matches[first..])
  {
    SurvivorsSplit(window, matches, first);
  }

  /** Where the not-yet-deleted part of the pool ends after `k` candidates remain undeleted. */
  function Cut(matched: seq<nat>, k: nat, n: nat): nat
    requires k <= |matched|
  {
    if k == |matched| then n else matched[k]
  }

  /** Between the `k`-th recorded index and the next one (or the end) the pool holds no candidate. */
  lemma GapIsClear(window: Rect, matches: seq<Rect>, matched: seq<nat>, k: nat)
    requires k < |matched| && matched == Overlapping(window, matches)
    ensures matched[k] < Cut(matched, k + 1, |matches|) <= |matches|
    ensures OverlapsInX(window, matches[matched[k]])
    ensures forall j :: matched[k] < j < Cut(matched, k + 1, |matches|) ==> !OverlapsInX(window, matches[j])
  {
    OverlappingIndexes(window, matches);
    forall j | matched[k] < j < Cut(matched, k + 1, |matches|)
      ensures !OverlapsInX(window, matches[j])
    {
      NotRecorded(matched, k, j, |matches|);
    }
  }

  /** An index strictly between two consecutive recorded indices is not recorded. */
  lemma NotRecorded(matched: seq<nat>, k: nat, j: int, n: nat)
    requires k < |matched| && Increasing(matched) && matched[k] < j < Cut(matched, k + 1, n)
    ensures j !in matched
  {
    forall t | 0 <= t < |matched|
      ensures matched[t] != j
    {
      if t > k {
        assert matched[k + 1] <= matched[t];
      }
    }
  }

  /** Before the first recorded index the pool holds no candidate, so nothing there is removed. */
  lemma LeadingGapIsClear(window: Rect, matches: seq<Rect>, matched: seq<nat>)
    requires |matched| > 0 && matched == Overlapping(window, matches)
    ensures matched[0] < |matches|
    ensures Survivors(window, matches[..matched[0]]) == matches[..matched[0]]
  {
    OverlappingIndexes(window, matches);
    var head := matches[..matched[0]];
    forall j | 0 <= j < |head|
      ensures !OverlapsInX(window, head[j])
    {
      assert j !in matched;
    }
    SurvivorsOfUntouched(window, head);
  }

  /**
   * Deleting candidate `m`, the last one left before `cut`, from a pool whose
   * tail from `cut` on is already filtered extends the filtered tail to `m`.
   */
  lemma DeleteCandidate(window: Rect, pool: seq<Rect>, m: nat, cut: nat)
    requires m < cut <= |pool|
    requires OverlapsInX(window, pool[m])
    requires Survivors(window, pool[m + 1..cut]) == pool[m + 1..cut]
    ensures var current := Pending(window, pool, cut);
      m < |current| && current[..m] + current[m + 1..] == Pending(window, pool, m)
  {
    SurvivorsFrom(window, pool, m, m + 1);
    assert pool[m..m + 1] == [pool[m]];
    assert Survivors(window, [pool[m]]) == [];
    SurvivorsFrom(window, pool, m + 1, cut);
    TakeOfAppend(pool[..cut], Survivors(window, pool[cut..]), m);
    DropOfAppend(pool[..cut], Survivors(window, pool[cut..]), m + 1);
    assert pool[..cut][..m] == pool[..m];
  }

  /** A prefix that ends inside `a` does not reach `b`. */
  lemma TakeOfAppend(a: seq<Rect>, b: seq<Rect>, k: nat)
    requires k <= |a|
    ensures (a + b)[..k] == a[..k]
  {
  }

  /** A suffix that starts inside `a` keeps all of `b`. */
  lemma DropOfAppend(a: seq<Rect>, b: seq<Rect>, k: nat)
    requires k <= |a|
    ensures (a + b)[k..] == a[k..] + b
  {
  }
}
