/**
 * Integer bounding rectangles of detections and the rectangle vocabulary of
 * the association engine: x-only overlap, union, the search window widened
 * ahead of travel, and the split of a detection pool into the detections a
 * window takes and the ones it leaves behind.
 */
module Geometry {

  /** A detection or a tracked position: left edge, top edge, width, height (pixels). */
  datatype Rect = Rect(x: int, y: int, w: int, h: int) {
    function Right(): int { x + w }
    function Bottom(): int { y + h }
  }

  function Min(a: int, b: int): int { if a <= b then a else b }
  function Max(a: int, b: int): int { if a <= b then b else a }

  /** Pixels the search window is widened ahead of the direction of travel. */
  const EXTEND: int := 50

  /**
   * Each rectangle's right edge lies past the other's left edge. For
   * rectangles of positive width that is: the x-extents share a pixel
   * column. A rectangle of width zero still overlaps one whose extent holds
   * its left edge strictly inside. The y-extents are not consulted.
   */
  function OverlapsInX(a: Rect, b: Rect): (o: bool)
    ensures a.w > 0 && b.w > 0 ==> (o <==> Max(a.x, b.x) < Min(a.Right(), b.Right()))
    ensures a.w == 0 ==> (o <==> b.x < a.x < b.Right())
  {
    a.Right() > b.x && a.x < b.Right()
  }

  /** Smallest rectangle spanning both arguments, edge by edge. */
  function Union(a: Rect, b: Rect): (u: Rect)
    ensures Encloses(u, a) && Encloses(u, b)
    ensures (u.x == a.x || u.x == b.x) && (u.Right() == a.Right() || u.Right() == b.Right())
    ensures (u.y == a.y || u.y == b.y) && (u.Bottom() == a.Bottom() || u.Bottom() == b.Bottom())
  {
    var x := Min(a.x, b.x);
    var y := Min(a.y, b.y);
    Rect(x, y, Max(a.Right(), b.Right()) - x, Max(a.Bottom(), b.Bottom()) - y)
  }

  /** Every edge of `inner` lies on or inside the matching edge of `outer`. */
  predicate Encloses(outer: Rect, inner: Rect) {
    outer.x <= inner.x && inner.Right() <= outer.Right() &&
    outer.y <= inner.y && inner.Bottom() <= outer.Bottom()
  }

  /** The x-coordinate of the side of `r` that faces the direction of travel. */
  function LeadingEdge(r: Rect, direction: int): int {
    if direction > 0 then r.Right() else r.x
  }

  /**
   * The last known rectangle widened by EXTEND on the side ahead of travel:
   * the trailing edge, y and h stay, the leading edge moves EXTEND pixels on.
   */
  function Reach(r: Rect, direction: int): (window: Rect)
    ensures window.x <= r.x && r.Right() <= window.Right()
    ensures window.w == r.w + EXTEND
    ensures window.y == r.y && window.h == r.h
    ensures direction > 0 ==> window.x == r.x && window.Right() == r.Right() + EXTEND
    ensures direction <= 0 ==> window.x == r.x - EXTEND && window.Right() == r.Right()
    ensures LeadingEdge(window, direction) == LeadingEdge(r, direction) + (if direction > 0 then EXTEND else -EXTEND)
  {
    if direction > 0 then Rect(r.x, r.y, r.w + EXTEND, r.h)
    else Rect(r.x - EXTEND, r.y, r.w + EXTEND, r.h)
  }

  /** The detections of `pool` that overlap `window` in x, in pool order. */
  function Candidates(window: Rect, pool: seq<Rect>): seq<Rect>
    decreases |pool|
  {
    if pool == [] then []
    else
      var last := pool[|pool| - 1];
      Candidates(window, pool[..|pool| - 1]) + (if OverlapsInX(window, last) then [last] else [])
  }

  /** The detections of `pool` that do not overlap `window` in x, in pool order. */
  function Survivors(window: Rect, pool: seq<Rect>): seq<Rect>
    decreases |pool|
  {
    if pool == [] then []
    else
      var last := pool[|pool| - 1];
      Survivors(window, pool[..|pool| - 1]) + (if OverlapsInX(window, last) then [] else [last])
  }

  /** The running union of a non-empty list of rectangles, folded from the left. */
  function Cover(rs: seq<Rect>): Rect
    requires rs != []
    decreases |rs|
  {
    if |rs| == 1 then rs[0] else Union(Cover(rs[..|rs| - 1]), rs[|rs| - 1])
  }

  // ---------------------------------------------------------------------------
  // Overlap, union and reach

  lemma OverlapIsSymmetric(a: Rect, b: Rect)
    ensures OverlapsInX(a, b) == OverlapsInX(b, a)
  {
  }

  /** Rectangles that only touch (one's right edge is the other's left edge) do not overlap. */
  lemma TouchingIsNotOverlap(a: Rect, b: Rect)
    requires a.Right() == b.x
    ensures !OverlapsInX(a, b) && !OverlapsInX(b, a)
  {
  }

  /** Moving either rectangle vertically or changing its height never changes the verdict. */
  lemma OverlapIgnoresY(a: Rect, b: Rect, y1: int, h1: int, y2: int, h2: int)
    ensures OverlapsInX(a, b) == OverlapsInX(Rect(a.x, y1, a.w, h1), Rect(b.x, y2, b.w, h2))
  {
  }

  /** The union is enclosed by every rectangle that encloses both arguments, and its edges are the extreme ones. */
  lemma UnionIsLeastBound(a: Rect, b: Rect, c: Rect)
    ensures Encloses(c, a) && Encloses(c, b) ==> Encloses(c, Union(a, b))
    ensures Union(a, b).x == Min(a.x, b.x) && Union(a, b).Right() == Max(a.Right(), b.Right())
    ensures Union(a, b).y == Min(a.y, b.y) && Union(a, b).Bottom() == Max(a.Bottom(), b.Bottom())
  {
  }

  lemma UnionCommutes(a: Rect, b: Rect)
    ensures Union(a, b) == Union(b, a)
  {
  }

  /** A rectangle of positive width always lies inside its own search window. */
  lemma ReachTakesItself(r: Rect, direction: int)
    requires r.w > 0
    ensures OverlapsInX(Reach(r, direction), r)
  {
  }

  // ---------------------------------------------------------------------------
  // Candidates and survivors

  /** Every detection goes to exactly one side: the pool is split, nothing is lost or duplicated. */
  lemma {:induction false} PoolIsPartitioned(window: Rect, pool: seq<Rect>)
    ensures multiset(Candidates(window, pool)) + multiset(Survivors(window, pool)) == multiset(pool)
    ensures |Candidates(window, pool)| + |Survivors(window, pool)| == |pool|
    decreases |pool|
  {
    if pool != [] {
      var init, last := pool[..|pool| - 1], pool[|pool| - 1];
      PoolIsPartitioned(window, init);
      assert pool == init + [last];
      if OverlapsInX(window, last) {
        assert Candidates(window, pool) == Candidates(window, init) + [last];
        assert Survivors(window, pool) == Survivors(window, init);
      } else {
        assert Candidates(window, pool) == Candidates(window, init);
        assert Survivors(window, pool) == Survivors(window, init) + [last];
      }
    }
  }

  /** A detection is a candidate exactly when it is in the pool and overlaps the window. */
  lemma {:induction false} CandidatesAreTheOverlapping(window: Rect, pool: seq<Rect>)
    ensures forall r :: r in Candidates(window, pool) <==> r in pool && OverlapsInX(window, r)
    decreases |pool|
  {
    if pool != [] {
      var init := pool[..|pool| - 1];
      CandidatesAreTheOverlapping(window, init);
      assert pool == init + [pool[|pool| - 1]];
    }
  }

  /** A detection survives exactly when it is in the pool and does not overlap the window. */
  lemma {:induction false} SurvivorsAreTheRest(window: Rect, pool: seq<Rect>)
    ensures forall r :: r in Survivors(window, pool) <==> r in pool && !OverlapsInX(window, r)
    decreases |pool|
  {
    if pool != [] {
      var init := pool[..|pool| - 1];
      SurvivorsAreTheRest(window, init);
      assert pool == init + [pool[|pool| - 1]];
    }
  }

  /** Filtering distributes over concatenation, so survivors keep their relative order. */
  lemma {:induction false} SurvivorsDistribute(window: Rect, a: seq<Rect>, b: seq<Rect>)
    ensures Survivors(window, a + b) == Survivors(window, a) + Survivors(window, b)
    decreases |b|
  {
    if b == [] {
      assert a + b == a;
    } else {
      var init, last := b[..|b| - 1], b[|b| - 1];
      var tail := if OverlapsInX(window, last) then [] else [last];
      SurvivorsDistribute(window, a, init);
      var ab := a + b;
      assert ab != [] && ab[..|ab| - 1] == a + init && ab[|ab| - 1] == last;
      assert Survivors(window, ab) == Survivors(window, a + init) + tail;
      assert Survivors(window, b) == Survivors(window, init) + tail;
    }
  }

  /** Filtering a pool is filtering its two parts on either side of any split point. */
  lemma {:induction false} SurvivorsSplit(window: Rect, pool: seq<Rect>, at: nat)
    requires at <= |pool|
    ensures Survivors(window, pool) == Survivors(window, pool[..at]) + Survivors(window, pool[at..])
    decreases |pool|
  {
    if at == |pool| {
      assert pool[..at] == pool;
      assert pool[at..] == [];
    } else {
      var init := pool[..|pool| - 1];
      SurvivorsSplit(window, init, at);
      assert init[..at] == pool[..at];
      var back := pool[at..];
      assert back[..|back| - 1] == init[at..];
      assert back[|back| - 1] == pool[|pool| - 1];
    }
  }

  /** The same split, for a suffix of the pool. */
  lemma SurvivorsFrom(window: Rect, pool: seq<Rect>, lo: nat, mid: nat)
    requires lo <= mid <= |pool|
    ensures Survivors(window, pool[lo..]) == Survivors(window, pool[lo..mid]) + Survivors(window, pool[mid..])
  {
    var back := pool[lo..];
    SurvivorsSplit(window, back, mid - lo);
    assert back[..mid - lo] == pool[lo..mid];
    assert back[mid - lo..] == pool[mid..];
  }

  /** A pool that the window does not touch survives whole. */
  lemma {:induction false} SurvivorsOfUntouched(window: Rect, pool: seq<Rect>)
    requires forall i :: 0 <= i < |pool| ==> !OverlapsInX(window, pool[i])
    ensures Survivors(window, pool) == pool
    decreases |pool|
  {
    if pool != [] {
      SurvivorsOfUntouched(window, pool[..|pool| - 1]);
      assert pool == pool[..|pool| - 1] + [pool[|pool| - 1]];
    }
  }

  /** When the first detection is taken, the pool strictly shrinks and the candidates are non-empty. */
  lemma TakingHeadShrinks(window: Rect, pool: seq<Rect>)
    requires pool != [] && OverlapsInX(window, pool[0])
    ensures |Survivors(window, pool)| < |pool|
    ensures Candidates(window, pool) != [] && Candidates(window, pool)[0] == pool[0]
  {
    PoolIsPartitioned(window, pool);
    CandidatesStartWithHead(window, pool);
  }

  lemma {:induction false} CandidatesStartWithHead(window: Rect, pool: seq<Rect>)
    requires pool != [] && OverlapsInX(window, pool[0])
    ensures Candidates(window, pool) != [] && Candidates(window, pool)[0] == pool[0]
    decreases |pool|
  {
    if |pool| > 1 {
      CandidatesStartWithHead(window, pool[..|pool| - 1]);
    }
  }

  // ---------------------------------------------------------------------------
  // The union of all candidates

  /** The running union encloses every rectangle it was folded over. */
  lemma {:induction false} CoverEnclosesAll(rs: seq<Rect>)
    requires rs != []
    ensures forall i :: 0 <= i < |rs| ==> Encloses(Cover(rs), rs[i])
    decreases |rs|
  {
    if |rs| > 1 {
      var init := rs[..|rs| - 1];
      CoverEnclosesAll(init);
      UnionIsLeastBound(Cover(init), rs[|rs| - 1], Cover(init));
      forall i | 0 <= i < |rs|
        ensures Encloses(Cover(rs), rs[i])
      {
        if i < |rs| - 1 {
          assert rs[i] == init[i];
        }
      }
    }
  }

  /** Any rectangle enclosing every input encloses the running union: it is the least bound. */
  lemma {:induction false} CoverIsLeast(rs: seq<Rect>, c: Rect)
    requires rs != []
    requires forall i :: 0 <= i < |rs| ==> Encloses(c, rs[i])
    ensures Encloses(c, Cover(rs))
    decreases |rs|
  {
    if |rs| > 1 {
      var init := rs[..|rs| - 1];
      assert forall i :: 0 <= i < |init| ==> init[i] == rs[i];
      CoverIsLeast(init, c);
      UnionIsLeastBound(Cover(init), rs[|rs| - 1], c);
    }
  }

  /** Each edge of the running union is the matching edge of one of the inputs. */
  lemma {:induction false} CoverEdgesAreAttained(rs: seq<Rect>)
    requires rs != []
    ensures exists i :: 0 <= i < |rs| && Cover(rs).x == rs[i].x
    ensures exists i :: 0 <= i < |rs| && Cover(rs).Right() == rs[i].Right()
    ensures exists i :: 0 <= i < |rs| && Cover(rs).y == rs[i].y
    ensures exists i :: 0 <= i < |rs| && Cover(rs).Bottom() == rs[i].Bottom()
    decreases |rs|
  {
    if |rs| == 1 {
      assert Cover(rs) == rs[0];
    } else {
      var n := |rs| - 1;
      var init := rs[..n];
      CoverEdgesAreAttained(init);
      var c, last := Cover(init), rs[n];
      var a :| 0 <= a < n && c.x == init[a].x;
      var b :| 0 <= b < n && c.Right() == init[b].Right();
      var d :| 0 <= d < n && c.y == init[d].y;
      var e :| 0 <= e < n && c.Bottom() == init[e].Bottom();
      assert init[a] == rs[a] && init[b] == rs[b] && init[d] == rs[d] && init[e] == rs[e];
      assert Cover(rs).x == rs[if c.x <= last.x then a else n].x;
      assert Cover(rs).Right() == rs[if c.Right() <= last.Right() then n else b].Right();
      assert Cover(rs).y == rs[if c.y <= last.y then d else n].y;
      assert Cover(rs).Bottom() == rs[if c.Bottom() <= last.Bottom() then n else e].Bottom();
    }
  }

  /** Two fragments are merged into exactly their bounding union; one is taken verbatim. */
  lemma CoverOfFew(a: Rect, b: Rect)
    ensures Cover([a]) == a
    ensures Cover([a, b]) == Union(a, b)
  {
    assert [a, b][..1] == [a];
  }
}
