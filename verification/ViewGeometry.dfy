/** Points, rectangles and regions as the page view uses them, and the resizing zones of src/gui/pageviewmode.cc. */
module ViewGeometry {

  datatype Point = Point(x: int, y: int)

  /** Both the left and the right column belong to the rectangle, and so do top and bottom row. */
  datatype Rect = Rect(left: int, top: int, right: int, bottom: int) {
    predicate Proper() {
      left <= right && top <= bottom
    }

    predicate Holds(p: Point) {
      left <= p.x <= right && top <= p.y <= bottom
    }

    predicate Encloses(inner: Rect) {
      left <= inner.left && top <= inner.top && inner.right <= right && inner.bottom <= bottom
    }

    function Shift(dx: int, dy: int): Rect {
      Rect(left + dx, top + dy, right + dx, bottom + dy)
    }

    function Joined(other: Rect): Rect {
      Rect(Min(left, other.left), Min(top, other.top), Max(right, other.right), Max(bottom, other.bottom))
    }
  }

  function Min(a: int, b: int): int {
    if a <= b then a else b
  }

  function Max(a: int, b: int): int {
    if a <= b then b else a
  }

  /** The rectangle between two points, whichever way round. */
  function Between(p: Point, q: Point): (r: Rect)
    ensures r.Proper() && r.Holds(p) && r.Holds(q)
    ensures forall outer: Rect :: outer.Holds(p) && outer.Holds(q) ==> outer.Encloses(r)
  {
    Rect(Min(p.x, q.x), Min(p.y, q.y), Max(p.x, q.x), Max(p.y, q.y))
  }

  /** A region is the union of proper rectangles. */
  type ProperRect = r: Rect | r.Proper() witness Rect(0, 0, 0, 0)
  type Region = seq<ProperRect>

  predicate Contains(r: Region, p: Point) {
    exists i :: 0 <= i < |r| && r[i].Holds(p)
  }

  function Translate(r: Region, dx: int, dy: int): (t: Region)
    ensures |t| == |r|
  {
    seq(|r|, i requires 0 <= i < |r| => r[i].Shift(dx, dy))
  }

  /** Bounding rectangle. The null region has the null rectangle, which is turned the right way round. */
  function Bounds(r: Region): (b: ProperRect) {
    if r == [] then Rect(-1, -1, 0, 0)
    else if |r| == 1 then r[0]
    else Bounds(r[..|r| - 1]).Joined(r[|r| - 1])
  }

  lemma {:induction false} BoundsHold(r: Region, p: Point)
    requires Contains(r, p)
    ensures Bounds(r).Holds(p)
  {
    if |r| > 1 {
      var i :| 0 <= i < |r| && r[i].Holds(p);
      if i < |r| - 1 {
        assert r[..|r| - 1][i].Holds(p);
        BoundsHold(r[..|r| - 1], p);
      }
    }
  }

  /** Each side of the bounding rectangle is touched. */
  lemma {:induction false} BoundsTight(r: Region) returns (a: Point, b: Point, c: Point, d: Point)
    requires r != []
    ensures Contains(r, a) && Contains(r, b) && Contains(r, c) && Contains(r, d)
    ensures a.x == Bounds(r).left && b.y == Bounds(r).top && c.x == Bounds(r).right && d.y == Bounds(r).bottom
  {
    var last := r[|r| - 1];
    a, b := Point(last.left, last.top), Point(last.left, last.top);
    c, d := Point(last.right, last.bottom), Point(last.right, last.bottom);
    assert last.Holds(a) && last.Holds(c);
    if |r| > 1 {
      var front := r[..|r| - 1];
      var a', b', c', d' := BoundsTight(front);
      forall p | Contains(front, p)
        ensures Contains(r, p)
      {
        var i :| 0 <= i < |front| && front[i].Holds(p);
        assert r[i].Holds(p);
      }
      if Bounds(front).left <= last.left { a := a'; }
      if Bounds(front).top <= last.top { b := b'; }
      if last.right <= Bounds(front).right { c := c'; }
      if last.bottom <= Bounds(front).bottom { d := d'; }
    }
  }

  /** The bounding rectangle is the least one that holds the region: a rectangle encloses it exactly if it holds every
      point. */
  lemma BoundsLeast(r: Region, outer: Rect)
    requires r != []
    ensures outer.Encloses(Bounds(r)) <==> forall p :: Contains(r, p) ==> outer.Holds(p)
  {
    hide Bounds, Contains;
    forall p | Contains(r, p)
      ensures Bounds(r).Holds(p)
    {
      BoundsHold(r, p);
    }
    var a, b, c, d := BoundsTight(r);
  }

  lemma {:induction false} BoundsShift(r: Region, dx: int, dy: int)
    requires r != []
    ensures Bounds(Translate(r, dx, dy)) == Bounds(r).Shift(dx, dy)
  {
    if |r| > 1 {
      BoundsShift(r[..|r| - 1], dx, dy);
      assert Translate(r, dx, dy)[..|r| - 1] == Translate(r[..|r| - 1], dx, dy);
    }
  }

  lemma TranslateTwice(r: Region, dx: int, dy: int, ex: int, ey: int)
    ensures Translate(Translate(r, dx, dy), ex, ey) == Translate(r, dx + ex, dy + ey)
  {
  }

  /** A moved region is the same set of points, displaced. */
  lemma ShapeKept(r: Region, dx: int, dy: int, p: Point)
    ensures Contains(Translate(r, dx, dy), p) <==> Contains(r, Point(p.x - dx, p.y - dy))
  {
    var q := Point(p.x - dx, p.y - dy);
    forall i | 0 <= i < |r|
      ensures Translate(r, dx, dy)[i].Holds(p) <==> r[i].Holds(q)
    {
    }
  }

  // ----- resizing zones -----

  /** The sides of the bounding rectangle that follow the mouse; all four mean a move. */
  datatype Mode = Mode(left: bool, right: bool, top: bool, bottom: bool)

  const NONE := Mode(false, false, false, false)
  const ALL := Mode(true, true, true, true)

  /** The zone a coordinate falls into on one axis: the near edge, the far edge, or both for the middle. */
  function AxisZone(lo: int, hi: int, p: int, zone: int): (bool, bool) {
    var width := hi - lo + 1;
    if width == 0 then (false, true)
    else if width == 1 then
      if p - lo > 0 then (false, true) else (true, false)
    else
      var cz := Min((width - 2) / 3, zone);
      if p - lo - cz <= 0 then (true, false)
      else if p - hi + cz >= 0 then (false, true)
      else (true, true)
  }

  function NearestResizingMode(r: Region, p: Point, zone: int): Mode {
    if r == [] then NONE
    else
      var b := Bounds(r);
      var (left, right) := AxisZone(b.left, b.right, p.x, zone);
      var (top, bottom) := AxisZone(b.top, b.bottom, p.y, zone);
      if left && right && top && bottom then
        if Contains(r, p) then ALL else NONE
      else if top && bottom then Mode(left, right, false, false)
      else if left && right then Mode(false, false, top, bottom)
      else Mode(left, right, top, bottom)
  }

  /** Some side follows the mouse, and never one together with its opposite. */
  predicate Resizes(m: Mode) {
    && m != NONE
    && !(m.left && m.right) && !(m.top && m.bottom)
  }

  /** The mode is nothing, a move, or the resizing of sides that are not opposite. */
  lemma ModeShape(r: Region, p: Point, zone: int)
    ensures var m := NearestResizingMode(r, p, zone);
      (m == NONE || m == ALL || Resizes(m)) && (m != NONE ==> r != [])
  {
  }

  /** The two edges of an axis: zones of the given width, but at most a third of what lies between the outermost
      coordinates; an axis of a single coordinate is split right behind it. */
  predicate NearZone(lo: int, hi: int, p: int, zone: int) {
    if lo == hi then p <= lo else p <= lo + Min((hi - lo - 1) / 3, zone)
  }

  predicate FarZone(lo: int, hi: int, p: int, zone: int) {
    if lo == hi then p > lo else p >= hi - Min((hi - lo - 1) / 3, zone)
  }

  /** The edge zones of an axis never meet, whatever the zone width, so which zone a coordinate is in does not depend on
      which one is asked first. */
  lemma ZonesApart(lo: int, hi: int, p: int, zone: int)
    requires lo <= hi
    ensures !(NearZone(lo, hi, p, zone) && FarZone(lo, hi, p, zone))
    ensures AxisZone(lo, hi, p, zone) == (!FarZone(lo, hi, p, zone), !NearZone(lo, hi, p, zone))
  {
  }

  /** What each mode means, for every non-empty region and every point: an edge follows exactly if the point is in its
      zone; the region is moved exactly if the point is in none and on the region. */
  lemma ModeByZones(r: Region, p: Point, zone: int)
    requires r != []
    ensures var b, m := Bounds(r), NearestResizingMode(r, p, zone);
      var left, right := NearZone(b.left, b.right, p.x, zone), FarZone(b.left, b.right, p.x, zone);
      var top, bottom := NearZone(b.top, b.bottom, p.y, zone), FarZone(b.top, b.bottom, p.y, zone);
      && (m.left && !m.right <==> left) && (m.right && !m.left <==> right)
      && (m.top && !m.bottom <==> top) && (m.bottom && !m.top <==> bottom)
      && (m == ALL <==> !left && !right && !top && !bottom && Contains(r, p))
      && (m == NONE <==> !left && !right && !top && !bottom && !Contains(r, p))
  {
    hide Bounds, AxisZone, NearZone, FarZone, Contains;
    var b := Bounds(r);
    ZonesApart(b.left, b.right, p.x, zone);
    ZonesApart(b.top, b.bottom, p.y, zone);
  }
}
