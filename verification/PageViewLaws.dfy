/** src/gui/pageviewmode.cc: what each event of a page view means, said of points, operators and coordinates. */
module PageViewLaws {
  import opened Helpers
  import opened HitCycle
  import opened ViewGeometry
  import opened PageViewSpec

  // ----- clicks -----

  /** The operator a search finds from a place downwards: the highest one below that place under the point, or the
      highest one of all if there is none. */
  ghost predicate NextDown(box: Boxes, ops: seq<Op>, from: nat, p: Point, i: nat) {
    && i < |ops| && box(ops[i]).Holds(p)
    && if i < from then forall k :: i < k < from && k < |ops| ==> !box(ops[k]).Holds(p)
       else
         && (forall k :: 0 <= k < from && k < |ops| ==> !box(ops[k]).Holds(p))
         && (forall k :: i < k < |ops| ==> !box(ops[k]).Holds(p))
  }

  /** A click selects that operator alone, and the next search goes on from it; where no operator is, it selects
      nothing. */
  lemma ClickSays(box: Boxes, ops: seq<Op>, from: nat, p: Point)
    requires from <= |ops|
    ensures var found, end := Clicked(box, ops, from, p), SearchEnd(HitsAt(box, ops, p), from);
      if forall op :: op in ops ==> !box(op).Holds(p) then
        found == [] && end == if from < |ops| then from else 0
      else NextDown(box, ops, from, p, end) && found == [ops[end]]
  {
    hide LastHit;
    var hits := HitsAt(box, ops, p);
    if r: nat :| r < |ops| && hits[r] {
      assert ops[r] in ops;
    }
  }

  // ----- reports -----

  /** The displacement reported for a move leads from the press to the release. */
  lemma DisplacementSays(at: Point, to: Point, dx: int, dy: int)
    ensures Displacement(at, to) == Move(dx, dy) <==> at.x + dx == to.x && at.y + dy == to.y
  {
  }

  /** The distances reported for a resize lead from the sides of the mode to the release; other sides stay. */
  lemma DeltasSay(mode: Mode, b: Rect, to: Point)
    ensures var d := Deltas(mode, b, to);
      && d.Resize?
      && (if mode.left then b.left - d.dleft == to.x else d.dleft == 0)
      && (if mode.top then b.top - d.dtop == to.y else d.dtop == 0)
      && (if mode.right then b.right - d.dright == to.x else d.dright == 0)
      && (if mode.bottom then b.bottom - d.dbottom == to.y else d.dbottom == 0)
  {
  }

  // ----- presses and moves -----

  /** What a press begins, by the zones: nothing outside the bounding rectangle; inside it a resize of the sides whose
      zones the point is in, or else a move exactly if the point is on the region. */
  lemma PressByZones(c: Setup, area: Region, p: Point)
    ensures var m, b := ModeAt(c, area, p), Bounds(area);
      var inside := area != [] && b.left <= p.x <= b.right && b.top <= p.y <= b.bottom;
      var left, right := NearZone(b.left, b.right, p.x, c.zone), FarZone(b.left, b.right, p.x, c.zone);
      var top, bottom := NearZone(b.top, b.bottom, p.y, c.zone), FarZone(b.top, b.bottom, p.y, c.zone);
      m == if !inside then NONE
           else if left || right || top || bottom then Mode(left, right, top, bottom)
           else if Contains(area, p) then ALL else NONE
  {
    if area != [] {
      ModeByZones(area, p, c.zone);
      ModeShape(area, p, c.zone);
    }
    hide Contains, NearZone, FarZone;
  }

  /** A press holds the button with what it begins, and is ignored while the button is down. A resize keeps the corner
      opposite to its sides and leads the other one; in the selecting mode any other press starts a rectangle. */
  lemma PressSays(c: Setup, s: State, p: Point)
    requires s.last <= |s.work|
    ensures var t, m, b := Step(c, s, Pressed(p)), ModeAt(c, s.area, p), Bounds(s.area);
      if s.hold.Held? then t == s
      else
        && t == s.(hold := Held(p, m, p), press := t.press, release := t.release)
        && (Resizes(m) ==>
             && t.press == Point(if m.left then b.right else b.left, if m.top then b.bottom else b.top)
             && t.release == Point(if m.left then b.left else b.right, if m.top then b.top else b.bottom))
        && (m == NONE && c.kind.Operators? ==> t.press == t.release == p)
        && (!Resizes(m) && !(m == NONE && c.kind.Operators?) ==> t.press == s.press && t.release == s.release)
  {
    hide ModeAt, Bounds;
  }

  /** A mouse move while the button is down leads the corner of a resize along the axes of its sides, and the end of a
      rectangle in the selecting mode; nothing else changes. */
  lemma MoveSays(c: Setup, s: State, p: Point)
    requires s.last <= |s.work|
    ensures var t, b := Step(c, s, Moved(p)), Bounds(s.area);
      if s.hold.Free? then t == s
      else
        var m := s.hold.mode;
        && t == s.(hold := Held(s.hold.at, m, p), release := t.release)
        && (Resizes(m) ==>
             && t.release.x == (if m.left || m.right then p.x else b.right)
             && t.release.y == (if m.top || m.bottom then p.y else b.bottom))
        && (m == NONE && c.kind.Operators? ==> t.release == p)
        && (!Resizes(m) && !(m == NONE && c.kind.Operators?) ==> t.release == s.release)
  {
    hide Bounds;
  }

  // ----- releases -----

  /** Where the next search for an operator begins after a release. */
  lemma SearchAfterRelease(c: Setup, s: State, p: Point)
    requires s.hold.Held? && s.last <= |s.work|
    requires s.hold.mode == NONE || s.hold.mode == ALL || Resizes(s.hold.mode)
    ensures var h, t, hits := s.hold, Step(c, s, Released(p)), HitsAt(c.box, s.work, p);
      t.last ==
        if c.kind.Plain? then s.last
        else if h.mode == NONE then (if s.press == p then SearchEnd(hits, |s.work|) else |s.work|)
        else if (if h.mode == ALL then h.mouse == h.at else p == h.at) then SearchEnd(hits, s.last)
        else s.last
  {
    hide Bounds, Clicked, HitsAt, SearchEnd, Inside, AreaOf, Trail, Deltas, Displacement;
  }

  /** The operators found are those whose boxes the rectangle encloses, in order. */
  ghost predicate EnclosedInOrder(box: Boxes, ops: seq<Op>, r: Rect, found: seq<Op>) {
    PickedBy(ops, found, (op: Op) => r.Encloses(box(op)))
  }

  /** A rectangle dragged out selects, in order, the operators whose boxes lie inside it, edges included. */
  lemma RectangleSays(c: Setup, s: State, p: Point)
    requires c.kind.Operators? && s.hold.Held? && s.hold.mode == NONE && s.press != p && s.last <= |s.work|
    ensures var t, r := Step(c, s, Released(p)), Between(s.press, p);
      && EnclosedInOrder(c.box, s.work, r, t.selected)
      && forall q :: Contains(t.area, q) <==> exists op :: op in t.selected && c.box(op).Holds(q)
  {
    var t, r := Step(c, s, Released(p)), Between(s.press, p);
    assert t.selected == Inside(c.box, s.work, [r]) && t.area == AreaOf(c.box, t.selected) by {
      hide AreaOf, Inside;
    }
    hide Step, Inside, AreaOf, PickedBy, Contains, Covered;
    InsideInOrder(c.box, s.work, [r]);
    InsideRectangle(c.box, s.work, r, t.selected);
    forall q
      ensures Contains(t.area, q) <==> exists op :: op in t.selected && c.box(op).Holds(q)
    {
      AreaIsUnion(c.box, t.selected, q);
    }
  }

  lemma InsideRectangle(box: Boxes, ops: seq<Op>, r: ProperRect, found: seq<Op>)
    requires CoveredInOrder(box, ops, [r], found)
    ensures EnclosedInOrder(box, ops, r, found)
  {
    hide Covered, Picked;
    forall op: Op
      ensures Covered(box(op), [r]) <==> r.Encloses(box(op))
    {
      CoveredByRect(box(op), r);
    }
    var idx: seq<nat> :| Picked(ops, found, idx) && IndicesOf(ops, (op: Op) => Covered(box(op), [r]), idx);
    assert IndicesOf(ops, (op: Op) => r.Encloses(box(op)), idx);
  }

  // ----- changes of the selection and of the operators -----

  /** Events other than those of the mouse touch neither the reports nor the positions; they change the operators
      exactly by loading or clearing them, after which the next search begins at the top; a drag under way ends, except
      when the operators are cleared. */
  lemma OtherEventKeeps(c: Setup, s: State, e: Event)
    requires s.last <= |s.work| && !e.Pressed? && !e.Moved? && !e.Released?
    ensures var t := Step(c, s, e);
      && t.log == s.log && t.press == s.press && t.release == s.release
      && t.work == (match e
                    case WorkOps(ops) => ops
                    case MoreWorkOps(ops) => s.work + ops
                    case ClearWork => []
                    case _ => s.work)
      && t.last == (if e.WorkOps? || e.MoreWorkOps? || e.ClearWork? then |t.work| else s.last)
      && t.hold == (if e.Key? || (s.hold.Held? && s.hold.mode != NONE && !e.ClearWork?) then Free else s.hold)
  {
    hide AreaOf, Inside, StillThere;
  }

  /** What they select. */
  lemma OtherEventSelects(c: Setup, s: State, e: Event)
    requires s.last <= |s.work| && !e.Pressed? && !e.Moved? && !e.Released?
    ensures var t := Step(c, s, e);
      match e
      case SelectOps(ops) => t.selected == ops
      case AddOps(ops) => t.selected == s.selected + ops
      case ClearOps => t.selected == []
      case Key(escape) => t.selected == if escape && s.hold.Free? then [] else s.selected
      case Actualize => PickedBy(s.selected, t.selected, (op: Op) => op in s.work)
      case SelectRegion(r) =>
        if c.kind.Plain? then t.selected == s.selected
        else PickedBy(s.work, t.selected, (op: Op) => Covered(c.box(op), r))
      case _ => t.selected == s.selected
  {
    hide AreaOf, Inside, StillThere, Covered, PickedBy;
    match e
    case Actualize => StillThereInOrder(s.selected, s.work);
    case SelectRegion(r) => InsideInOrder(c.box, s.work, r);
    case _ =>
  }

  /** The event replaces the selection by other operators. */
  predicate Replaces(c: Setup, s: State, e: Event) {
    e.SelectOps? || e.ClearOps? || e.Actualize? || (e.Key? && e.escape && s.hold.Free?)
    || (e.SelectRegion? && c.kind.Operators?)
  }

  /** And the area they leave: the union of the boxes selected, enlarged by boxes added, or the region set. */
  lemma OtherEventArea(c: Setup, s: State, e: Event, q: Point)
    requires s.last <= |s.work| && !e.Pressed? && !e.Moved? && !e.Released?
    ensures var t := Step(c, s, e);
      if Replaces(c, s, e) then Contains(t.area, q) <==> exists op :: op in t.selected && c.box(op).Holds(q)
      else if e.AddOps? then
        Contains(t.area, q) <==> Contains(s.area, q) || exists op :: op in e.ops && c.box(op).Holds(q)
      else if e.SelectRegion? then t.area == e.r
      else t.area == s.area
  {
    hide AreaOf, Inside, StillThere, Contains;
    var t := Step(c, s, e);
    if Replaces(c, s, e) {
      assert t.area == AreaOf(c.box, t.selected);
      AreaIsUnion(c.box, t.selected, q);
    } else if e.AddOps? {
      AreaIsUnion(c.box, e.ops, q);
      ContainsConcat(s.area, AreaOf(c.box, e.ops), q);
    }
  }

  lemma ContainsConcat(a: Region, b: Region, q: Point)
    ensures Contains(a + b, q) <==> Contains(a, q) || Contains(b, q)
  {
    if i :| 0 <= i < |a| && a[i].Holds(q) {
      assert (a + b)[i].Holds(q);
    }
    if i :| 0 <= i < |b| && b[i].Holds(q) {
      assert (a + b)[|a| + i].Holds(q);
    }
  }
}
