/** src/gui/pageviewmode.cc: what every mouse and selection event does to a page view, and what runs of them report. */
module PageViewSpec {
  import opened Helpers
  import opened ViewGeometry
  import opened HitCycle

  type Op = nat
  type Boxes = Op -> ProperRect

  /** The base mode, or the one that selects operators. */
  datatype Kind = Plain | Operators

  /** What does not change while a view lives. */
  datatype Setup = Setup(kind: Kind, box: Boxes, releaseScript: bool, zone: int)

  /** A script call made at the release of the button. */
  datatype Command =
    | Move(dx: int, dy: int)
    | Resize(dleft: int, dtop: int, dright: int, dbottom: int)
    | Script(press: Point, release: Point)

  // ----- operators and their boxes -----

  ghost function AreaOf(box: Boxes, ops: seq<Op>): (r: Region)
    ensures |r| == |ops|
  {
    seq(|ops|, i requires 0 <= i < |ops| => box(ops[i]))
  }

  /** The area of some operators is the union of their boxes. */
  lemma AreaIsUnion(box: Boxes, ops: seq<Op>, p: Point)
    ensures Contains(AreaOf(box, ops), p) <==> exists op :: op in ops && box(op).Holds(p)
  {
    if op :| op in ops && box(op).Holds(p) {
      var i :| 0 <= i < |ops| && ops[i] == op;
      assert AreaOf(box, ops)[i].Holds(p);
    }
    if Contains(AreaOf(box, ops), p) {
      var i :| 0 <= i < |ops| && AreaOf(box, ops)[i].Holds(p);
      assert ops[i] in ops;
    }
  }

  lemma AreaConcat(box: Boxes, a: seq<Op>, b: seq<Op>)
    ensures AreaOf(box, a + b) == AreaOf(box, a) + AreaOf(box, b)
  {
  }

  function HitsAt(box: Boxes, ops: seq<Op>, p: Point): (hits: seq<bool>)
    ensures |hits| == |ops| && forall i :: 0 <= i < |ops| ==> (hits[i] <==> box(ops[i]).Holds(p))
  {
    seq(|ops|, i requires 0 <= i < |ops| => box(ops[i]).Holds(p))
  }

  /** What a click selects: the next operator under the mouse, going down from the last one. */
  function Clicked(box: Boxes, ops: seq<Op>, last: nat, p: Point): seq<Op>
    requires last <= |ops|
  {
    var r := Prev(HitsAt(box, ops, p), last);
    if r >= 0 then [ops[r]] else []
  }

  /** Every point of the rectangle is in the region. */
  predicate Covered(rect: Rect, r: Region) {
    forall x, y :: rect.left <= x <= rect.right && rect.top <= y <= rect.bottom ==> Contains(r, Point(x, y))
  }

  /** The operators whose boxes lie inside a region, in order. */
  function Inside(box: Boxes, ops: seq<Op>, r: Region): (s: seq<Op>)
    ensures forall op :: op in s <==> op in ops && Covered(box(op), r)
  {
    if ops == [] then []
    else Inside(box, ops[..|ops| - 1], r) + if Covered(box(ops[|ops| - 1]), r) then [ops[|ops| - 1]] else []
  }

  /** The operators found are those whose boxes lie inside the region, in order. */
  ghost predicate CoveredInOrder(box: Boxes, ops: seq<Op>, r: Region, found: seq<Op>) {
    PickedBy(ops, found, (op: Op) => Covered(box(op), r))
  }

  lemma {:induction false} InsideInOrder(box: Boxes, ops: seq<Op>, r: Region)
    ensures CoveredInOrder(box, ops, r, Inside(box, ops, r))
  {
    hide Covered, PickedBy;
    if ops == [] {
      PickedNone((op: Op) => Covered(box(op), r));
    } else {
      var front, last := ops[..|ops| - 1], ops[|ops| - 1];
      InsideInOrder(box, front, r);
      PickedNext(front, Inside(box, front, r), (op: Op) => Covered(box(op), r), last);
      assert ops == front + [last];
    }
  }

  /** For a single rectangle, lying inside is a matter of the four sides. */
  lemma CoveredByRect(rect: ProperRect, outer: ProperRect)
    ensures Covered(rect, [outer]) <==> outer.Encloses(rect)
  {
    forall p
      ensures Contains([outer], p) <==> outer.Holds(p)
    {
      assert [outer][0].Holds(p) <==> outer.Holds(p);
    }
    if Covered(rect, [outer]) {
      assert Contains([outer], Point(rect.left, rect.top)) && Contains([outer], Point(rect.right, rect.bottom));
    }
  }

  /** The selected operators that are still there, in order. */
  function StillThere(selected: seq<Op>, work: seq<Op>): (r: seq<Op>)
    ensures forall op :: op in r <==> op in selected && op in work
  {
    if selected == [] then []
    else
      var last := selected[|selected| - 1];
      StillThere(selected[..|selected| - 1], work) + if last in work then [last] else []
  }

  /** What is kept of a selection is what is still there, in order. */
  ghost predicate KeptInOrder(selected: seq<Op>, work: seq<Op>, kept: seq<Op>) {
    PickedBy(selected, kept, (op: Op) => op in work)
  }

  lemma {:induction false} StillThereInOrder(selected: seq<Op>, work: seq<Op>)
    ensures KeptInOrder(selected, work, StillThere(selected, work))
  {
    hide PickedBy;
    if selected == [] {
      PickedNone((op: Op) => op in work);
    } else {
      var front, last := selected[..|selected| - 1], selected[|selected| - 1];
      StillThereInOrder(front, work);
      PickedNext(front, StillThere(front, work), (op: Op) => op in work, last);
      assert selected == front + [last];
    }
  }

  // ----- the state of a view -----

  /** Whether the button is down; where it went down, what that began, and where the mouse is by now. */
  datatype Hold = Free | Held(at: Point, mode: Mode, mouse: Point)

  /** `last` is where the next search for an operator begins. `press` and `release` are the points that an ordinary
      release hands to its script. */
  datatype State = State(work: seq<Op>, selected: seq<Op>, area: Region, hold: Hold,
                         press: Point, release: Point, last: nat, log: seq<Command>)

  const START := State([], [], [], Free, Point(0, 0), Point(0, 0), 0, [])

  /** A move or a resize is under way. */
  predicate Dragging(s: State) {
    s.hold.Held? && s.hold.mode != NONE
  }

  /** What a press at a point begins. */
  function ModeAt(c: Setup, area: Region, p: Point): Mode {
    if Bounds(area).Holds(p) then NearestResizingMode(area, p, c.zone) else NONE
  }

  function Displacement(from: Point, to: Point): Command {
    Move(to.x - from.x, to.y - from.y)
  }

  /** How far each side that follows the mouse was left behind; the other sides stay. */
  function Deltas(mode: Mode, b: Rect, to: Point): Command {
    Resize(if mode.left then b.left - to.x else 0, if mode.top then b.top - to.y else 0,
           if mode.right then b.right - to.x else 0, if mode.bottom then b.bottom - to.y else 0)
  }

  /** The corner of the rectangle that stays in a resize, and the one that follows the mouse. */
  function Anchor(mode: Mode, b: Rect): Point {
    Point(if mode.left then b.right else b.left, if mode.top then b.bottom else b.top)
  }

  function Corner(mode: Mode, b: Rect): Point {
    Point(if mode.left then b.left else b.right, if mode.top then b.top else b.bottom)
  }

  /** Where the moving corner is for a mouse position: it moves only along the axes of the mode. */
  function Trail(mode: Mode, b: Rect, to: Point): Point {
    Point(if mode.left || mode.right then to.x else Corner(mode, b).x,
          if mode.top || mode.bottom then to.y else Corner(mode, b).y)
  }

  // ----- events -----

  datatype Event =
    | Pressed(p: Point)
    | Moved(p: Point)
    | Released(p: Point)
    | Key(escape: bool)
    | SelectOps(ops: seq<Op>)
    | AddOps(ops: seq<Op>)
    | ClearOps
    | SelectRegion(r: Region)
    | WorkOps(ops: seq<Op>)
    | MoreWorkOps(ops: seq<Op>)
    | ClearWork
    | Actualize

  function OnPress(c: Setup, s: State, p: Point): State {
    if s.hold.Held? then s
    else
      var mode, b := ModeAt(c, s.area, p), Bounds(s.area);
      var t := s.(hold := Held(p, mode, p));
      if Resizes(mode) then t.(press := Anchor(mode, b), release := Corner(mode, b))
      else if mode == NONE && c.kind.Operators? then t.(press := p, release := p)
      else t
  }

  function OnMove(c: Setup, s: State, p: Point): State {
    if s.hold.Free? then s
    else
      var t := s.(hold := s.hold.(mouse := p));
      if Resizes(s.hold.mode) then t.(release := Trail(s.hold.mode, Bounds(s.area), p))
      else if s.hold.mode == NONE && c.kind.Operators? then t.(release := p)
      else t
  }

  /** Ends a move or resize under way. */
  function Cancel(s: State): State {
    s.(hold := Settled(s.hold))
  }

  function Settled(h: Hold): Hold {
    if h.Held? && h.mode != NONE then Free else h
  }

  ghost function Select(c: Setup, s: State, ops: seq<Op>): State {
    Cancel(s).(selected := ops, area := AreaOf(c.box, ops))
  }

  ghost function Enlarge(c: Setup, s: State, ops: seq<Op>): State {
    Cancel(s).(selected := s.selected + ops, area := s.area + AreaOf(c.box, ops))
  }

  /** A click: the next operator down from where the last search ended. */
  ghost function SelectNext(c: Setup, s: State, from: nat, p: Point): State
    requires from <= |s.work|
  {
    var hits := HitsAt(c.box, s.work, p);
    s.(selected := Clicked(c.box, s.work, from, p), area := AreaOf(c.box, Clicked(c.box, s.work, from, p)),
       last := SearchEnd(hits, from))
  }

  /** In the selecting mode a release is a click if it ends a move that has not moved, or a resize at its press. */
  predicate IsClick(c: Setup, h: Hold, p: Point)
    requires h.Held?
  {
    c.kind.Operators? && if h.mode == ALL then h.mouse == h.at else p == h.at
  }

  /** The release of the button held. */
  ghost function LetGo(c: Setup, s: State, p: Point): (t: State)
    requires s.hold.Held? && s.last <= |s.work|
  {
    var h := s.hold;
    if h.mode != NONE && IsClick(c, h, p) then SelectNext(c, s, s.last, p)
    else if h.mode == ALL then s.(log := s.log + if p == h.at then [] else [Displacement(h.at, p)])
    else if Resizes(h.mode) then
      s.(log := s.log + [Deltas(h.mode, Bounds(s.area), p)], release := Trail(h.mode, Bounds(s.area), p))
    else
      var t :=
        if c.kind.Plain? then s
        else if s.press == p then SelectNext(c, s.(release := p), |s.work|, p)
        else
          var ops := Inside(c.box, s.work, [Between(s.press, p)]);
          s.(release := p, selected := ops, area := AreaOf(c.box, ops), last := |s.work|);
      t.(log := t.log + if c.releaseScript then [Script(t.press, t.release)] else [])
  }

  ghost function OnRelease(c: Setup, s: State, p: Point): State
    requires s.last <= |s.work|
  {
    if s.hold.Free? then s else LetGo(c, s, p).(hold := Free)
  }

  /** One event. */
  ghost function Step(c: Setup, s: State, e: Event): (t: State)
    requires s.last <= |s.work|
    ensures t.last <= |t.work|
  {
    match e
    case Pressed(p) => OnPress(c, s, p)
    case Moved(p) => OnMove(c, s, p)
    case Released(p) => OnRelease(c, s, p)
    case Key(escape) => if escape && s.hold.Free? then Select(c, s, []) else s.(hold := Free)
    case SelectOps(ops) => Select(c, s, ops)
    case AddOps(ops) => Enlarge(c, s, ops)
    case ClearOps => Select(c, s, [])
    case SelectRegion(r) => if c.kind.Plain? then Cancel(s).(area := r) else Select(c, s, Inside(c.box, s.work, r))
    case WorkOps(ops) => Cancel(s).(work := ops, last := |ops|)
    case MoreWorkOps(ops) => Cancel(s).(work := s.work + ops, last := |s.work + ops|)
    case ClearWork => s.(work := [], last := 0)
    case Actualize => Select(c, s, StillThere(s.selected, s.work))
  }

  /** The state after a run of events. */
  ghost function After(c: Setup, events: seq<Event>): (s: State)
    ensures s.last <= |s.work|
  {
    if events == [] then START else Step(c, After(c, events[..|events| - 1]), events[|events| - 1])
  }

  lemma AfterNext(c: Setup, events: seq<Event>, k: nat)
    requires k < |events|
    ensures After(c, events[..k + 1]) == Step(c, After(c, events[..k]), events[k])
  {
    assert events[..k + 1][..k] == events[..k];
  }

  lemma NoEvents(c: Setup)
    ensures After(c, []) == START == State([], [], [], Free, Point(0, 0), Point(0, 0), 0, [])
  {
  }

  lemma AfterOneMore(c: Setup, events: seq<Event>, e: Event)
    ensures After(c, events + [e]) == Step(c, After(c, events), e)
  {
    assert (events + [e])[..|events|] == events;
  }

  // ----- what runs keep -----

  /** Of all events but the mouse going down or moving, exactly the clearing of the work operators leaves a move or
      resize under way. */
  lemma OnlyClearWorkLeavesDrags(c: Setup, s: State, e: Event)
    requires s.last <= |s.work|
    ensures !e.Pressed? && !e.Moved? ==> (Dragging(Step(c, s, e)) <==> e.ClearWork? && Dragging(s))
  {
  }

  lemma AreaKept(c: Setup, s: State, e: Event)
    requires c.kind.Operators? && s.last <= |s.work| && s.area == AreaOf(c.box, s.selected)
    ensures Step(c, s, e).area == AreaOf(c.box, Step(c, s, e).selected)
  {
    hide AreaOf, ModeAt, Bounds, Clicked, HitsAt, SearchEnd, Inside, StillThere, Trail, Deltas;
    if e.AddOps? {
      AreaConcat(c.box, s.selected, e.ops);
    }
  }

  /** In the selecting mode the area kept is the area of the selected operators, after every run. */
  lemma {:induction false} AreaOfSelection(c: Setup, events: seq<Event>)
    requires c.kind.Operators?
    ensures After(c, events).area == AreaOf(c.box, After(c, events).selected)
  {
    hide Step;
    if events != [] {
      AreaOfSelection(c, events[..|events| - 1]);
      AreaKept(c, After(c, events[..|events| - 1]), events[|events| - 1]);
    }
  }

  function PressCount(events: seq<Event>): nat {
    if events == [] then 0
    else PressCount(events[..|events| - 1]) + if events[|events| - 1].Pressed? then 1 else 0
  }

  /** A command costs the hold of a press. */
  lemma OneAtMost(c: Setup, s: State, e: Event)
    requires s.last <= |s.work|
    ensures var t := Step(c, s, e);
      |t.log| + (if t.hold.Held? then 1 else 0)
        <= |s.log| + (if s.hold.Held? then 1 else 0) + if e.Pressed? then 1 else 0
  {
    hide AreaOf, ModeAt, Bounds, Clicked, HitsAt, SearchEnd, Inside, StillThere, Trail, Deltas, Displacement;
  }

  /** No press is answered twice: there are no more commands than presses, one less while the button is held. */
  lemma {:induction false} AtMostOnePerPress(c: Setup, events: seq<Event>)
    ensures |After(c, events).log| + (if After(c, events).hold.Held? then 1 else 0) <= PressCount(events)
  {
    hide Step;
    if events != [] {
      AtMostOnePerPress(c, events[..|events| - 1]);
      OneAtMost(c, After(c, events[..|events| - 1]), events[|events| - 1]);
    }
  }

  /** Events that leave a drag under way. */
  predicate Harmless(e: Event) {
    e.Pressed? || e.Moved? || e.ClearWork?
  }

  /** The last mouse position of some events, or the given one. */
  function LastMouse(events: seq<Event>, at: Point): Point {
    if events == [] then at
    else if events[|events| - 1].Moved? then events[|events| - 1].p
    else LastMouse(events[..|events| - 1], at)
  }

  /** The button goes down at event p, in a state where it was up. */
  ghost predicate PressAt(c: Setup, events: seq<Event>, p: nat) {
    p < |events| && events[p].Pressed? && After(c, events[..p]).hold.Free?
  }

  /** What the press at event p begins. */
  ghost function ModeOfPress(c: Setup, events: seq<Event>, p: nat): Mode
    requires PressAt(c, events, p)
  {
    ModeAt(c, After(c, events[..p]).area, events[p].p)
  }

  lemma ModeOfPressShape(c: Setup, events: seq<Event>, p: nat)
    requires PressAt(c, events, p)
    ensures var m := ModeOfPress(c, events, p); m == NONE || m == ALL || Resizes(m)
  {
    ModeShape(After(c, events[..p]).area, events[p].p, c.zone);
  }

  /** What a press begins is what a drag is about until it ends. */
  lemma FirstStep(c: Setup, s: State, e: Event)
    requires s.last <= |s.work| && s.hold.Free?
    ensures var t := Step(c, s, e);
      if e.Pressed? then
        && t.hold == Held(e.p, ModeAt(c, s.area, e.p), e.p)
        && (t.hold.mode == NONE && c.kind.Operators? ==> t.press == e.p)
        && (t.hold.mode == NONE && c.kind.Plain? ==> t.press == s.press && t.release == s.release)
        && t.log == s.log && t.selected == s.selected && t.area == s.area
      else t.hold.Free?
  {
    hide ModeAt, Bounds, Clicked, HitsAt, SearchEnd, Inside, AreaOf, StillThere;
  }

  lemma NextStep(c: Setup, s: State, e: Event)
    requires s.last <= |s.work| && Dragging(s) && Harmless(e)
    ensures var t := Step(c, s, e);
      && t.hold == Held(s.hold.at, s.hold.mode, if e.Moved? then e.p else s.hold.mouse)
      && t.log == s.log && t.selected == s.selected && t.area == s.area
  {
    hide ModeAt, Bounds, Clicked, HitsAt, SearchEnd, Inside, AreaOf, StillThere, Trail;
  }

  /** While only harmless events follow a press, it stays held, for the selection there was. */
  lemma {:induction false} HeldThrough(c: Setup, events: seq<Event>, p: nat, k: nat)
    requires PressAt(c, events, p) && ModeOfPress(c, events, p) != NONE && p < k <= |events|
    requires forall j :: p < j < k ==> Harmless(events[j])
    ensures var s, t := After(c, events[..p]), After(c, events[..k]);
      && t.hold == Held(events[p].p, ModeOfPress(c, events, p), LastMouse(events[p + 1..k], events[p].p))
      && t.log == s.log && t.selected == s.selected && t.area == s.area
    decreases k
  {
    hide After, Step, ModeAt;
    AfterNext(c, events, k - 1);
    if k == p + 1 {
      FirstStep(c, After(c, events[..p]), events[p]);
      assert events[p + 1..k] == [];
    } else {
      HeldThrough(c, events, p, k - 1);
      NextStep(c, After(c, events[..k - 1]), events[k - 1]);
      assert events[p + 1..k][..k - p - 2] == events[p + 1..k - 1];
    }
  }

  /** What the release of a held button does. */
  lemma ReleaseSays(c: Setup, s: State, p: Point)
    requires s.hold.Held? && s.last <= |s.work|
    requires s.hold.mode == NONE || s.hold.mode == ALL || Resizes(s.hold.mode)
    ensures var h, t, click := s.hold, OnRelease(c, s, p), IsClick(c, s.hold, p);
      && t.hold.Free? && t.work == s.work
      && (h.mode != NONE ==>
           && t.log == s.log + (if click || (h.mode == ALL && p == h.at) then []
                                else if h.mode == ALL then [Displacement(h.at, p)]
                                else [Deltas(h.mode, Bounds(s.area), p)])
           && t.selected == if click then Clicked(c.box, s.work, s.last, p) else s.selected)
      && (h.mode == NONE && c.kind.Plain? ==>
           && t.log == s.log + (if c.releaseScript then [Script(s.press, s.release)] else [])
           && t.selected == s.selected)
      && (h.mode == NONE && c.kind.Operators? && s.press == h.at ==>
           && t.log == s.log + (if c.releaseScript then [Script(h.at, p)] else [])
           && t.selected == if p != h.at then Inside(c.box, s.work, [Between(h.at, p)])
                            else Clicked(c.box, s.work, |s.work|, p))
  {
    hide Bounds, Clicked, HitsAt, SearchEnd, Inside, AreaOf, Trail, Deltas, Displacement;
    assert s.log + [] == s.log;
  }

  /** A whole drag inside any run, in the base mode or with the mouse away from the press: it reports what its press
      and its release say, whatever other mouse events come between. */
  lemma DragIsReported(c: Setup, events: seq<Event>, p: nat, r: nat)
    requires PressAt(c, events, p) && ModeOfPress(c, events, p) != NONE
    requires p < r < |events| && events[r].Released? && forall j :: p < j < r ==> Harmless(events[j])
    ensures var at, to, mode := events[p].p, events[r].p, ModeOfPress(c, events, p);
      var s, t := After(c, events[..p]), After(c, events[..r + 1]);
      var click := c.kind.Operators? && if mode == ALL then LastMouse(events[p + 1..r], at) == at else to == at;
      && t.hold.Free?
      && t.log == s.log + (if click || (mode == ALL && to == at) then []
                           else if mode == ALL then [Displacement(at, to)]
                           else [Deltas(mode, Bounds(s.area), to)])
      && (!click ==> t.selected == s.selected)
      && (click ==> t.selected == Clicked(c.box, After(c, events[..r]).work, After(c, events[..r]).last, to))
  {
    hide After, ModeAt, Bounds, OnRelease;
    HeldThrough(c, events, p, r);
    AfterNext(c, events, r);
    ModeOfPressShape(c, events, p);
    ReleaseSays(c, After(c, events[..r]), events[r].p);
  }

  lemma {:induction false} HeldElsewhere(c: Setup, events: seq<Event>, p: nat, k: nat)
    requires PressAt(c, events, p) && ModeOfPress(c, events, p) == NONE && p < k <= |events|
    requires forall j :: p < j < k ==> !events[j].Released? && !events[j].Key?
    ensures var s, t := After(c, events[..p]), After(c, events[..k]);
      && t.hold.Held? && t.hold.at == events[p].p && t.hold.mode == NONE && t.log == s.log
      && (if c.kind.Operators? then t.press == events[p].p else t.press == s.press && t.release == s.release)
    decreases k
  {
    hide After, Step, ModeAt;
    AfterNext(c, events, k - 1);
    if k == p + 1 {
      FirstStep(c, After(c, events[..p]), events[p]);
    } else {
      HeldElsewhere(c, events, p, k - 1);
      ElsewhereStep(c, After(c, events[..k - 1]), events[k - 1]);
    }
  }

  lemma ElsewhereStep(c: Setup, s: State, e: Event)
    requires s.last <= |s.work| && s.hold.Held? && s.hold.mode == NONE && !e.Released? && !e.Key?
    ensures var t := Step(c, s, e);
      && t.hold.Held? && t.hold.at == s.hold.at && t.hold.mode == NONE && t.log == s.log && t.press == s.press
      && (c.kind.Plain? ==> t.release == s.release)
  {
    hide ModeAt, Bounds, Clicked, HitsAt, SearchEnd, Inside, AreaOf, StillThere, Trail;
  }

  /** A press outside the selection and its release inside any run, whatever comes between, changes of the selection
      and of the operators included: unless a key gives the press up, the release selects and calls the script. */
  lemma ElsewhereIsReported(c: Setup, events: seq<Event>, p: nat, r: nat)
    requires PressAt(c, events, p) && ModeOfPress(c, events, p) == NONE
    requires p < r < |events| && events[r].Released?
    requires forall j :: p < j < r ==> !events[j].Released? && !events[j].Key?
    ensures var at, to, s, t := events[p].p, events[r].p, After(c, events[..p]), After(c, events[..r + 1]);
      && t.hold.Free?
      && t.log == s.log + (if !c.releaseScript then []
                           else if c.kind.Operators? then [Script(at, to)]
                           else [Script(s.press, s.release)])
      && t.selected == (if c.kind.Plain? then After(c, events[..r]).selected
                        else if to != at then Inside(c.box, t.work, [Between(at, to)])
                        else Clicked(c.box, t.work, |t.work|, to))
  {
    hide After, ModeAt, Bounds, OnRelease;
    HeldElsewhere(c, events, p, r);
    AfterNext(c, events, r);
    ReleaseSays(c, After(c, events[..r]), events[r].p);
  }

  /** A command, the event of the press it answers, and the event of the release that made it. */
  ghost predicate Answers(c: Setup, events: seq<Event>, p: nat, r: nat, cmd: Command) {
    && p < r < |events| && PressAt(c, events, p) && events[r].Released?
    && var at, to, mode := events[p].p, events[r].p, ModeOfPress(c, events, p);
      match cmd
      case Move(_, _) => mode == ALL && to != at && cmd == Displacement(at, to) && SelectionKept(c, events, p, r)
      case Resize(_, _, _, _) =>
        Resizes(mode) && cmd == Deltas(mode, Bounds(After(c, events[..p]).area), to) && SelectionKept(c, events, p, r)
      case Script(press, release) =>
        && mode == NONE && c.releaseScript
        && (if c.kind.Operators? then press == at && release == to
            else press == After(c, events[..p]).press && release == After(c, events[..p]).release)
        && forall j :: p < j < r ==> !events[j].Released? && !events[j].Key?
  }

  /** Between the two events nothing has touched the selection. */
  ghost predicate SelectionKept(c: Setup, events: seq<Event>, p: nat, r: nat)
    requires p < r < |events|
  {
    && (forall j :: p < j < r ==> Harmless(events[j]))
    && After(c, events[..r]).selected == After(c, events[..p]).selected
    && After(c, events[..r]).area == After(c, events[..p]).area
  }

  /** The press at event p is held at the end, and what that says about the events since. */
  ghost predicate HeldSince(c: Setup, events: seq<Event>, p: nat) {
    && PressAt(c, events, p)
    && var s, t := After(c, events[..p]), After(c, events);
      && t.hold.Held? && t.hold.at == events[p].p && t.hold.mode == ModeOfPress(c, events, p)
      && (forall j :: p < j < |events| ==> !events[j].Released? && !events[j].Key?)
      && (t.hold.mode == NONE ==>
           if c.kind.Operators? then t.press == t.hold.at else t.press == s.press && t.release == s.release)
      && (t.hold.mode != NONE ==>
           (forall j :: p < j < |events| ==> Harmless(events[j])) && t.selected == s.selected && t.area == s.area)
  }

  /** An event after which the button is still down. */
  lemma StillHeld(c: Setup, s: State, e: Event)
    requires s.last <= |s.work| && s.hold.Held? && Step(c, s, e).hold.Held?
    ensures var t := Step(c, s, e);
      && t.hold.at == s.hold.at && t.hold.mode == s.hold.mode && !e.Released? && !e.Key?
      && (t.hold.mode == NONE ==> t.press == s.press && (c.kind.Plain? ==> t.release == s.release))
      && (t.hold.mode != NONE ==> Harmless(e) && t.selected == s.selected && t.area == s.area)
  {
    hide ModeAt, Bounds, Clicked, HitsAt, SearchEnd, Inside, AreaOf, StillThere, Trail;
  }

  lemma {:induction false} PressOfHold(c: Setup, events: seq<Event>) returns (p: nat)
    requires After(c, events).hold.Held?
    ensures HeldSince(c, events, p)
  {
    hide Step, ModeAt;
    var n := |events| - 1;
    var front, e := events[..n], events[n];
    if After(c, front).hold.Free? {
      p := n;
      FirstStep(c, After(c, front), e);
    } else {
      p := PressOfHold(c, front);
      StillHeld(c, After(c, front), e);
      assert events[..p] == front[..p];
    }
  }

  /** Only the release of a held button reports, one command at most. */
  lemma ReleaseReports(c: Setup, s: State, e: Event)
    requires s.last <= |s.work|
    requires s.hold.Held? ==> s.hold.mode == NONE || s.hold.mode == ALL || Resizes(s.hold.mode)
    ensures var h, t := s.hold, Step(c, s, e);
      t.log == s.log || (
        && h.Held? && e.Released? && |t.log| == |s.log| + 1 && t.log[..|s.log|] == s.log
        && match t.log[|s.log|]
           case Move(_, _) => h.mode == ALL && e.p != h.at && t.log[|s.log|] == Displacement(h.at, e.p)
           case Resize(_, _, _, _) => Resizes(h.mode) && t.log[|s.log|] == Deltas(h.mode, Bounds(s.area), e.p)
           case Script(press, release) =>
             h.mode == NONE && c.releaseScript && press == s.press
               && release == if c.kind.Operators? then e.p else s.release)
  {
    hide ModeAt, Bounds, Clicked, HitsAt, SearchEnd, Inside, AreaOf, StillThere, Trail;
  }

  lemma AnswersLonger(c: Setup, events: seq<Event>, p: nat, r: nat, cmd: Command, e: Event)
    requires Answers(c, events, p, r, cmd)
    ensures Answers(c, events + [e], p, r, cmd)
  {
    hide After, ModeAt, Deltas, Displacement;
    var more := events + [e];
    assert more[..p] == events[..p] && more[..r] == events[..r];
  }

  /** The event after a held press reports, if anything, what answers that press. */
  lemma CommandOfRelease(c: Setup, events: seq<Event>, e: Event, p: nat)
    requires HeldSince(c, events, p)
    ensures var n, s, t := |events|, After(c, events), After(c, events + [e]);
      t.log == s.log || (
        && |t.log| == |s.log| + 1 && t.log[..|s.log|] == s.log
        && Answers(c, events + [e], p, n, t.log[|s.log|]))
  {
    hide Step, ModeAt, Bounds, Deltas, Displacement;
    var more := events + [e];
    var n := |events|;
    assert more[..n] == events && more[..p] == events[..p];
    ModeOfPressShape(c, events, p);
    ReleaseReports(c, After(c, events), e);
  }

  /** Each command answers a press of its own: w lists the events of the presses and of the releases, and each release
      comes before the press that the next command answers. */
  ghost predicate Answered(c: Setup, events: seq<Event>, log: seq<Command>, w: seq<(nat, nat)>) {
    && |w| == |log|
    && (forall i :: 0 <= i < |w| ==> Answers(c, events, w[i].0, w[i].1, log[i]))
    && (forall i, j :: 0 <= i < j < |w| ==> w[i].1 < w[j].0)
  }

  lemma AnsweredLonger(c: Setup, events: seq<Event>, log: seq<Command>, w: seq<(nat, nat)>, e: Event)
    requires Answered(c, events, log, w)
    ensures Answered(c, events + [e], log, w)
  {
    forall i | 0 <= i < |w|
      ensures Answers(c, events + [e], w[i].0, w[i].1, log[i])
    {
      AnswersLonger(c, events, w[i].0, w[i].1, log[i], e);
    }
  }

  /** Between a held press and now no button was released, so all releases so far came before that press. */
  lemma ReleasedBefore(c: Setup, events: seq<Event>, log: seq<Command>, w: seq<(nat, nat)>, p: nat)
    requires Answered(c, events, log, w) && HeldSince(c, events, p)
    ensures forall i :: 0 <= i < |w| ==> w[i].1 < p
  {
    hide After, ModeAt, Deltas, Displacement, Bounds, SelectionKept, Harmless;
    forall i | 0 <= i < |w|
      ensures w[i].1 < p
    {
      assert Answers(c, events, w[i].0, w[i].1, log[i]);
      assert events[p].Pressed? && events[w[i].1].Released?;
    }
  }

  lemma AnsweredMore(c: Setup, events: seq<Event>, log: seq<Command>, w: seq<(nat, nat)>, p: nat, r: nat, cmd: Command)
    requires Answered(c, events, log, w) && Answers(c, events, p, r, cmd)
    requires forall i :: 0 <= i < |w| ==> w[i].1 < p
    ensures Answered(c, events, log + [cmd], w + [(p, r)])
  {
    hide Answers;
  }

  lemma FreeReportsNothing(c: Setup, s: State, e: Event)
    requires s.last <= |s.work| && s.hold.Free?
    ensures Step(c, s, e).log == s.log
  {
    hide ModeAt, Bounds, AreaOf, Inside, StillThere;
  }

  /** One more event: no command more, or one that answers the press held so far. */
  lemma AnsweredNext(c: Setup, events: seq<Event>, e: Event, w: seq<(nat, nat)>) returns (w': seq<(nat, nat)>)
    requires Answered(c, events, After(c, events).log, w)
    ensures Answered(c, events + [e], After(c, events + [e]).log, w')
  {
    hide *;
    var s, t := After(c, events), After(c, events + [e]);
    AnsweredLonger(c, events, s.log, w, e);
    w' := w;
    if s.hold.Free? {
      AfterOneMore(c, events, e);
      FreeReportsNothing(c, s, e);
    } else {
      var p := PressOfHold(c, events);
      ReleasedBefore(c, events, s.log, w, p);
      CommandOfRelease(c, events, e, p);
      if t.log != s.log {
        AnsweredMore(c, events + [e], s.log, w, p, |events|, t.log[|s.log|]);
        assert t.log == s.log + [t.log[|s.log|]];
        w' := w + [(p, |events|)];
      }
    }
  }

  /** Every command of a run answers a press of its own: it was made by a release after that press and before the
      press of the next command, and it says what the two events and the selection at the press say. */
  lemma {:induction false} CommandsAnswered(c: Setup, events: seq<Event>) returns (w: seq<(nat, nat)>)
    ensures Answered(c, events, After(c, events).log, w)
  {
    if events == [] {
      w := [];
    } else {
      hide *;
      var front, e := events[..|events| - 1], events[|events| - 1];
      assert events == front + [e];
      w := CommandsAnswered(c, front);
      w := AnsweredNext(c, front, e, w);
    }
  }

  // ----- the positions that the base mode hands to its release script -----

  /** The press at event p begins a resize. */
  ghost predicate ResizePress(c: Setup, events: seq<Event>, p: nat) {
    PressAt(c, events, p) && Resizes(ModeOfPress(c, events, p))
  }

  lemma ResizePressLonger(c: Setup, events: seq<Event>, e: Event, p: nat)
    requires p < |events|
    ensures ResizePress(c, events + [e], p) <==> ResizePress(c, events, p)
  {
    hide After, ModeAt;
    assert (events + [e])[..p] == events[..p];
  }

  /** A resize that is held was begun by a press that nothing has ended. */
  lemma ResizeWasPressed(c: Setup, events: seq<Event>) returns (p: nat)
    requires After(c, events).hold.Held? && Resizes(After(c, events).hold.mode)
    ensures ResizePress(c, events, p) && forall j :: p < j < |events| ==> Harmless(events[j])
  {
    hide After, ModeAt, Harmless;
    p := PressOfHold(c, events);
  }

  /** Without a press that begins a resize, no event touches the two positions in the base mode. */
  lemma PositionsStay(c: Setup, s: State, e: Event)
    requires c.kind.Plain? && s.last <= |s.work|
    requires s.hold.Held? ==> !Resizes(s.hold.mode)
    requires e.Pressed? && s.hold.Free? ==> !Resizes(ModeAt(c, s.area, e.p))
    ensures var t := Step(c, s, e); t.press == s.press && t.release == s.release
  {
    hide ModeAt, Bounds, AreaOf, StillThere, Anchor, Corner, Trail, Deltas, Displacement;
  }

  /** In the base mode, as long as no resize has been begun, the positions are those of the start. */
  lemma {:induction false} PositionsOfStart(c: Setup, events: seq<Event>)
    requires c.kind.Plain? && forall p: nat :: !ResizePress(c, events, p)
    ensures After(c, events).press == After(c, events).release == Point(0, 0)
  {
    if events != [] {
      hide *;
      var front, e := events[..|events| - 1], events[|events| - 1];
      assert events == front + [e];
      forall p: nat
        ensures !ResizePress(c, front, p)
      {
        NoPressBeyond(c, front, p);
        if p < |front| {
          ResizePressLonger(c, front, e, p);
        }
      }
      PositionsOfStart(c, front);
      if After(c, front).hold.Held? && Resizes(After(c, front).hold.mode) {
        var p := ResizeWasPressed(c, front);
        assert false;
      }
      PressHere(c, front, e);
      PositionsStay(c, After(c, front), e);
      AfterOneMore(c, front, e);
    }
  }

  lemma NoPressBeyond(c: Setup, events: seq<Event>, p: nat)
    ensures ResizePress(c, events, p) ==> p < |events|
  {
  }

  /** The last of some events begins a resize exactly if it is a press that does so in the state before. */
  lemma PressHere(c: Setup, events: seq<Event>, e: Event)
    ensures ResizePress(c, events + [e], |events|) <==>
      e.Pressed? && After(c, events).hold.Free? && Resizes(ModeAt(c, After(c, events).area, e.p))
  {
    hide After, ModeAt;
    assert (events + [e])[..|events|] == events;
  }

  /** Where the moving corner of a resize is left by the events after its press: at the last mouse position of the
      resize or at its release, and where it was if there is neither. */
  function LeftAt(mode: Mode, b: Rect, events: seq<Event>): Point {
    if events == [] then Corner(mode, b)
    else
      var front, e := events[..|events| - 1], events[|events| - 1];
      if (e.Moved? || e.Released?) && forall j :: 0 <= j < |front| ==> Harmless(front[j]) then Trail(mode, b, e.p)
      else LeftAt(mode, b, front)
  }

  lemma LeftAtNext(mode: Mode, b: Rect, events: seq<Event>, e: Event)
    ensures LeftAt(mode, b, []) == Corner(mode, b)
    ensures LeftAt(mode, b, events + [e]) ==
      if (e.Moved? || e.Released?) && forall j :: 0 <= j < |events| ==> Harmless(events[j]) then Trail(mode, b, e.p)
      else LeftAt(mode, b, events)
  {
    hide Corner, Trail, Harmless;
    assert (events + [e])[..|events|] == events;
  }

  /** What an event does to the two positions while a resize is held in the base mode. */
  lemma PositionsInResize(c: Setup, s: State, e: Event)
    requires c.kind.Plain? && s.last <= |s.work| && s.hold.Held? && Resizes(s.hold.mode)
    ensures var t := Step(c, s, e);
      && t.press == s.press
      && t.release == if e.Moved? || e.Released? then Trail(s.hold.mode, Bounds(s.area), e.p) else s.release
  {
    hide ModeAt, Bounds, AreaOf, StillThere, Anchor, Corner, Trail, Deltas, Displacement;
  }

  lemma PositionsOfPress(c: Setup, s: State, p: Point)
    requires s.last <= |s.work| && s.hold.Free? && Resizes(ModeAt(c, s.area, p))
    ensures var t, mode := Step(c, s, Pressed(p)), ModeAt(c, s.area, p);
      t.press == Anchor(mode, Bounds(s.area)) && t.release == Corner(mode, Bounds(s.area))
  {
    hide ModeAt, Bounds, Anchor, Corner;
  }

  /** The last press that begins a resize. */
  ghost predicate LastResize(c: Setup, events: seq<Event>, p: nat) {
    ResizePress(c, events, p) && forall q :: p < q < |events| ==> !ResizePress(c, events, q)
  }

  /** After it, a resize is held exactly as long as nothing has ended this one. */
  lemma ResizeHeldIff(c: Setup, events: seq<Event>, p: nat)
    requires LastResize(c, events, p)
    ensures var s, t := After(c, events[..p]), After(c, events);
      var live := forall j :: p < j < |events| ==> Harmless(events[j]);
      && (t.hold.Held? && Resizes(t.hold.mode) <==> live)
      && (live ==> t.hold.mode == ModeOfPress(c, events, p) && t.area == s.area)
  {
    hide After, Step, ModeAt, Harmless;
    assert events[..|events|] == events;
    if forall j :: p < j < |events| ==> Harmless(events[j]) {
      HeldThrough(c, events, p, |events|);
    } else if After(c, events).hold.Held? && Resizes(After(c, events).hold.mode) {
      var q := ResizeWasPressed(c, events);
      assert false;
    }
  }

  lemma LastResizeBefore(c: Setup, events: seq<Event>, e: Event, p: nat)
    requires LastResize(c, events + [e], p) && p < |events|
    ensures LastResize(c, events, p) && !ResizePress(c, events + [e], |events|)
  {
    hide ResizePress;
    ResizePressLonger(c, events, e, p);
    forall q | p < q < |events|
      ensures !ResizePress(c, events, q)
    {
      ResizePressLonger(c, events, e, q);
    }
  }

  lemma HarmlessFrom(events: seq<Event>, k: nat)
    requires k <= |events|
    ensures (forall j :: 0 <= j < |events[k..]| ==> Harmless(events[k..][j]))
      <==> forall j :: k <= j < |events| ==> Harmless(events[j])
  {
    hide Harmless;
    if forall j :: 0 <= j < |events[k..]| ==> Harmless(events[k..][j]) {
      forall j | k <= j < |events|
        ensures Harmless(events[j])
      {
        assert events[k..][j - k] == events[j];
      }
    }
  }

  /** In the base mode, the positions are those that the last resize left: the corner that stayed at its press, and
      where the other one was led. */
  lemma {:induction false} PositionsOfLastResize(c: Setup, events: seq<Event>, p: nat)
    requires c.kind.Plain? && LastResize(c, events, p)
    ensures var s, t, mode := After(c, events[..p]), After(c, events), ModeOfPress(c, events, p);
      t.press == Anchor(mode, Bounds(s.area)) && t.release == LeftAt(mode, Bounds(s.area), events[p + 1..])
    decreases |events|
  {
    hide After, Step, ModeAt, Anchor, Corner, Trail, Bounds, LeftAt, Harmless;
    var front, e := events[..|events| - 1], events[|events| - 1];
    assert events == front + [e] && events[..p] == front[..p];
    var s, mode := After(c, events[..p]), ModeOfPress(c, events, p);
    AfterOneMore(c, front, e);
    if p == |front| {
      PositionsOfPress(c, s, e.p);
      LeftAtNext(mode, Bounds(s.area), [], e);
      assert front[..p] == front && events[p + 1..] == [];
    } else {
      LastResizeBefore(c, front, e, p);
      PositionsOfLastResize(c, front, p);
      ResizeHeldIff(c, front, p);
      PressHere(c, front, e);
      HarmlessFrom(front, p + 1);
      LeftAtNext(mode, Bounds(s.area), front[p + 1..], e);
      assert events[p + 1..] == front[p + 1..] + [e];
      if After(c, front).hold.Held? && Resizes(After(c, front).hold.mode) {
        PositionsInResize(c, After(c, front), e);
      } else {
        PositionsStay(c, After(c, front), e);
      }
    }
  }

  /** An ordinary press and its release in the base mode: until a resize has been begun, the script is told zeros, so it
      is told the two points exactly if both are zero. */
  lemma ScriptBeforeResizes(c: Setup, events: seq<Event>, p: nat, r: nat)
    requires c.kind.Plain? && c.releaseScript && PressAt(c, events, p) && ModeOfPress(c, events, p) == NONE
    requires p < r < |events| && events[r].Released?
    requires forall j :: p < j < r ==> !events[j].Released? && !events[j].Key?
    requires forall q: nat :: !ResizePress(c, events[..p], q)
    ensures var before, log := After(c, events[..p]).log, After(c, events[..r + 1]).log;
      && log == before + [Script(Point(0, 0), Point(0, 0))]
      && (log == before + [Script(events[p].p, events[r].p)] <==> events[p].p == events[r].p == Point(0, 0))
  {
    hide After, ModeAt, ResizePress;
    ElsewhereIsReported(c, events, p, r);
    PositionsOfStart(c, events[..p]);
    SameLast(After(c, events[..p]).log, Script(Point(0, 0), Point(0, 0)), Script(events[p].p, events[r].p));
  }

  /** Afterwards it is told what the last resize left, so exactly a press at the corner that stayed and a release where
      the other one was led are told as they are. */
  lemma ScriptAfterResize(c: Setup, events: seq<Event>, q: nat, p: nat, r: nat)
    requires c.kind.Plain? && c.releaseScript && PressAt(c, events, p) && ModeOfPress(c, events, p) == NONE
    requires p < r < |events| && events[r].Released?
    requires forall j :: p < j < r ==> !events[j].Released? && !events[j].Key?
    requires LastResize(c, events[..p], q)
    ensures var before, log := After(c, events[..p]).log, After(c, events[..r + 1]).log;
      var mode, b := ModeOfPress(c, events[..p], q), Bounds(After(c, events[..q]).area);
      var stayed, led := Anchor(mode, b), LeftAt(mode, b, events[q + 1..p]);
      && log == before + [Script(stayed, led)]
      && (log == before + [Script(events[p].p, events[r].p)] <==> events[p].p == stayed && events[r].p == led)
  {
    hide After, ModeAt, Anchor, LeftAt, Bounds;
    ElsewhereIsReported(c, events, p, r);
    PositionsOfLastResize(c, events[..p], q);
    assert events[..p][..q] == events[..q] && events[..p][q + 1..] == events[q + 1..p];
    var s := After(c, events[..p]);
    SameLast(s.log, Script(s.press, s.release), Script(events[p].p, events[r].p));
  }

  lemma SameLast(log: seq<Command>, a: Command, b: Command)
    ensures log + [a] == log + [b] <==> a == b
  {
    assert (log + [a])[|log|] == a && (log + [b])[|log|] == b;
  }

  /** The first click of a view in the base mode: wherever it is, the script is told zeros. */
  lemma FirstClickInBaseMode(c: Setup, at: Point, to: Point)
    requires c.kind.Plain? && c.releaseScript
    ensures After(c, [Pressed(at), Released(to)]).log == [Script(Point(0, 0), Point(0, 0))]
  {
    hide After, Clicked, HitsAt, SearchEnd, Inside, AreaOf;
    NoEvents(c);
    AfterOneMore(c, [], Pressed(at));
    AfterOneMore(c, [Pressed(at)], Released(to));
    assert [] + [Pressed(at)] == [Pressed(at)] && [Pressed(at)] + [Released(to)] == [Pressed(at), Released(to)];
  }
}
