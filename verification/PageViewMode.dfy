/** src/gui/pageviewmode.cc: selecting, moving and resizing operators with the mouse. */
module PageViewMode {
  import opened Helpers
  import opened ViewGeometry
  import opened HitCycle
  import opened PageViewSpec
  import opened PageViewLaws

  method FindOperators(box: Boxes, ops: seq<Op>, r: Region) returns (found: seq<Op>)
    ensures found == Inside(box, ops, r) && CoveredInOrder(box, ops, r, found)
  {
    hide CoveredInOrder, Covered;
    found := [];
    for i := 0 to |ops|
      invariant found == Inside(box, ops[..i], r)
    {
      assert ops[..i + 1][..i] == ops[..i];
      if Covered(box(ops[i]), r) {
        found := found + [ops[i]];
      }
    }
    assert ops[..|ops|] == ops;
    InsideInOrder(box, ops, r);
  }

  /** The nested loops of ActualizeSelection. */
  method KeepPresent(selected: seq<Op>, work: seq<Op>) returns (kept: seq<Op>)
    ensures kept == StillThere(selected, work) && KeptInOrder(selected, work, kept)
  {
    hide KeptInOrder;
    kept := [];
    for i := 0 to |selected|
      invariant kept == StillThere(selected[..i], work)
    {
      assert selected[..i + 1][..i] == selected[..i];
      var j := 0;
      while j < |work|
        invariant 0 <= j <= |work|
        invariant selected[i] !in work[..j]
        invariant kept == StillThere(selected[..i], work)
      {
        if work[j] == selected[i] {
          kept := kept + [work[j]];
          break;
        }
        j := j + 1;
      }
    }
    assert selected[..|selected|] == selected;
    StillThereInOrder(selected, work);
  }

  // ----- the arithmetic of resizing -----

  /** Where the resizing anchors and moving corners stand for a set of sides. */
  ghost predicate Anchored(mode: Mode, b: Rect, press: Point, corner: Point, coefX: int, coefY: int) {
    && press == Anchor(mode, b) && corner == Corner(mode, b)
    && coefX == (if mode.left || mode.right then 1 else 0)
    && coefY == (if mode.top || mode.bottom then 1 else 0)
  }

  /** The deltas by the corner that was moving; it is always one of the four. */
  function CornerDeltas(b: Rect, corner: Point, press: Point, release: Point): Command
    requires corner.x == b.left || corner.x == b.right
    requires corner.y == b.top || corner.y == b.bottom
  {
    if corner == Point(b.left, b.top) then
      Resize(b.left - release.x, b.top - release.y, b.right - press.x, b.bottom - press.y)
    else if corner == Point(b.right, b.top) then
      Resize(b.left - press.x, b.top - release.y, b.right - release.x, b.bottom - press.y)
    else if corner == Point(b.left, b.bottom) then
      Resize(b.left - release.x, b.top - press.y, b.right - press.x, b.bottom - release.y)
    else
      Resize(b.left - press.x, b.top - press.y, b.right - release.x, b.bottom - release.y)
  }

  /** Where the moving corner is after a mouse move: coordinates that do not follow stay. */
  function Follow(corner: Point, to: Point, coefX: int, coefY: int): Point {
    Point(corner.x * (if coefX == 0 then 1 else 0) + to.x * coefX,
          corner.y * (if coefY == 0 then 1 else 0) + to.y * coefY)
  }

  lemma TranslateNone(r: Region)
    ensures Translate(r, 0, 0) == r
  {
  }

  lemma FollowIsTrail(mode: Mode, b: Rect, press: Point, corner: Point, coefX: int, coefY: int, to: Point)
    requires Anchored(mode, b, press, corner, coefX, coefY)
    ensures Follow(corner, to, coefX, coefY) == Trail(mode, b, to)
  {
  }

  /** On an axis one wide, a point of the region is in the near zone. */
  predicate ThinAxesNear(mode: Mode, b: Rect) {
    && (b.left == b.right ==> !mode.right)
    && (b.top == b.bottom ==> !mode.bottom)
  }

  lemma DeltasAreRight(mode: Mode, b: ProperRect, press: Point, corner: Point, to: Point)
    requires Resizes(mode) && ThinAxesNear(mode, b) && press == Anchor(mode, b) && corner == Corner(mode, b)
    ensures CornerDeltas(b, corner, press, Trail(mode, b, to)) == Deltas(mode, b, to)
  {
  }

  lemma ThinAxes(r: Region, p: Point, zone: int)
    requires r != [] && Bounds(r).Holds(p) && Resizes(NearestResizingMode(r, p, zone))
    ensures ThinAxesNear(NearestResizingMode(r, p, zone), Bounds(r))
  {
  }

  class PageView {
    const kind: Kind
    const box: Boxes
    /** Whether a script is defined for an ordinary release. */
    const releaseScript: bool
    const resizingZone: int

    var workOps: seq<Op>
    var selectedOps: seq<Op>
    var workRegion: Region
    var selectedRegion: Region
    var mouseRegion: Region
    var pressPosition: Point
    var releasePosition: Point
    var pointInRect: Point
    var coefX: int
    var coefY: int
    var isPressed: bool
    var isMoving: bool
    var isResizing: bool
    var lastSelected: nat
    var resizingPress: Point
    /** Script calls made so far. */
    var log: seq<Command>

    /** The press that is held, what it began, and where the mouse is by now. */
    ghost var hold: Hold

    ghost function Conf(): Setup {
      Setup(kind, box, releaseScript, resizingZone)
    }

    /** The state that the events are specified on. */
    ghost function View(): State
      reads this
    {
      State(workOps, selectedOps, selectedRegion, hold, pressPosition, releasePosition, lastSelected, log)
    }

    /** What a press at a point would begin. */
    ghost function PressMode(p: Point): Mode
      reads this
    {
      ModeAt(Conf(), selectedRegion, p)
    }

    /** The moved region is where the mouse has taken it from the press. */
    ghost predicate MovingFrom(at: Point, mouse: Point)
      reads this`selectedRegion, this`mouseRegion, this`pointInRect
    {
      && selectedRegion != []
      && mouseRegion == Translate(selectedRegion, mouse.x - at.x, mouse.y - at.y)
      && pointInRect == Point(at.x - Bounds(selectedRegion).left, at.y - Bounds(selectedRegion).top)
    }

    ghost predicate ResizingBy(at: Point, mode: Mode)
      reads this`selectedRegion, this`pressPosition, this`pointInRect, this`coefX, this`coefY, this`resizingPress
    {
      && selectedRegion != [] && Resizes(mode) && ThinAxesNear(mode, Bounds(selectedRegion))
      && Anchored(mode, Bounds(selectedRegion), pressPosition, pointInRect, coefX, coefY)
      && (kind.Operators? ==> resizingPress == at)
    }

    ghost predicate HoldValid()
      reads this`isPressed, this`isMoving, this`isResizing, this`hold, this`selectedRegion, this`mouseRegion
      reads this`pointInRect, this`pressPosition, this`coefX, this`coefY, this`resizingPress
    {
      && (isPressed <==> hold.Held?)
      && (isPressed ==>
           && (isMoving <==> hold.mode == ALL) && (isResizing <==> Resizes(hold.mode))
           && (isMoving || isResizing || hold.mode == NONE)
           && (isMoving ==> MovingFrom(hold.at, hold.mouse))
           && (isResizing ==> ResizingBy(hold.at, hold.mode)))
    }

    ghost predicate AreasValid()
      reads this`workOps, this`workRegion, this`lastSelected
    {
      lastSelected <= |workOps| && workRegion == AreaOf(box, workOps)
    }

    ghost predicate Valid()
      reads this
    {
      AreasValid() && HoldValid()
    }

    constructor (kind: Kind, box: Boxes, releaseScript: bool, zone: int)
      ensures Valid() && Conf() == Setup(kind, box, releaseScript, zone) && View() == START
    {
      this.kind, this.box, this.releaseScript, this.resizingZone := kind, box, releaseScript, zone;
      workOps, selectedOps, workRegion, selectedRegion, mouseRegion := [], [], [], [], [];
      pressPosition, releasePosition := Point(0, 0), Point(0, 0);
      isPressed, isMoving, isResizing, lastSelected, log := false, false, false, 0, [];
      hold := Free;
    }

    // ----- moving -----

    /** The first call takes the region along; later ones bring it to where the mouse is. */
    method MoveSelectedObjects(e: Point)
      requires if isMoving then hold.Held? && MovingFrom(hold.at, hold.mouse) else selectedRegion != []
      modifies this`pointInRect, this`mouseRegion, this`isMoving
      ensures isMoving
      ensures if old(isMoving) then MovingFrom(hold.at, e) else MovingFrom(e, e)
    {
      hide Bounds, Translate;
      if !isMoving {
        pointInRect := Point(e.x - Bounds(selectedRegion).left, e.y - Bounds(selectedRegion).top);
        mouseRegion := selectedRegion;
        isMoving := true;
        TranslateNone(selectedRegion);
        return;
      }
      ghost var shift := Point(hold.mouse.x - hold.at.x, hold.mouse.y - hold.at.y);
      BoundsShift(selectedRegion, shift.x, shift.y);
      var b := Bounds(mouseRegion);
      var off := Point(b.left - e.x + pointInRect.x, b.top - e.y + pointInRect.y);
      mouseRegion := Translate(mouseRegion, -off.x, -off.y);
      TranslateTwice(selectedRegion, shift.x, shift.y, -off.x, -off.y);
    }

    /** The end of a move: the displacement is reported unless there is none. */
    method MovedSelectedObjects(e: Point)
      requires Valid() && isPressed && isMoving
      modifies this`pointInRect, this`mouseRegion, this`isMoving, this`log
      ensures log == old(log) + if e == hold.at then [] else [Displacement(hold.at, e)]
    {
      hide Bounds, Translate, Anchored, AreaOf;
      MoveSelectedObjects(e);
      isMoving := false;
      BoundsShift(selectedRegion, e.x - hold.at.x, e.y - hold.at.y);
      var b, b' := Bounds(selectedRegion), Bounds(mouseRegion);
      if (b'.left - b.left, b'.top - b.top) != (0, 0) {
        log := log + [Move(b'.left - b.left, b'.top - b.top)];
      }
    }

    // ----- resizing -----

    /** The first call fixes which sides follow the mouse; later ones move the corner. */
    method ResizeSelectedObjects(e: Point)
      requires selectedRegion != []
      modifies this`pointInRect, this`pressPosition, this`releasePosition, this`coefX, this`coefY, this`isResizing
      ensures isResizing
      ensures !old(isResizing) ==>
        var mode, b := NearestResizingMode(selectedRegion, e, resizingZone), Bounds(selectedRegion);
        Anchored(mode, b, pressPosition, pointInRect, coefX, coefY) && releasePosition == Corner(mode, b)
      ensures old(isResizing) ==>
        && releasePosition == Follow(pointInRect, e, coefX, coefY)
        && unchanged(`pointInRect, `pressPosition, `coefX, `coefY)
    {
      hide NearestResizingMode, Bounds;
      if !isResizing {
        var mode := NearestResizingMode(selectedRegion, e, resizingZone);
        var b := Bounds(selectedRegion);
        if mode.left {
          pressPosition, releasePosition := pressPosition.(x := b.right), releasePosition.(x := b.left);
        } else {
          pressPosition, releasePosition := pressPosition.(x := b.left), releasePosition.(x := b.right);
        }
        coefX := if mode.left || mode.right then 1 else 0;
        if mode.top {
          pressPosition, releasePosition := pressPosition.(y := b.bottom), releasePosition.(y := b.top);
        } else {
          pressPosition, releasePosition := pressPosition.(y := b.top), releasePosition.(y := b.bottom);
        }
        coefY := if mode.top || mode.bottom then 1 else 0;
        pointInRect := releasePosition;
        isResizing := true;
        return;
      }
      releasePosition := Follow(pointInRect, e, coefX, coefY);
    }

    /** The end of a resize: four deltas are reported. */
    method ResizedSelectedObjects(e: Point)
      requires Valid() && isPressed && isResizing
      modifies this`pointInRect, this`pressPosition, this`releasePosition, this`coefX, this`coefY, this`isResizing,
               this`log
      ensures pressPosition == old(pressPosition)
      ensures releasePosition == Trail(hold.mode, Bounds(selectedRegion), e)
      ensures log == old(log) + [Deltas(hold.mode, Bounds(selectedRegion), e)]
    {
      hide Bounds, Follow, Trail, CornerDeltas, Deltas, ThinAxesNear, AreaOf, NearestResizingMode;
      var b := Bounds(selectedRegion);
      FollowIsTrail(hold.mode, b, pressPosition, pointInRect, coefX, coefY, e);
      ResizeSelectedObjects(e);
      isResizing := false;
      DeltasAreRight(hold.mode, b, pressPosition, pointInRect, e);
      log := log + [CornerDeltas(b, pointInRect, pressPosition, releasePosition)];
    }

    // ----- changes of the selection -----

    /** Ends a move or resize under way; a press that began neither stays held. */
    method CancelDrag()
      requires HoldValid()
      modifies this`isPressed, this`hold
      ensures HoldValid() && hold == Settled(old(hold))
    {
      hide MovingFrom, ResizingBy;
      if isPressed && (isResizing || isMoving) {
        isPressed, hold := false, Free;
      }
    }

    method AddOpsBBoxToRegion(r: Region, ops: seq<Op>) returns (r': Region)
      requires HoldValid()
      modifies this`isPressed, this`hold
      ensures HoldValid() && hold == Settled(old(hold))
      ensures r' == r + AreaOf(box, ops)
    {
      hide HoldValid;
      CancelDrag();
      r' := r;
      for i := 0 to |ops|
        invariant r' == r + AreaOf(box, ops[..i])
      {
        assert AreaOf(box, ops[..i + 1]) == AreaOf(box, ops[..i]) + [box(ops[i])];
        r' := r' + [box(ops[i])];
      }
      assert ops[..|ops|] == ops;
    }

    method ClearSelectedOperators()
      requires Valid()
      modifies this`selectedOps, this`selectedRegion, this`isPressed, this`hold
      ensures Valid() && View() == Select(Conf(), old(View()), [])
    {
      hide MovingFrom, ResizingBy;
      CancelDrag();
      selectedOps, selectedRegion := [], [];
      assert AreaOf(box, []) == [];
    }

    method AddSelectedOperators(ops: seq<Op>)
      requires Valid()
      modifies this`selectedOps, this`selectedRegion, this`isPressed, this`hold
      ensures Valid() && View() == Enlarge(Conf(), old(View()), ops)
    {
      hide MovingFrom, ResizingBy, AreaOf;
      CancelDrag();
      selectedOps := selectedOps + ops;
      selectedRegion := AddOpsBBoxToRegion(selectedRegion, ops);
    }

    method SetSelectedOperators(ops: seq<Op>)
      requires Valid()
      modifies this`selectedOps, this`selectedRegion, this`isPressed, this`hold
      ensures Valid() && View() == Select(Conf(), old(View()), ops)
    {
      hide HoldValid, AreasValid;
      ClearSelectedOperators();
      AddSelectedOperators(ops);
      assert [] + ops == ops;
      assert AreaOf(box, []) + AreaOf(box, ops) == AreaOf(box, ops);
    }

    /** The base mode takes the region as it is; the other one selects what lies inside. */
    method SetSelectedRegion(r: Region)
      requires Valid()
      modifies this`selectedOps, this`selectedRegion, this`isPressed, this`hold
      ensures Valid() && View() == Step(Conf(), old(View()), SelectRegion(r))
      ensures if kind.Plain? then selectedRegion == r && selectedOps == old(selectedOps)
              else selectedOps == Inside(box, workOps, r) && CoveredInOrder(box, workOps, r, selectedOps)
    {
      hide MovingFrom, ResizingBy, AreaOf, Inside, CoveredInOrder;
      match kind {
        case Plain =>
          CancelDrag();
          selectedRegion := r;
        case Operators =>
          var found := FindOperators(box, workOps, r);
          SetSelectedOperators(found);
      }
    }

    /** Keeps of the selection what is still among the work operators. */
    method ActualizeSelection()
      requires Valid()
      modifies this`selectedOps, this`selectedRegion, this`isPressed, this`hold
      ensures Valid() && View() == Select(Conf(), old(View()), StillThere(old(selectedOps), workOps))
      ensures selectedOps == StillThere(old(selectedOps), workOps) && selectedRegion == AreaOf(box, selectedOps)
      ensures KeptInOrder(old(selectedOps), workOps, selectedOps)
    {
      hide AreaOf, MovingFrom, ResizingBy, KeptInOrder, StillThere, Bounds;
      CancelDrag();
      selectedOps := KeepPresent(selectedOps, workOps);
      selectedRegion := [];
      selectedRegion := AddOpsBBoxToRegion(selectedRegion, selectedOps);
      assert [] + AreaOf(box, selectedOps) == AreaOf(box, selectedOps);
    }

    method ClearWorkOperators()
      requires Valid()
      modifies this`workOps, this`workRegion, this`lastSelected
      ensures Valid() && View() == old(View()).(work := [], last := 0)
    {
      hide HoldValid;
      workOps, workRegion := [], [];
      lastSelected := 0;
    }

    method AddWorkOperators(ops: seq<Op>)
      requires Valid()
      modifies this`workOps, this`workRegion, this`lastSelected, this`isPressed, this`hold
      ensures Valid() && View() == Cancel(old(View())).(work := old(workOps) + ops, last := |old(workOps) + ops|)
    {
      hide HoldValid, AreaOf;
      workOps := workOps + ops;
      AreaConcat(box, old(workOps), ops);
      workRegion := AddOpsBBoxToRegion(workRegion, ops);
      lastSelected := |workOps|;
    }

    method SetWorkOperators(ops: seq<Op>)
      requires Valid()
      modifies this`workOps, this`workRegion, this`lastSelected, this`isPressed, this`hold
      ensures Valid() && View() == Cancel(old(View())).(work := ops, last := |ops|)
    {
      ClearWorkOperators();
      AddWorkOperators(ops);
      assert [] + ops == ops;
    }

    // ----- mouse events -----

    /** A press inside the zones of the selection begins a move or a resize, any other one is left to the mode. */
    method BeginPress(e: Point)
      requires AreasValid() && isPressed && !isMoving && !isResizing
      requires hold == Held(e, ModeAt(Conf(), selectedRegion, e), e)
      modifies this`isMoving, this`isResizing, this`pointInRect, this`pressPosition, this`releasePosition, this`coefX,
               this`coefY, this`mouseRegion, this`resizingPress
      ensures Valid()
      ensures (isMoving <==> hold.mode == ALL) && (isResizing <==> Resizes(hold.mode))
      ensures View() == OnPress(Conf(), old(View()).(hold := Free), e)
    {
      hide NearestResizingMode, Bounds, Anchor, Corner, Translate, AreaOf, ThinAxesNear;
      var mode := NONE;
      if Bounds(selectedRegion).Holds(e) {
        mode := NearestResizingMode(selectedRegion, e, resizingZone);
      }
      ModeShape(selectedRegion, e, resizingZone);
      if mode == NONE {
        if kind.Operators? {
          pressPosition, releasePosition := e, e;
        }
      } else if mode == ALL {
        MoveSelectedObjects(e);
      } else {
        ThinAxes(selectedRegion, e, resizingZone);
        if kind.Operators? {
          resizingPress := e;
        }
        ResizeSelectedObjects(e);
      }
    }

    method MousePress(e: Point)
      requires Valid()
      modifies this`isPressed, this`isMoving, this`isResizing, this`pointInRect, this`pressPosition,
               this`releasePosition, this`coefX, this`coefY, this`mouseRegion, this`resizingPress, this`hold
      ensures Valid() && View() == OnPress(Conf(), old(View()), e)
    {
      hide Bounds, ModeAt, Anchored, Translate, AreaOf, ThinAxesNear, Corner, Anchor;
      if !isPressed {
        isPressed, isMoving, isResizing := true, false, false;
        hold := Held(e, ModeAt(Conf(), selectedRegion, e), e);
        BeginPress(e);
      }
    }

    method MouseMove(e: Point)
      requires Valid()
      modifies this`isMoving, this`isResizing, this`pointInRect, this`pressPosition, this`releasePosition, this`coefX,
               this`coefY, this`mouseRegion, this`hold
      ensures Valid() && View() == OnMove(Conf(), old(View()), e)
      ensures isPressed && isMoving ==>
        mouseRegion == Translate(selectedRegion, e.x - hold.at.x, e.y - hold.at.y)
    {
      hide Bounds, ModeAt, Translate, AreaOf, ThinAxesNear, Corner, Anchor, Follow, Trail;
      if isPressed {
        if isMoving {
          MoveSelectedObjects(e);
        } else if isResizing {
          FollowIsTrail(hold.mode, Bounds(selectedRegion), pressPosition, pointInRect, coefX, coefY, e);
          ResizeSelectedObjects(e);
        } else if kind.Operators? {
          releasePosition := e;
        }
        hold := hold.(mouse := e);
      }
    }

    /** Selects the next operator under the mouse, below the one selected last. */
    method SelectPrevious(e: Point)
      requires Valid()
      modifies this`lastSelected, this`selectedOps, this`selectedRegion, this`isPressed, this`hold
      ensures Valid() && View() == SelectNext(Conf(), Cancel(old(View())), old(lastSelected), e)
    {
      hide HoldValid, AreaOf, Prev;
      var found, it, fromEnd := FindPrevOperator(lastSelected, HitsAt(box, workOps, e));
      lastSelected := it;
      SetSelectedOperators(if found then [workOps[it]] else []);
    }

    /** A release that ends neither a move nor a resize. */
    method MouseReleaseLeftButton(e: Point)
      requires Valid() && isPressed && !isMoving && !isResizing
      modifies this
      ensures AreasValid() && View() == LetGo(Conf(), old(View()), e)
      ensures kind.Operators? && old(pressPosition) != e ==>
        CoveredInOrder(box, workOps, [Between(old(pressPosition), e)], selectedOps)
    {
      hide AreaOf, Inside, Clicked, HitsAt, SearchEnd, CoveredInOrder;
      if kind.Operators? {
        releasePosition := e;
        lastSelected := |workOps|;
        if pressPosition != releasePosition {
          var found := FindOperators(box, workOps, [Between(pressPosition, releasePosition)]);
          SetSelectedOperators(found);
        } else {
          SelectPrevious(e);
        }
      }
      if releaseScript {
        log := log + [Script(pressPosition, releasePosition)];
      }
    }

    /** The release at the end of a move: in the selecting mode, a click if the region is where it was. */
    method EndMove(e: Point)
      requires Valid() && isPressed && isMoving
      modifies this
      ensures AreasValid() && View().(hold := Free) == OnRelease(Conf(), old(View()), e)
    {
      hide Bounds, Translate, AreaOf, Clicked, HitsAt, SearchEnd, ResizingBy;
      BoundsShift(selectedRegion, hold.mouse.x - hold.at.x, hold.mouse.y - hold.at.y);
      var b, b' := Bounds(selectedRegion), Bounds(mouseRegion);
      if kind.Operators? && (b.left, b.top) == (b'.left, b'.top) {
        SelectPrevious(e);
      } else {
        MovedSelectedObjects(e);
      }
    }

    /** The release at the end of a resize: in the selecting mode, a click if the mouse is at the press. */
    method EndResize(e: Point)
      requires Valid() && isPressed && isResizing
      modifies this
      ensures AreasValid() && View().(hold := Free) == OnRelease(Conf(), old(View()), e)
    {
      hide Bounds, AreaOf, Clicked, HitsAt, SearchEnd, MovingFrom, Anchored, ThinAxesNear, Trail, Deltas;
      if kind.Operators? && resizingPress == e {
        SelectPrevious(e);
      } else {
        ResizedSelectedObjects(e);
      }
    }

    method MouseRelease(e: Point)
      requires Valid()
      modifies this
      ensures Valid() && View() == OnRelease(Conf(), old(View()), e)
    {
      hide AreaOf, LetGo, MovingFrom, ResizingBy;
      if isPressed {
        if isMoving {
          EndMove(e);
        } else if isResizing {
          EndResize(e);
        } else {
          MouseReleaseLeftButton(e);
        }
      }
      isPressed, hold := false, Free;
    }

    /** Escape gives up a press, or else the selection; Delete gives up a press. */
    method KeyRelease(escape: bool)
      requires Valid()
      modifies this`selectedOps, this`selectedRegion, this`isPressed, this`hold
      ensures Valid() && View() == Step(Conf(), old(View()), Key(escape))
      ensures !isPressed && selectedOps == if escape && !old(isPressed) then [] else old(selectedOps)
    {
      hide MovingFrom, ResizingBy, AreaOf;
      if escape && !isPressed {
        ClearSelectedOperators();
      }
      isPressed, hold := false, Free;
    }
  }

  /** In state t, a press at a point in state s is held, and the mouse has gone some way since. */
  ghost predicate InDrag(c: Setup, s: State, t: State, at: Point, mouse: Point) {
    var mode := ModeAt(c, s.area, at);
    && t == s.(hold := Held(at, mode, mouse), press := t.press, release := t.release)
    && (mode == NONE && c.kind.Operators? ==> t.press == at)
    && (mode == NONE && c.kind.Plain? ==> t.press == s.press && t.release == s.release)
  }

  lemma DragBegins(c: Setup, s: State, at: Point)
    requires s.hold.Free?
    ensures InDrag(c, s, OnPress(c, s, at), at, at)
  {
    hide ModeAt, Anchor, Corner, Bounds;
  }

  lemma DragGoesOn(c: Setup, s: State, t: State, at: Point, mouse: Point, p: Point)
    requires InDrag(c, s, t, at, mouse)
    ensures InDrag(c, s, OnMove(c, t, p), at, p)
  {
    hide ModeAt, Trail, Bounds;
  }

  lemma DragEnds(c: Setup, s: State, t: State, at: Point, mouse: Point, to: Point)
    requires InDrag(c, s, t, at, mouse) && s.last <= |s.work|
    ensures var mode, u := ModeAt(c, s.area, at), OnRelease(c, t, to);
      var click := IsClick(c, Held(at, mode, mouse), to);
      && u.hold.Free? && u.work == s.work
      && (mode == ALL ==> u.log == s.log + if click || to == at then [] else [Displacement(at, to)])
      && (Resizes(mode) ==> u.log == s.log + if click then [] else [Deltas(mode, Bounds(s.area), to)])
      && (mode != NONE ==> u.selected == if click then Clicked(c.box, s.work, s.last, to) else s.selected)
      && (mode == NONE && c.kind.Plain? ==>
           && u.log == s.log + (if c.releaseScript then [Script(s.press, s.release)] else [])
           && u.selected == s.selected)
      && (mode == NONE && c.kind.Operators? ==>
           && u.log == s.log + (if c.releaseScript then [Script(at, to)] else [])
           && u.selected == if to != at then Inside(c.box, s.work, [Between(at, to)])
                            else Clicked(c.box, s.work, |s.work|, to))
  {
    ModeShape(s.area, at, c.zone);
    hide OnRelease, NearestResizingMode, Bounds, Clicked, Inside, Deltas;
    ReleaseSays(c, t, to);
  }

  /** A whole drag: the button goes down, the mouse wanders, the button comes up. */
  method Drag(v: PageView, at: Point, path: seq<Point>, to: Point)
    requires v.Valid() && v.hold.Free?
    modifies v
    ensures v.Valid() && v.hold.Free? && v.workOps == old(v.workOps)
    // a move reports the displacement of the release from the press, whatever the path, unless it is a click
    ensures var click := v.kind.Operators? && (path == [] || path[|path| - 1] == at);
      old(v.PressMode(at)) == ALL ==>
        && v.log == old(v.log) + (if click || to == at then [] else [Displacement(at, to)])
        && v.selectedOps == if click then old(Clicked(v.box, v.workOps, v.lastSelected, to)) else old(v.selectedOps)
    // a resize reports the distance of every side of the zone from the release, whatever the path, unless it is a click
    ensures var click := v.kind.Operators? && to == at;
      var mode, area := old(v.PressMode(at)), old(v.selectedRegion);
      Resizes(mode) ==>
        && v.log == old(v.log) + (if click then [] else [Deltas(mode, Bounds(area), to)])
        && v.selectedOps == if click then old(Clicked(v.box, v.workOps, v.lastSelected, to)) else old(v.selectedOps)
    // a press elsewhere changes nothing in the base mode, whose release script gets the positions of earlier resizes
    ensures v.kind.Plain? && old(v.PressMode(at)) == NONE ==>
      && v.log == old(v.log) + (if v.releaseScript then [Script(old(v.pressPosition), old(v.releasePosition))] else [])
      && v.selectedOps == old(v.selectedOps)
    // in the selecting mode it selects what lies inside the rectangle dragged out, or the topmost operator clicked
    ensures v.kind.Operators? && old(v.PressMode(at)) == NONE ==>
      && v.log == old(v.log) + (if v.releaseScript then [Script(at, to)] else [])
      && v.selectedOps == old(if to != at then Inside(v.box, v.workOps, [Between(at, to)])
                              else Clicked(v.box, v.workOps, |v.workOps|, to))
    ensures v.kind.Operators? && old(v.PressMode(at)) == NONE && to != at ==>
      EnclosedInOrder(v.box, v.workOps, Between(at, to), v.selectedOps)
  {
    hide CoveredInOrder, EnclosedInOrder;
    hide ModeAt, Bounds, AreaOf, Clicked, Inside, Deltas, OnPress, OnMove, OnRelease, InDrag;
    ghost var c, s := v.Conf(), v.View();
    DragBegins(c, s, at);
    v.MousePress(at);
    for i := 0 to |path|
      invariant v.Valid()
      invariant InDrag(c, s, v.View(), at, if i == 0 then at else path[i - 1])
    {
      DragGoesOn(c, s, v.View(), at, if i == 0 then at else path[i - 1], path[i]);
      v.MouseMove(path[i]);
    }
    DragEnds(c, s, v.View(), at, if path == [] then at else path[|path| - 1], to);
    InsideInOrder(c.box, s.work, [Between(at, to)]);
    InsideRectangle(c.box, s.work, Between(at, to), Inside(c.box, s.work, [Between(at, to)]));
    v.MouseRelease(to);
  }

  /** Pressing and releasing at one point again and again: the first click selects the topmost operator under it, and
      k clicks lead k steps down the circle of operators under it. */
  method ClickRepeatedly(v: PageView, p: Point, k: nat)
    requires v.Valid() && v.hold.Free? && v.kind.Operators? && k >= 1
    requires v.PressMode(p) == NONE && Rank(HitsAt(v.box, v.workOps, p), |v.workOps|) > 0
    modifies v
    ensures v.Valid() && v.hold.Free? && v.workOps == old(v.workOps)
    ensures v.selectedOps == [v.workOps[Steps(HitsAt(v.box, v.workOps, p), |v.workOps|, k)]]
  {
    hide NearestResizingMode, Bounds, AreaOf, Inside, Prev, Steps, Rank, HitsAt;
    ghost var hits, n := HitsAt(v.box, v.workOps, p), |v.workOps|;
    for i := 0 to k
      invariant v.Valid() && v.hold.Free? && v.workOps == old(v.workOps)
      invariant i == 0 ==> v.PressMode(p) == NONE
      invariant i > 0 ==>
        && v.lastSelected == Steps(hits, n, i) && v.selectedOps == [v.workOps[Steps(hits, n, i)]]
        && v.selectedRegion == AreaOf(v.box, v.selectedOps)
    {
      if i > 0 {
        SelectedUnderMouse(v.box, v.workOps, Steps(hits, n, i), p, v.resizingZone);
      }
      StepsNext(hits, n, i);
      Click(v, p);
    }
  }

  /** One press and release at a point. */
  method Click(v: PageView, p: Point)
    requires v.Valid() && v.hold.Free? && v.kind.Operators?
    modifies v
    ensures v.Valid() && v.hold.Free? && v.workOps == old(v.workOps)
    ensures var from := if old(v.PressMode(p)) == NONE then |v.workOps| else old(v.lastSelected);
      && v.selectedOps == Clicked(v.box, v.workOps, from, p)
      && v.selectedRegion == AreaOf(v.box, v.selectedOps)
      && v.lastSelected == SearchEnd(HitsAt(v.box, v.workOps, p), from)
  {
    hide NearestResizingMode, Bounds, AreaOf, Inside, Prev, HitsAt, Clicked, SearchEnd, Trail, Corner, Anchor, Deltas;
    ModeShape(v.selectedRegion, p, v.resizingZone);
    v.MousePress(p);
    v.MouseRelease(p);
  }

  /** A press on the one selected operator never counts as a press elsewhere. */
  lemma SelectedUnderMouse(box: Boxes, ops: seq<Op>, i: nat, p: Point, zone: int)
    requires i < |ops| && HitsAt(box, ops, p)[i]
    ensures var r := AreaOf(box, [ops[i]]); Bounds(r).Holds(p) && NearestResizingMode(r, p, zone) != NONE
  {
  }

  lemma StepsNext(hits: seq<bool>, it: nat, k: nat)
    requires it <= |hits| && Rank(hits, |hits|) > 0
    ensures Steps(hits, it, 0) == it
    ensures Prev(hits, Steps(hits, it, k)) == SearchEnd(hits, Steps(hits, it, k)) == Steps(hits, it, k + 1)
    ensures Steps(hits, it, k + 1) < |hits| && hits[Steps(hits, it, k + 1)]
  {
    assert Steps(hits, it, k + 1) == Prev(hits, Steps(hits, it, k));
  }

  /** One event, dispatched to its slot. */
  method Handle(v: PageView, event: Event)
    requires v.Valid()
    modifies v
    ensures v.Valid() && v.View() == Step(v.Conf(), old(v.View()), event)
    // of the other events, exactly the clearing of the work operators leaves a move or resize under way
    ensures !event.Pressed? && !event.Moved? ==> (Dragging(v.View()) <==> event.ClearWork? && old(Dragging(v.View())))
  {
    OnlyClearWorkLeavesDrags(v.Conf(), v.View(), event);
    match event {
      case Pressed(p) => v.MousePress(p);
      case Moved(p) => v.MouseMove(p);
      case Released(p) => v.MouseRelease(p);
      case Key(escape) => v.KeyRelease(escape);
      case SelectOps(ops) => v.SetSelectedOperators(ops);
      case AddOps(ops) => v.AddSelectedOperators(ops);
      case ClearOps => v.ClearSelectedOperators();
      case SelectRegion(r) => v.SetSelectedRegion(r);
      case WorkOps(ops) => v.SetWorkOperators(ops);
      case MoreWorkOps(ops) => v.AddWorkOperators(ops);
      case ClearWork => v.ClearWorkOperators();
      case Actualize => v.ActualizeSelection();
    }
  }

  /** Any run: the view is in the state that its events determine; its commands answer the presses among the events,
      each a press of its own, and say what that press, its release and the selection at the press say. */
  method Run(kind: Kind, box: Boxes, releaseScript: bool, zone: int, events: seq<Event>)
    returns (v: PageView, ghost w: seq<(nat, nat)>)
    ensures v.Valid() && v.Conf() == Setup(kind, box, releaseScript, zone) && v.View() == After(v.Conf(), events)
    ensures Answered(v.Conf(), events, v.log, w)
    ensures |v.log| <= PressCount(events)
    ensures v.workRegion == AreaOf(box, v.workOps)
    ensures kind.Operators? ==> v.selectedRegion == AreaOf(box, v.selectedOps)
  {
    hide Step, After, AreaOf, Answered;
    v := new PageView(kind, box, releaseScript, zone);
    ghost var c := v.Conf();
    NoEvents(c);
    assert events[..0] == [];
    for i := 0 to |events|
      invariant v.Valid() && fresh(v) && v.Conf() == c && v.View() == After(c, events[..i])
    {
      AfterNext(c, events, i);
      Handle(v, events[i]);
    }
    assert events[..|events|] == events;
    w := CommandsAnswered(c, events);
    AtMostOnePerPress(c, events);
    if kind.Operators? {
      AreaOfSelection(c, events);
    }
  }
}
