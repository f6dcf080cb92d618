/** The expanding reaction button next to a message
    (HistoryView::Reactions::Button): its strip geometry, the direction it
    grows in, the wheel scrolling of its reaction list, and the state and
    timers it picks from the pointer. */
module ReactButton {
  import opened Common
  import opened Geometry

  datatype ExpandDirection = Up | Down
  datatype ButtonState = Hidden | Shown | Active | Inside
  datatype CollapseType = Scroll | Fade

  /** Message ids are positive; 0 is the empty FullMsgId, which is falsy. */
  type MsgId = nat

  /** Where the button is wanted and what the pointer is doing. */
  datatype ButtonParameters = ButtonParameters(
    context: MsgId,
    center: Point,
    pointer: Point,
    globalPointer: Point,
    reactionsCount: int,
    visibleTop: int,
    visibleBottom: int,
    outside: bool,
    cursorLeft: bool)

  /** Parameters with only the positions given: one reaction, an empty
      visible range, the pointer neither outside nor leaving. */
  function DefaultParameters(context: MsgId, center: Point, pointer: Point, globalPointer: Point): (p: ButtonParameters)
    ensures p.context == context && p.center == center && p.pointer == pointer && p.globalPointer == globalPointer
    ensures p.reactionsCount == 1 && p.visibleTop == 0 && p.visibleBottom == 0
    ensures !p.outside && !p.cursorLeft
  {
    ButtonParameters(context, center, pointer, globalPointer, 1, 0, 0, false, false)
  }

  /** ButtonParameters::translated: the same request with the button centre
      and the pointer moved by `delta` (the global pointer stays put). */
  function Translated(p: ButtonParameters, delta: Point): (r: ButtonParameters)
    ensures r.center.x - p.center.x == delta.x && r.center.y - p.center.y == delta.y
    ensures r.pointer.x - p.pointer.x == delta.x && r.pointer.y - p.pointer.y == delta.y
    ensures r.context == p.context && r.globalPointer == p.globalPointer
    ensures r.reactionsCount == p.reactionsCount && r.visibleTop == p.visibleTop && r.visibleBottom == p.visibleBottom
    ensures r.outside == p.outside && r.cursorLeft == p.cursorLeft
  {
    p.(center := p.center.Plus(delta), pointer := p.pointer.Plus(delta))
  }

  /** Translating back by the opposite delta restores the parameters. */
  lemma TranslatedInverse(p: ButtonParameters, delta: Point)
    ensures Translated(Translated(p, delta), Point(-delta.x, -delta.y)) == p
  {
  }

  /** Style values the button uses, all in pixels. */
  datatype Style = Style(
    cornerHeight: int,     // st::reactionCornerSize.height()
    cornerSkip: int,       // st::reactionCornerSkip
    expandedSkip: int,     // st::reactionExpandedSkip
    addedHeightMax: int)   // st::reactionCornerAddedHeightMax

  predicate ValidStyle(st: Style) {
    st.cornerHeight > 0 && st.cornerSkip >= 0 && st.expandedSkip >= 0 && st.addedHeightMax >= 0
  }

  /** Height of one reaction row in the expanded strip. */
  function RowHeight(st: Style): int { st.cornerHeight + st.cornerSkip }

  /** kMaxReactionsScrollAtOnce: one wheel event scrolls at most two rows. */
  const MaxRowsScrollAtOnce: int := 2

  datatype Button = Button(
    state: ButtonState,
    collapsed: Rect,
    geometry: Rect,
    expandedInnerHeight: int,
    expandedHeight: int,
    finalHeight: int,
    scroll: int,
    direction: ExpandDirection,
    collapseType: CollapseType)

  /** The fields of a new Button before its first parameters are applied:
      hidden, collapsed to the outer size at the origin, nothing expanded,
      growing up, collapsing by scroll. */
  function NewButton(outer: Size): (b: Button)
    ensures b.state == Hidden && b.direction == Up && b.collapseType == Scroll
    ensures b.scroll == 0 && b.expandedHeight == 0 && b.expandedInnerHeight == 0
    ensures b.collapsed == Rect(0, 0, outer.w, outer.h) && b.finalHeight == outer.h
    ensures b.geometry == Rect(0, 0, 0, 0)
    ensures ScrollInRange(b)
  {
    Button(Hidden, Rect(0, 0, outer.w, outer.h), Rect(0, 0, 0, 0), 0, 0, outer.h, 0, Up, Scroll)
  }

  /** Button::scrollMax: how much taller the full list is than the strip. */
  function ScrollMax(b: Button): int { b.expandedInnerHeight - b.expandedHeight }

  /** The scroll offset the button keeps: within [0, scrollMax], or 0 when
      there is nothing to scroll. */
  predicate ScrollInRange(b: Button) {
    b.scroll == 0 || 0 <= b.scroll <= ScrollMax(b)
  }

  /** What a wheel event did: the new button, whether the event was
      consumed, and the rectangle repainted. */
  datatype WheelResult = WheelResult(button: Button, consumed: bool, repaint: Option<Rect>)

  /** Button::consumeWheelEvent for an event at `local` with angle delta
      (dx, dy). */
  function ConsumeWheel(b: Button, st: Style, local: Point, dx: int, dy: int): (r: WheelResult)
    requires ValidStyle(st)
    // consumed only inside an expanded, scrollable strip, for a vertical delta
    ensures r.consumed <==>
      b.state == Inside && ScrollMax(b) > 0 && b.geometry.Contains(local) && Abs(dx) <= Abs(dy)
    ensures !r.consumed ==> r.button == b && r.repaint.None?
    // only the scroll changes, it stays in range and moves by at most two rows
    ensures r.consumed ==>
      && r.button == b.(scroll := r.button.scroll)
      && 0 <= r.button.scroll <= ScrollMax(b)
      && r.repaint == Some(b.geometry)
      && (0 <= b.scroll <= ScrollMax(b) ==> Abs(r.button.scroll - b.scroll) <= MaxRowsScrollAtOnce * RowHeight(st))
    // wheel forward scrolls toward the far end of the strip
    ensures r.consumed && 0 <= b.scroll <= ScrollMax(b) ==>
      ((b.direction == Up) == (dy > 0) ==> r.button.scroll >= b.scroll)
      && ((b.direction == Up) == (dy < 0) ==> r.button.scroll <= b.scroll)
    ensures ScrollInRange(b) ==> ScrollInRange(r.button)
  {
    var scrollMax := ScrollMax(b);
    if b.state != Inside || scrollMax <= 0 || !b.geometry.Contains(local) then WheelResult(b, false, None)
    else if Abs(dx) > Abs(dy) then WheelResult(b, false, None)
    else
      var max := RowHeight(st) * MaxRowsScrollAtOnce;
      var shift := Clamp(dy * (if b.direction == Up then 1 else -1), -max, max);
      WheelResult(b.(scroll := Clamp(b.scroll + shift, 0, scrollMax)), true, Some(b.geometry))
  }

  /** Height the full list adds to the collapsed button: one row per extra
      reaction, plus the top and bottom padding once there is more than one. */
  function MaxAddedHeight(st: Style, count: int): int {
    (count - 1) * RowHeight(st) + (if count > 1 then 2 * st.expandedSkip else 0)
  }

  /** Button::updateExpandDirection. */
  function UpdateExpandDirection(b: Button, st: Style, p: ButtonParameters): (r: Button)
    requires ValidStyle(st)
    // the strip never exceeds the list, nor adds more than the cap
    ensures r.expandedInnerHeight == b.collapsed.h + MaxAddedHeight(st, p.reactionsCount)
    ensures r.expandedHeight <= r.expandedInnerHeight
    ensures r.expandedHeight - b.collapsed.h <= st.addedHeightMax
    ensures r.expandedHeight == r.expandedInnerHeight || r.expandedHeight - b.collapsed.h == st.addedHeightMax
    ensures 0 <= r.scroll <= ScrollMax(r)
    ensures 0 <= b.scroll <= ScrollMax(r) ==> r.scroll == b.scroll
    // the direction is only reconsidered for two or more reactions; it goes
    // down only when growing up would leave the visible area at the top and
    // growing down stays inside it
    ensures p.reactionsCount < 2 ==> r.direction == b.direction
    ensures p.reactionsCount >= 2 ==>
      (r.direction == Down <==>
         b.collapsed.y - (r.expandedHeight - b.collapsed.h) < p.visibleTop
         && b.collapsed.Bottom() + (r.expandedHeight - b.collapsed.h) <= p.visibleBottom)
    ensures r.state == b.state && r.collapsed == b.collapsed && r.geometry == b.geometry
    ensures r.finalHeight == b.finalHeight && r.collapseType == b.collapseType
  {
    var maxAdded := MaxAddedHeight(st, p.reactionsCount);
    var inner := b.collapsed.h + maxAdded;
    var added := Min(maxAdded, st.addedHeightMax);
    var expanded := b.collapsed.h + added;
    var scroll := Clamp(b.scroll, 0, inner - expanded);
    var sized := b.(expandedInnerHeight := inner, expandedHeight := expanded, scroll := scroll);
    if p.reactionsCount < 2 then sized
    else
      var up := (b.collapsed.y - added >= p.visibleTop) || (b.collapsed.y + b.collapsed.h + added > p.visibleBottom);
      sized.(direction := if up then Up else Down)
  }

  /** What updateGeometry did: the new button and the rectangles it asked
      to repaint (old then new geometry, only when the geometry moved). */
  datatype GeometryResult = GeometryResult(button: Button, updates: seq<Rect>)

  /** Button::updateGeometry, given the current (rounded) value of the
      height animation. */
  function UpdateGeometry(b: Button, animatedHeight: int): (r: GeometryResult)
    // the strip grows from the collapsed rect on one side only
    ensures var added := animatedHeight - b.collapsed.h;
      && r.button.geometry.x == b.collapsed.x && r.button.geometry.w == b.collapsed.w
      && r.button.geometry.h == b.collapsed.h + added
      && (b.direction == Up ==> r.button.geometry.Bottom() == b.collapsed.Bottom())
      && (b.direction == Down ==> r.button.geometry.Top() == b.collapsed.Top())
    // a fully collapsed strip outside the Inside state forgets its scroll
    ensures animatedHeight == b.collapsed.h && b.state != Inside ==> r.button.scroll == 0
    ensures !(animatedHeight == b.collapsed.h && b.state != Inside) ==> r.button.scroll == b.scroll
    ensures r.button == b.(geometry := r.button.geometry, scroll := r.button.scroll)
    ensures r.button.geometry == b.geometry ==> r.updates == []
    ensures r.button.geometry != b.geometry ==> r.updates == [b.geometry, r.button.geometry]
    ensures ScrollInRange(b) ==> ScrollInRange(r.button)
  {
    var added := animatedHeight - b.collapsed.h;
    var scroll := if added == 0 && b.state != Inside then 0 else b.scroll;
    var geometry := b.collapsed.MarginsAdded(0, if b.direction == Up then added else 0, 0, if b.direction == Down then added else 0);
    var updates := if geometry != b.geometry then [b.geometry, geometry] else [];
    GeometryResult(b.(geometry := geometry, scroll := scroll), updates)
  }

  // ---------------------------------------------------------------------
  // Following the pointer

  /** kButtonExpandDelay, kButtonHideDelay and kButtonExpandedHideDelay, in
      milliseconds. */
  const ButtonExpandDelay: int := 25
  const ButtonHideDelay: int := 300
  const ButtonExpandedHideDelay: int := 0

  /** What a call does to a one-shot timer. */
  datatype TimerAction = Untouched | Armed(delay: int) | Cancelled

  /** st::reactionCornerShadow, around the strip's visible part, and
      st::reactionCornerActiveAreaPadding, around that part. */
  datatype PointerStyle = PointerStyle(shadow: Margins, activePadding: Margins)

  /** The strip without its shadow: the pointer is inside the button here. */
  function InnerArea(geometry: Rect, ps: PointerStyle): Rect { Shrunk(geometry, ps.shadow) }

  /** The area in which the pointer makes the button active. */
  function ActiveArea(geometry: Rect, ps: PointerStyle): Rect { Grown(InnerArea(geometry, ps), ps.activePadding) }

  /** What applyParameters decides from the pointer: the next state, what
      it does to the expand and hide timers, and the global pointer position
      it remembers. */
  datatype PointerResult = PointerResult(
    state: ButtonState,
    expandTimer: TimerAction,
    hideTimer: TimerAction,
    lastGlobal: Option<Point>)

  /** The pointer half of Button::applyParameters, for a button in `state`
      whose geometry is `geometry` once its collapsed rect has moved to the
      requested centre, and which remembers `lastGlobal`. The pointer alone
      never expands the button: entering the strip only arms the expand
      timer, whose callback applies the Inside state. */
  function FollowPointer(state: ButtonState, geometry: Rect, ps: PointerStyle, p: ButtonParameters, lastGlobal: Option<Point>): (r: PointerResult)
    ensures r.state != Hidden
    ensures r.state == Inside <==>
      state == Inside && (InnerArea(geometry, ps).Contains(p.pointer) || ActiveArea(geometry, ps).Contains(p.pointer))
    ensures r.state == Active <==> state != Inside && ActiveArea(geometry, ps).Contains(p.pointer)
    // a pointer waiting inside a strip that is not expanded is remembered,
    // and the countdown restarts only when it moved or the button was hidden
    ensures var waiting := state != Inside && InnerArea(geometry, ps).Contains(p.pointer);
      && (r.lastGlobal.Some? <==> waiting)
      && (waiting ==> r.lastGlobal == Some(p.globalPointer))
      && (r.expandTimer.Cancelled? <==> !waiting)
      && (r.expandTimer == Armed(ButtonExpandDelay) <==>
            waiting && (state == Hidden || (lastGlobal.Some? && lastGlobal.value != p.globalPointer)))
      && (r.expandTimer.Armed? ==> r.expandTimer.delay == ButtonExpandDelay)
    // a shown button left by the pointer hides at once if it was expanded
    ensures r.hideTimer.Armed? <==> p.outside && r.state == Shown
    ensures r.hideTimer.Armed? ==>
      r.hideTimer.delay == (if state == Inside then ButtonExpandedHideDelay else ButtonHideDelay)
    ensures !r.hideTimer.Armed? ==> r.hideTimer.Cancelled?
  {
    var inner := InnerArea(geometry, ps);
    var active := ActiveArea(geometry, ps).Contains(p.pointer);
    var inside := inner.Contains(p.pointer) || (active && state == Inside);
    var delayInside := inside && state != Inside;
    var moved := lastGlobal.Some? && lastGlobal.value != p.globalPointer;
    var expandTimer :=
      if !delayInside then Cancelled
      else if moved || state == Hidden then Armed(ButtonExpandDelay)
      else Untouched;
    var next := if inside && !delayInside then Inside else if active then Active else Shown;
    var hideTimer :=
      if p.outside && next == Shown then
        Armed(if state == Inside then ButtonExpandedHideDelay else ButtonHideDelay)
      else Cancelled;
    PointerResult(next, expandTimer, hideTimer, if delayInside then Some(p.globalPointer) else None)
  }

  /** The constructor applies its parameters to the hidden new button, which
      remembers no pointer: the button comes up shown or active, never
      hidden or expanded. The expand countdown starts exactly when the
      pointer is already in the strip, and the hide countdown exactly when
      the pointer is outside and away from the active area. */
  lemma ConstructedButtonShows(outer: Size, geometry: Rect, ps: PointerStyle, p: ButtonParameters)
    ensures var r := FollowPointer(NewButton(outer).state, geometry, ps, p, None);
      && (r.state == Shown || r.state == Active)
      && (r.state == Active <==> ActiveArea(geometry, ps).Contains(p.pointer))
      && (r.expandTimer == Armed(ButtonExpandDelay) <==> InnerArea(geometry, ps).Contains(p.pointer))
      && (r.hideTimer == Armed(ButtonHideDelay) <==> p.outside && !ActiveArea(geometry, ps).Contains(p.pointer))
  {
  }

  /** A pointer resting in the strip does not restart the expand countdown:
      the second of two calls with the same global position leaves the timer
      running and the state as the first call set it. A pointer that moves
      in the strip restarts it. */
  lemma RestingPointerKeepsCountdown(state: ButtonState, geometry: Rect, ps: PointerStyle, p: ButtonParameters, q: ButtonParameters, lastGlobal: Option<Point>)
    requires state != Inside && InnerArea(geometry, ps).Contains(p.pointer) && InnerArea(geometry, ps).Contains(q.pointer)
    requires ActiveArea(geometry, ps).Contains(p.pointer) == ActiveArea(geometry, ps).Contains(q.pointer)
    ensures var first := FollowPointer(state, geometry, ps, p, lastGlobal);
      var second := FollowPointer(first.state, geometry, ps, q, first.lastGlobal);
      && first.state != Inside
      && second.state == first.state
      && (second.expandTimer == Untouched <==> q.globalPointer == p.globalPointer)
      && (second.expandTimer == Armed(ButtonExpandDelay) <==> q.globalPointer != p.globalPointer)
  {
    var first := FollowPointer(state, geometry, ps, p, lastGlobal);
    assert first.lastGlobal == Some(p.globalPointer);
  }

  /** Manager::Chosen: the context is truthy and the emoji is not a null
      string (an empty but non-null emoji still counts). */
  datatype Chosen = Chosen(context: MsgId, emoji: Option<string>, geometry: Rect)

  predicate IsChosen(c: Chosen) { c.context != 0 && c.emoji.Some? }

  /** Chosen's truth does not depend on what the emoji string holds, only on
      whether it is null, nor on the geometry. */
  lemma ChosenTruthOnlyFromContextAndNull(c: Chosen, text: string, g: Rect)
    ensures IsChosen(c.(emoji := Some(text), geometry := g)) <==> c.context != 0
    ensures !IsChosen(c.(emoji := None))
    ensures !IsChosen(c.(context := 0))
  {
  }
}
