/** The reusable pieces of the Premium limit screens (Ui::Premium): the
    counter bubble above a limit line, the two-tone limit line with its
    labels, and the row of account photos to pick from. */
module PremiumGraphics {
  import opened Common
  import opened Geometry

  /** What a label shows: nothing (a null QString), a count rendered by a
      plural phrase or as plain digits, or a caller-given literal. */
  datatype Text = NoText | Count(phrase: Option<nat>, n: int) | Literal(s: string)

  /** TextFactory: how a number becomes a label. A plural phrase (by id)
      when one is given, otherwise QString::number; `custom` replaces the
      label of one particular number with a fixed text. */
  datatype TextFactory = TextFactory(phrase: Option<nat>, custom: Option<(int, string)>)

  function Apply(f: TextFactory, n: int): (t: Text)
    ensures t != NoText
    ensures f.custom.Some? && n == f.custom.value.0 ==> t == Literal(f.custom.value.1)
    ensures f.custom.None? || n != f.custom.value.0 ==> t == Count(f.phrase, n)
  {
    if f.custom.Some? && n == f.custom.value.0 then Literal(f.custom.value.1) else Count(f.phrase, n)
  }

  /** ProcessTextFactory: the phrase when given, digits otherwise. */
  function ProcessTextFactory(phrase: Option<nat>): (f: TextFactory)
    ensures forall n :: Apply(f, n) == Count(phrase, n)
  {
    TextFactory(phrase, None)
  }

  /** The factory of a ShowListBox line: digits, except that the right
      number reads as the entry's custom right text when it has one. */
  function ListLineFactory(rightNumber: int, customRightText: Option<string>): (f: TextFactory)
    ensures customRightText.Some? ==> Apply(f, rightNumber) == Literal(customRightText.value)
    ensures forall n :: customRightText.None? || n != rightNumber ==> Apply(f, n) == Count(None, n)
  {
    TextFactory(None, if customRightText.Some? then Some((rightNumber, customRightText.value)) else None)
  }

  // ---------------------------------------------------------------- Bubble

  /** kBubbleRadiusSubtractor. */
  const BubbleRadiusSubtractor: int := 2

  /** The style values a Bubble reads, in pixels. */
  datatype BubbleStyle = BubbleStyle(
    bubbleHeight: int,   // st::premiumBubbleHeight
    tailHeight: int,     // st::premiumBubbleTailSize.height()
    fontHeight: int,     // st::premiumBubbleFont->height
    paddingLeft: int,
    paddingRight: int,
    iconWidth: int,
    textSkip: int)       // st::premiumBubbleTextSkip

  /** The state of a Bubble: the counter (-1 until one is set), the text
      its number animation shows, and the tail position in [0, 1]. */
  datatype Bubble = Bubble(counter: int, text: Text, tailEdge: real)

  /** A new Bubble: no counter yet, the factory's text for 0 already set,
      the tail at the left edge. */
  function NewBubble(f: TextFactory): (b: Bubble)
    ensures b.counter < 0 && !PaintsBubble(b) && !WidgetPaints(b)
    ensures b.text == Apply(f, 0) && b.tailEdge == 0.0
    ensures TextFollowsCounter(b, f)
  {
    Bubble(-1, Apply(f, 0), 0.0)
  }

  /** The shown text is the factory's text for the counter, or the initial
      text for 0 while no counter has been set. */
  predicate TextFollowsCounter(b: Bubble, f: TextFactory) {
    b.text == Apply(f, b.counter) || (b.counter == -1 && b.text == Apply(f, 0))
  }

  /** Bubble::setCounter: the text is only replaced when the value changes. */
  function SetCounter(b: Bubble, f: TextFactory, value: int): (r: Bubble)
    ensures r.counter == value && r.tailEdge == b.tailEdge
    ensures b.counter == value ==> r == b
    ensures b.counter != value ==> r.text == Apply(f, value)
    ensures TextFollowsCounter(b, f) ==> TextFollowsCounter(r, f)
    // only a bubble that never had a counter can keep the text for 0
    ensures TextFollowsCounter(b, f) && value != -1 ==> r.text == Apply(f, value)
  {
    if b.counter != value then b.(counter := value, text := Apply(f, value)) else b
  }

  /** Setting the counter once more to the same value changes nothing. */
  lemma SetCounterIdempotent(b: Bubble, f: TextFactory, value: int)
    ensures SetCounter(SetCounter(b, f, value), f, value) == SetCounter(b, f, value)
  {
  }

  /** A run of setCounter calls, oldest first. */
  function SetCounters(b: Bubble, f: TextFactory, values: seq<int>): Bubble
    decreases |values|
  {
    if values == [] then b else SetCounters(SetCounter(b, f, values[0]), f, values[1..])
  }

  /** After any non-empty run of counters the bubble holds the last value
      and shows that value's text, whatever came before; -1 alone may still
      show the initial text for 0. */
  lemma {:induction false} SetCountersShowLast(b: Bubble, f: TextFactory, values: seq<int>)
    requires TextFollowsCounter(b, f) && values != []
    ensures SetCounters(b, f, values).counter == values[|values| - 1]
    ensures values[|values| - 1] != -1 ==> SetCounters(b, f, values).text == Apply(f, values[|values| - 1])
    ensures TextFollowsCounter(SetCounters(b, f, values), f)
    ensures SetCounters(b, f, values).tailEdge == b.tailEdge
    decreases |values|
  {
    var next := SetCounter(b, f, values[0]);
    if |values| > 1 {
      SetCountersShowLast(next, f, values[1..]);
    }
  }

  /** Bubble::paintBubble draws nothing while the counter is negative. */
  predicate PaintsBubble(b: Bubble) { b.counter >= 0 }

  /** BubbleWidget::paintEvent is stricter: a zero counter is not painted
      either. */
  predicate WidgetPaints(b: Bubble) { b.counter > 0 }

  /** The widget paints only what the bubble would, and the two differ on a
      counter of exactly 0. */
  lemma PaintGuards(b: Bubble, f: TextFactory)
    ensures WidgetPaints(b) ==> PaintsBubble(b)
    ensures PaintsBubble(b) && !WidgetPaints(b) <==> b.counter == 0
    ensures PaintsBubble(SetCounter(b, f, 0)) && !WidgetPaints(SetCounter(b, f, 0))
  {
  }

  /** Bubble::setTailEdge: std::clamp(edge, 0., 1.). */
  function SetTailEdge(b: Bubble, edge: real): (r: Bubble)
    ensures 0.0 <= r.tailEdge <= 1.0
    ensures 0.0 <= edge <= 1.0 ==> r.tailEdge == edge
    ensures edge < 0.0 ==> r.tailEdge == 0.0
    ensures edge > 1.0 ==> r.tailEdge == 1.0
    ensures r.counter == b.counter && r.text == b.text
  {
    b.(tailEdge := if edge < 0.0 then 0.0 else if edge > 1.0 then 1.0 else edge)
  }

  /** Where paintBubble puts the tail's tip along a body running from `x`
      to `x + w`: halfway across at edge 0, at the right end at edge 1. */
  function TailCenter(b: Bubble, x: real, w: real): real {
    x + w * 0.5 * (b.tailEdge + 1.0)
  }

  /** Whatever progress the line reports, the clamp keeps the tail's tip
      under the right half of the bubble body; inside [0, 1] the tip
      follows the progress unchanged. */
  lemma TailStaysUnderBubble(b: Bubble, edge: real, x: real, w: real)
    requires w >= 0.0
    ensures x + w * 0.5 <= TailCenter(SetTailEdge(b, edge), x, w) <= x + w
    ensures 0.0 <= edge <= 1.0 ==> TailCenter(SetTailEdge(b, edge), x, w) == x + w * 0.5 * (edge + 1.0)
  {
  }

  /** Bubble::height: the bubble body and its tail. */
  function BubbleHeight(st: BubbleStyle): int { st.bubbleHeight + st.tailHeight }

  /** Bubble::bubbleRadius, with C++ integer division. */
  function BubbleRadius(st: BubbleStyle): int {
    CDiv(BubbleHeight(st) - st.tailHeight, 2) - BubbleRadiusSubtractor
  }

  /** The radius depends on the body alone: two pixels less than half of
      it, so the rounded ends fit inside the body. */
  lemma BubbleRadiusFromBody(st: BubbleStyle)
    requires st.bubbleHeight >= 0
    ensures BubbleRadius(st) == st.bubbleHeight / 2 - BubbleRadiusSubtractor
    ensures 2 * (BubbleRadius(st) + BubbleRadiusSubtractor) <= st.bubbleHeight
    ensures st.bubbleHeight < 2 * (BubbleRadius(st) + BubbleRadiusSubtractor) + 2
  {
  }

  /** Bubble::_textTop: the text is centred in the body, above the tail. */
  function TextTop(st: BubbleStyle): (top: int)
    ensures st.bubbleHeight >= st.fontHeight ==>
      var below := BubbleHeight(st) - st.tailHeight - (top + st.fontHeight);
      top >= 0 && 0 <= below - top <= 1
  {
    CDiv(BubbleHeight(st) - st.tailHeight - st.fontHeight, 2)
  }

  /** Bubble::filledWidth: everything but the number. */
  function FilledWidth(st: BubbleStyle): int {
    st.paddingLeft + st.iconWidth + st.textSkip + st.paddingRight
  }

  /** Bubble::width for a number animation `numberWidth` wide;
      Bubble::countMaxWidth is the same sum with the widest number. */
  function BubbleWidth(st: BubbleStyle, numberWidth: int): (w: int)
    ensures w - FilledWidth(st) == numberWidth
  {
    FilledWidth(st) + numberWidth
  }

  /** A wider number widens the bubble by exactly the difference, so the
      width reserved by countMaxWidth covers every narrower number. */
  lemma BubbleWidthMonotone(st: BubbleStyle, a: int, b: int)
    ensures BubbleWidth(st, b) - BubbleWidth(st, a) == b - a
    ensures a <= b ==> BubbleWidth(st, a) <= BubbleWidth(st, b)
  {
  }

  // ------------------------------------------------------------------ Line

  /** The state of a Line: its two labels and the widths of its halves. */
  datatype Line = Line(rightLabel: Text, leftLabel: Text, leftWidth: int, rightWidth: int)

  /** A number's label on a limit line: none for 0, the factory's text
      otherwise. */
  function LimitLabel(f: TextFactory, n: int): (t: Text)
    ensures t == NoText <==> n == 0
    ensures n != 0 ==> t == Apply(f, n)
  {
    if n != 0 then Apply(f, n) else NoText
  }

  /** Line(parent, max, textFactory, min): the labels of both numbers, the
      halves not yet measured. */
  function NewLine(max: int, f: TextFactory, min: int): (l: Line)
    ensures l.rightLabel == NoText <==> max == 0
    ensures l.leftLabel == NoText <==> min == 0
    ensures max != 0 ==> l.rightLabel == Apply(f, max)
    ensures min != 0 ==> l.leftLabel == Apply(f, min)
    ensures l.leftWidth == 0 && l.rightWidth == 0
  {
    Line(LimitLabel(f, max), LimitLabel(f, min), 0, 0)
  }

  /** AddLimitRow(parent, max, phrase, min) builds the same line as the
      Line constructor given ProcessTextFactory(phrase). */
  function AddLimitRow(max: int, phrase: Option<nat>, min: int): (l: Line)
    ensures l.rightLabel == (if max != 0 then Count(phrase, max) else NoText)
    ensures l.leftLabel == (if min != 0 then Count(phrase, min) else NoText)
  {
    var factory := ProcessTextFactory(phrase);
    Line(LimitLabel(factory, max), LimitLabel(factory, min), 0, 0)
  }

  /** The line ShowListBox adds for one entry: a custom right text replaces
      every label whose number is the right number, the left one included
      when both numbers are equal. */
  function ListLine(rightNumber: int, customRightText: Option<string>, leftNumber: int): (l: Line)
    ensures rightNumber != 0 && customRightText.Some? ==> l.rightLabel == Literal(customRightText.value)
    ensures rightNumber != 0 && customRightText.None? ==> l.rightLabel == Count(None, rightNumber)
    ensures leftNumber != 0 && (customRightText.None? || leftNumber != rightNumber) ==>
      l.leftLabel == Count(None, leftNumber)
    ensures leftNumber == rightNumber ==> l.leftLabel == l.rightLabel
  {
    NewLine(rightNumber, ListLineFactory(rightNumber, customRightText), leftNumber)
  }

  /** The Line's size handler: an empty size is ignored; otherwise the
      left half takes the rounded-down half of the width. */
  function Resize(l: Line, s: Size): (r: Line)
    ensures s.IsEmpty() ==> r == l
    ensures !s.IsEmpty() ==>
      && r.leftWidth + r.rightWidth == s.w
      && 0 <= r.rightWidth - r.leftWidth <= 1
      && r.leftWidth >= 0
    ensures r.leftLabel == l.leftLabel && r.rightLabel == l.rightLabel
  {
    if s.IsEmpty() then l
    else
      var left := s.w / 2;
      l.(leftWidth := left, rightWidth := s.w - left)
  }

  /** The halves follow from the width alone: resizing twice to the same
      size is resizing once, and the previous halves are forgotten. */
  lemma ResizeForgetsHistory(l: Line, s: Size, t: Size)
    requires !s.IsEmpty()
    ensures Resize(Resize(l, t), s) == Resize(l, s)
  {
  }

  // ----------------------------------------------------------- AccountsRow

  /** The row of accounts: each account's checkbox state and the radio
      group's value. */
  datatype AccountsRow = AccountsRow(checked: seq<bool>, group: int)

  /** Exactly the account at `value` is checked (none when there is no
      such account). */
  ghost predicate OnlyChecked(checked: seq<bool>, value: int) {
    forall i :: 0 <= i < |checked| ==> (checked[i] <==> i == value)
  }

  /** AddAccountsRow's loop over the entries: each new checkbox starts
      checked exactly when its index is the group's value. */
  method AddAccountsRow(count: nat, group: int) returns (row: AccountsRow)
    ensures |row.checked| == count && row.group == group
    ensures OnlyChecked(row.checked, group)
  {
    var checked: seq<bool> := [];
    while |checked| < count
      invariant |checked| <= count
      invariant OnlyChecked(checked, group)
    {
      var index := |checked|;
      checked := checked + [index == group];
    }
    row := AccountsRow(checked, group);
  }

  /** The group's changed callback: every checkbox is re-checked against
      the new value. */
  function GroupChanged(row: AccountsRow, value: int): (r: AccountsRow)
    ensures |r.checked| == |row.checked| && r.group == value
    ensures OnlyChecked(r.checked, value)
  {
    AccountsRow(seq(|row.checked|, i => i == value), value)
  }

  /** A click on an account sets the group to its index, which runs the
      changed callback. */
  function ClickAccount(row: AccountsRow, index: nat): (r: AccountsRow)
    requires index < |row.checked|
    ensures r.group == index && |r.checked| == |row.checked|
    ensures r.checked[index]
    ensures forall i :: 0 <= i < |r.checked| && i != index ==> !r.checked[i]
  {
    GroupChanged(row, index)
  }

  /** Clicking the account the group already holds leaves the row as it
      was, however often. */
  lemma ClickSelectedIsNoOp(row: AccountsRow, index: nat)
    requires index < |row.checked| && OnlyChecked(row.checked, index) && row.group == index
    ensures ClickAccount(row, index) == row
    ensures ClickAccount(ClickAccount(row, index), index) == row
  {
    assert ClickAccount(row, index).checked == row.checked;
  }

  /** The size handler's width of each column: the row width split evenly
      between the accounts, the remainder left unused. */
  function ColumnWidth(width: nat, count: nat): (c: nat)
    requires count >= 1
    ensures c * count <= width < c * count + count
  {
    width / count
  }

  /** Column `i` of a row `width` by `height`. */
  function Column(width: nat, height: int, count: nat, i: nat): (r: Rect)
    requires count >= 1
    ensures r.x == ColumnWidth(width, count) * i && r.y == 0
    ensures r.w == ColumnWidth(width, count) && r.h == height
  {
    var c := ColumnWidth(width, count);
    Rect(c * i, 0, c, height)
  }

  /** The columns fill the row from the left without overlapping, and none
      runs past its right edge. */
  lemma ColumnsTile(width: nat, height: int, count: nat, i: nat, j: nat)
    requires count >= 1 && i < count && j < count
    ensures Within(Column(width, height, count, i), Rect(0, 0, width, height))
    ensures i != j ==> Disjoint(Column(width, height, count, i), Column(width, height, count, j))
  {
    var c := ColumnWidth(width, count);
    if c > 0 {
      CellWithin(c, i, count);
      assert c * count <= width;
      if i != j {
        CellsApart(c, i, j);
      }
    }
  }

  /** The badge of each account is centred in its column. */
  function BadgeCenter(width: nat, count: nat, i: nat): (x: int)
    requires count >= 1
    ensures var col := Column(width, 0, count, i);
      col.x <= x <= col.Right() && (col.w > 0 ==> x < col.Right())
  {
    var c := ColumnWidth(width, count);
    c * i + c / 2
  }

  /** 2^64 and 2^32: the ranges of size_t and int. */
  const Two64: int := 0x1_0000_0000_0000_0000
  const Two32: int := 0x1_0000_0000

  /** Conversion of a size_t value to a 32-bit int: the value modulo 2^32,
      read as two's complement. */
  function ToInt32(u: int): (v: int)
    ensures -0x8000_0000 <= v < 0x8000_0000
  {
    var low := u % Two32;
    if low >= 0x8000_0000 then low - Two32 else low
  }

  /** The left edge of a checkbox's gradient as the size handler computes
      it: `columnWidth` and `left` are size_t, so `columnWidth - photoWidth`
      wraps around when the photo is wider than the column, and the sum is
      narrowed to int on the way to ComputeGradient. */
  function GradientLeftAsWritten(left: nat, columnWidth: nat, photoWidth: nat): (v: int)
    // a photo that fits: the centred edge, narrowed to 32 bits
    ensures photoWidth <= columnWidth < Two64 ==>
      v == ToInt32(left + (columnWidth - photoWidth) / 2)
    // an overhanging photo: the wrapped half rounds the overhang's half up,
    // so the edge moves left by the half overhang rounded away from zero
    ensures columnWidth < photoWidth < columnWidth + Two64 ==>
      v == ToInt32(left - (photoWidth - columnWidth + 1) / 2)
  {
    var wrapped := (columnWidth - photoWidth) % Two64;
    var sum := left + wrapped / 2;
    NarrowOfWrap(sum);
    if columnWidth < photoWidth < columnWidth + Two64 then
      var d := photoWidth - columnWidth;
      DivUnique(columnWidth - photoWidth, -1, Two64 - d, Two64);
      assert wrapped / 2 == Two64 / 2 - (d + 1) / 2;
      NarrowShift(left - (d + 1) / 2, Two32 / 2);
      ToInt32(sum % Two64)
    else if photoWidth <= columnWidth < Two64 then
      DivUnique(columnWidth - photoWidth, 0, columnWidth - photoWidth, Two64);
      ToInt32(sum % Two64)
    else
      ToInt32(sum % Two64)
  }

  /** Narrowing to 32 bits ignores whole multiples of 2^32. */
  lemma NarrowShift(x: int, k: int)
    ensures ToInt32(x + k * Two32) == ToInt32(x)
  {
    DivUnique(x + k * Two32, x / Two32 + k, x % Two32, Two32);
  }

  /** Wrapping to 64 bits first changes nothing once narrowed to 32. */
  lemma NarrowOfWrap(x: int)
    ensures ToInt32(x % Two64) == ToInt32(x)
  {
    var q := x / Two64;
    assert x % Two64 == x + (-q * Two32) * Two32;
    NarrowShift(x, -q * Two32);
  }

  /** The left edge that signed `int` operands would give (C++ division,
      truncating toward zero). The size handler does not compute this: it is
      the comparison that shows which way GradientLeftAsWritten rounds. */
  function GradientLeft(left: int, columnWidth: int, photoWidth: int): (x: int)
    ensures columnWidth >= photoWidth ==>
      x >= left && 0 <= (left + columnWidth) - (x + photoWidth) - (x - left) <= 1
    ensures columnWidth < photoWidth ==>
      x <= left && 0 <= (x + photoWidth) - (left + columnWidth) - (left - x) <= 1
  {
    left + CDiv(columnWidth - photoWidth, 2)
  }

  /** A 32-bit value is its own narrowing. */
  lemma ToInt32Small(x: int)
    requires -0x8000_0000 <= x < 0x8000_0000
    ensures ToInt32(x) == x
  {
    if x >= 0 {
      DivUnique(x, 0, x, Two32);
    } else {
      DivUnique(x, -1, x + Two32, Two32);
    }
  }

  /** For widths that fit in an int, the size_t arithmetic centres the photo
      on the column rounding down: the edge is `left` plus the floor of half
      the slack, whether the slack is positive or an overhang. So the photo's
      centre is exactly on the column's centre or half a pixel left of it,
      never right. */
  lemma GradientLeftAsWrittenCentres(left: nat, columnWidth: nat, photoWidth: nat)
    requires left + columnWidth < 0x8000_0000 && photoWidth < 0x8000_0000
    ensures GradientLeftAsWritten(left, columnWidth, photoWidth) == left + (columnWidth - photoWidth) / 2
    ensures var v := GradientLeftAsWritten(left, columnWidth, photoWidth);
      -1 <= (2 * v + photoWidth) - (2 * left + columnWidth) <= 0
  {
    var slack := columnWidth - photoWidth;
    if photoWidth <= columnWidth {
      ToInt32Small(left + slack / 2);
    } else {
      var d := photoWidth - columnWidth;
      DivUnique(slack, -((d + 1) / 2), (d + 1) / 2 * 2 - d, 2);
      ToInt32Small(left - (d + 1) / 2);
    }
  }

  /** The left edge of account `i`'s checkbox gradient: a photo
      `photoWidth` wide, centred on its column by the size_t arithmetic of
      the size handler. The widths are ints there. */
  function CheckboxGradientLeft(width: nat, count: nat, i: nat, photoWidth: nat): (x: int)
    requires count >= 1 && i < count && width < 0x8000_0000 && photoWidth < 0x8000_0000
    ensures var col := Column(width, 0, count, i);
      -1 <= (2 * x + photoWidth) - (2 * col.x + col.w) <= 0
  {
    var col := Column(width, 0, count, i);
    ColumnsTile(width, 0, count, i, i);
    GradientLeftAsWrittenCentres(col.x, col.w, photoWidth);
    GradientLeftAsWritten(col.x, col.w, photoWidth)
  }

  /** When the photo fits in its column the unsigned arithmetic is harmless. */
  lemma GradientLeftAgreesWhenFitting(left: nat, columnWidth: nat, photoWidth: nat)
    requires photoWidth <= columnWidth && left + columnWidth < 0x8000_0000
    ensures GradientLeftAsWritten(left, columnWidth, photoWidth) == GradientLeft(left, columnWidth, photoWidth)
  {
    var d := columnWidth - photoWidth;
    DivUnique(d, 0, d, Two64);
    var s := left + d / 2;
    DivUnique(s, 0, s, Two64);
    DivUnique(s, 0, s, Two32);
  }

  /** When the photo overhangs the column by an odd number of pixels, the
      two arithmetics round the half pixel opposite ways: the size_t edge
      is one pixel left of the signed one. Both are half a pixel off centre,
      the first to the left and the second to the right. */
  lemma {:induction false} GradientLeftOffByOneWhenOverhanging(left: nat, columnWidth: nat, photoWidth: nat)
    requires columnWidth < photoWidth < 0x4000_0000 && left < 0x4000_0000
    requires (photoWidth - columnWidth) % 2 == 1
    ensures GradientLeftAsWritten(left, columnWidth, photoWidth) == GradientLeft(left, columnWidth, photoWidth) - 1
  {
    var d := photoWidth - columnWidth;
    var half := (d + 1) / 2;
    assert 2 * half == d + 1;
    // the wrapped difference and its half
    DivUnique(columnWidth - photoWidth, -1, Two64 - d, Two64);
    var wrapped := Two64 - d;
    DivUnique(wrapped, Two64 / 2 - half, 1, 2);
    // the sum stays below 2^64
    var s := left + (Two64 / 2 - half);
    DivUnique(s, 0, s, Two64);
    // narrowing keeps left - half
    var v := left - half;
    if v >= 0 {
      DivUnique(s, 0x8000_0000, v, Two32);
    } else {
      DivUnique(s, 0x7FFF_FFFF, Two32 + v, Two32);
    }
    assert CDiv(columnWidth - photoWidth, 2) == -(d / 2);
    assert d / 2 == half - 1;
  }

  /** A 10-pixel column under a 13-pixel photo: the size_t edge is -2 and
      the signed one -1. */
  lemma GradientLeftRoundingExample()
    ensures GradientLeftAsWritten(0, 10, 13) == -2
    ensures GradientLeft(0, 10, 13) == -1
  {
    GradientLeftOffByOneWhenOverhanging(0, 10, 13);
  }
}
