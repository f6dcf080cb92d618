/** Small shared vocabulary: optional values, clamping, C++ integer
    division, decimal rendering of numbers, and Qt's integer geometry. */
module Common {

  /** A value that may be absent (a null pointer, an empty std::optional). */
  datatype Option<+T> = None | Some(value: T)

  function Min(a: int, b: int): int { if a <= b then a else b }
  function Max(a: int, b: int): int { if a >= b then a else b }

  /** std::clamp(v, lo, hi); the standard leaves lo > hi undefined. */
  function Clamp(v: int, lo: int, hi: int): (r: int)
    requires lo <= hi
    ensures lo <= r <= hi
    ensures lo <= v <= hi ==> r == v
    ensures v < lo ==> r == lo
    ensures v > hi ==> r == hi
  {
    if v < lo then lo else if v > hi then hi else v
  }

  function Abs(x: int): nat { if x < 0 then -x else x }

  /** C++ `/` on signed integers with a positive divisor: the quotient is
      truncated toward zero, so it differs from Dafny's for a < 0. */
  function CDiv(a: int, b: int): (q: int)
    requires b > 0
    ensures a >= 0 ==> q == a / b
    ensures a < 0 ==> q == -((-a) / b)
  {
    if a >= 0 then a / b else -((-a) / b)
  }

  /** C++ `%` with a positive divisor: the remainder takes the dividend's sign. */
  function CMod(a: int, b: int): (r: int)
    requires b > 0
    ensures a >= 0 ==> r == a % b
    ensures -b < r < b
  {
    a - CDiv(a, b) * b
  }

  /** Multiplying by a positive number keeps the order. */
  lemma MulLeq(u: int, a: int, b: int)
    requires u > 0 && a <= b
    ensures u * a <= u * b
  {
    assert u * b - u * a == u * (b - a);
  }

  /** Cell `i` of size `unit` lies within `n` cells when i < n. */
  lemma CellWithin(unit: int, i: int, n: int)
    requires unit > 0 && 0 <= i < n
    ensures 0 <= unit * i && unit * i + unit <= unit * n
  {
    MulLeq(unit, i + 1, n);
    assert unit * (i + 1) == unit * i + unit;
    MulLeq(unit, 0, i);
  }

  /** Different cells of the same size do not overlap. */
  lemma CellsApart(unit: int, a: int, b: int)
    requires unit > 0 && a >= 0 && b >= 0 && a != b
    ensures unit * a + unit <= unit * b || unit * b + unit <= unit * a
  {
    if a < b {
      MulLeq(unit, a + 1, b);
      assert unit * (a + 1) == unit * a + unit;
    } else {
      MulLeq(unit, b + 1, a);
      assert unit * (b + 1) == unit * b + unit;
    }
  }

  /** Division by d undoes k * d + m for a remainder 0 <= m < d. */
  lemma DivUnique(x: int, k: int, m: int, d: int)
    requires d > 0 && 0 <= m < d && x == k * d + m
    ensures x / d == k && x % d == m
  {
    var q := x / d;
    var diff := q - k;
    assert d * diff == m - x % d;
    if diff > 0 {
      MulLeq(d, 1, diff);
    } else if diff < 0 {
      MulLeq(d, diff, -1);
    }
  }

  /** `a` is `b` with some elements left out, the rest kept in order. */
  predicate Subsequence<T(==)>(a: seq<T>, b: seq<T>)
    decreases |b|
  {
    if a == [] then true
    else if b == [] then false
    else if a[0] == b[0] then Subsequence(a[1..], b[1..])
    else Subsequence(a, b[1..])
  }

  /** Decimal digits of a natural number, as QString::number prints it. */
  function Decimal(n: nat): (s: string)
    ensures |s| >= 1
    ensures forall i :: 0 <= i < |s| ==> '0' <= s[i] <= '9'
    decreases n
  {
    if n < 10 then [DigitChar(n)] else Decimal(n / 10) + [DigitChar(n % 10)]
  }

  function DigitChar(d: nat): (c: char)
    requires d < 10
    ensures '0' <= c <= '9'
  {
    (('0' as int) + d) as char
  }

  function DigitValue(c: char): nat
    requires '0' <= c <= '9'
  {
    (c as int) - ('0' as int)
  }

  /** Reads back a string of decimal digits. */
  function ParseDecimal(s: string): nat
    requires forall i :: 0 <= i < |s| ==> '0' <= s[i] <= '9'
    decreases |s|
  {
    if s == [] then 0 else ParseDecimal(s[..|s| - 1]) * 10 + DigitValue(s[|s| - 1])
  }

  /** Decimal rendering loses nothing: parsing it gives the number back. */
  lemma {:induction false} DecimalRoundTrip(n: nat)
    ensures ParseDecimal(Decimal(n)) == n
    decreases n
  {
    if n >= 10 {
      var s := Decimal(n);
      assert s[..|s| - 1] == Decimal(n / 10);
      DecimalRoundTrip(n / 10);
    }
  }

  /** Distinct numbers print differently. */
  lemma DecimalInjective(a: nat, b: nat)
    requires Decimal(a) == Decimal(b)
    ensures a == b
  {
    DecimalRoundTrip(a);
    DecimalRoundTrip(b);
  }
}

/** Qt's integer geometry: QPoint, QSize, QRect and QMargins. */
module Geometry {

  datatype Point = Point(x: int, y: int)
  {
    function Plus(d: Point): Point { Point(x + d.x, y + d.y) }
  }

  datatype Size = Size(w: int, h: int)
  {
    /** QSize::isEmpty: a non-positive width or height. */
    predicate IsEmpty() { w <= 0 || h <= 0 }
  }

  /** A QRect kept as its top-left corner and size. */
  datatype Rect = Rect(x: int, y: int, w: int, h: int)
  {
    function Top(): int { y }
    function Bottom(): int { y + h }   // one past the last row
    function Left(): int { x }
    function Right(): int { x + w }    // one past the last column

    /** QRect::contains(point) for a rectangle of positive size. */
    predicate Contains(p: Point) { x <= p.x < x + w && y <= p.y < y + h }

    /** QRect::marginsAdded(QMargins(left, top, right, bottom)). */
    function MarginsAdded(left: int, top: int, right: int, bottom: int): Rect {
      Rect(x - left, y - top, w + left + right, h + top + bottom)
    }
  }

  /** A QMargins: left, top, right, bottom. */
  datatype Margins = Margins(left: int, top: int, right: int, bottom: int)

  /** QRect::marginsAdded and QRect::marginsRemoved. */
  function Grown(r: Rect, m: Margins): Rect { r.MarginsAdded(m.left, m.top, m.right, m.bottom) }
  function Shrunk(r: Rect, m: Margins): Rect { r.MarginsAdded(-m.left, -m.top, -m.right, -m.bottom) }

  /** Two rectangles share no pixel. */
  predicate Disjoint(a: Rect, b: Rect) {
    a.Right() <= b.Left() || b.Right() <= a.Left()
    || a.Bottom() <= b.Top() || b.Bottom() <= a.Top()
  }

  /** `inner` lies entirely within `outer`. */
  predicate Within(inner: Rect, outer: Rect) {
    outer.x <= inner.x && inner.Right() <= outer.Right()
    && outer.y <= inner.y && inner.Bottom() <= outer.Bottom()
  }
}
