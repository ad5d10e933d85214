/** The rectangle algebra of the hardware composer (hwc_utils.cpp).

    A rectangle is the half-open pixel set [left, right) x [top, bottom); `Has` is that
    set, and every operation below is specified by what it does to it. */
module Rects {

  datatype Point = Point(x: int, y: int)

  datatype Rect = Rect(left: int, top: int, right: int, bottom: int) {
    predicate Valid() {
      bottom > top && right > left
    }

    predicate Has(p: Point) {
      left <= p.x < right && top <= p.y < bottom
    }

    function Width(): int {
      right - left
    }

    function Height(): int {
      bottom - top
    }

    /** This rectangle lies inside `outer`, edge by edge. */
    predicate Within(outer: Rect) {
      outer.left <= left && outer.top <= top && right <= outer.right && bottom <= outer.bottom
    }
  }

  const ZERO_RECT := Rect(0, 0, 0, 0)

  function Max(a: int, b: int): int {
    if a > b then a else b
  }

  function Min(a: int, b: int): int {
    if a < b then a else b
  }

  /** Exactly the common pixels; an empty overlap is normalised to the zero rectangle. */
  function GetIntersection(r1: Rect, r2: Rect): (res: Rect)
    ensures forall p: Point :: res.Has(p) <==> r1.Has(p) && r2.Has(p)
    ensures res.Valid() || res == ZERO_RECT
    ensures res.Valid() ==> res.Within(r1) && res.Within(r2)
  {
    if !r1.Valid() || !r2.Valid() then
      ZERO_RECT
    else
      var res := Rect(Max(r1.left, r2.left), Max(r1.top, r2.top),
                      Min(r1.right, r2.right), Min(r1.bottom, r2.bottom));
      if !res.Valid() then ZERO_RECT else res
  }

  /** A rectangle around both arguments; `GetUnionLeast` says that it is the least one. */
  function GetUnion(r1: Rect, r2: Rect): (res: Rect)
    ensures forall p: Point :: r1.Has(p) || r2.Has(p) ==> res.Has(p)
    ensures r1.Valid() || r2.Valid() ==> res.Valid()
    ensures r1.Valid() ==> r1.Within(res)
    ensures r2.Valid() ==> r2.Within(res)
    ensures res.Valid() ==> r1.Valid() || r2.Valid()
  {
    if !r1.Valid() then
      r2
    else if !r2.Valid() then
      r1
    else
      Rect(Min(r1.left, r2.left), Min(r1.top, r2.top),
           Max(r1.right, r2.right), Max(r1.bottom, r2.bottom))
  }

  lemma GetUnionLeast(r1: Rect, r2: Rect, outer: Rect)
    requires r1.Valid() ==> r1.Within(outer)
    requires r2.Valid() ==> r2.Within(outer)
    ensures GetUnion(r1, r2).Valid() ==> GetUnion(r1, r2).Within(outer)
  {
  }

  /** Removes r2 from r1 when what is left is one rectangle, and otherwise leaves r1 alone. */
  function DeductRect(r1: Rect, r2: Rect): (res: Rect)
  {
    if r1.left == r2.left && r1.right == r2.right then
      if r1.top == r2.top && r2.bottom <= r1.bottom then
        r1.(top := r2.bottom)
      else if r1.bottom == r2.bottom && r2.top >= r1.top then
        r1.(bottom := r2.top)
      else
        r1
    else if r1.top == r2.top && r1.bottom == r2.bottom then
      if r1.left == r2.left && r2.right <= r1.right then
        r1.(left := r2.right)
      else if r1.right == r2.right && r2.left >= r1.left then
        r1.(right := r2.left)
      else
        r1
    else
      r1
  }

  function MoveRect(r: Rect, xOff: int, yOff: int): (res: Rect)
    ensures r.Valid() ==> res.Width() == r.Width() && res.Height() == r.Height()
  {
    if !r.Valid() then
      ZERO_RECT
    else
      Rect(r.left + xOff, r.top + yOff, r.right + xOff, r.bottom + yOff)
  }

  lemma MoveRectHas(r: Rect, xOff: int, yOff: int, p: Point)
    ensures MoveRect(r, xOff, yOff).Has(p) <==> r.Has(Point(p.x - xOff, p.y - yOff))
  {
  }

  /** Three of the four edges coincide. */
  predicate IsPeripheral(r1: Rect, r2: Rect) {
    var eqBounds :=
      (if r1.left == r2.left then 1 else 0) +
      (if r1.top == r2.top then 1 else 0) +
      (if r1.right == r2.right then 1 else 0) +
      (if r1.bottom == r2.bottom then 1 else 0);
    eqBounds == 3
  }

  /** Deducting an overlap of r1 removes pixels of that overlap only, keeps the result inside
      r1, and is all or nothing: either every pixel of the overlap goes or none does. */
  lemma DeductOverlap(r1: Rect, other: Rect, p: Point)
    ensures
      var cut := GetIntersection(r1, other);
      var res := DeductRect(r1, cut);
      && (res.Has(p) ==> r1.Has(p))
      && (r1.Has(p) && !cut.Has(p) ==> res.Has(p))
      && (res != r1 && r1.Valid() && cut.Valid() ==> !(res.Has(p) && cut.Has(p)))
  {
  }

  /** When what is left is a rectangle, something is cut: otherwise some row and some column of r1 would
      be free of the overlap, or it would part r1 in two. */
  lemma CutIfRectangle(r1: Rect, other: Rect, rest: Rect)
    requires GetIntersection(r1, other).Valid()
    requires forall q: Point :: rest.Has(q) <==> r1.Has(q) && !other.Has(q)
    ensures DeductRect(r1, GetIntersection(r1, other)) != r1
  {
    var cut := GetIntersection(r1, other);
    var x := if cut.left > r1.left then r1.left else r1.right - 1;
    var y := if cut.top > r1.top then r1.top else r1.bottom - 1;
    var first, last := Point(r1.left, r1.top), Point(r1.right - 1, r1.bottom - 1);
    assert rest.Has(Point(x, cut.top)) <==> !other.Has(Point(x, cut.top));
    assert rest.Has(Point(cut.left, y)) <==> !other.Has(Point(cut.left, y));
    assert (rest.Has(first) <==> !other.Has(first)) && (rest.Has(last) <==> !other.Has(last));
    assert !rest.Has(Point(cut.left, cut.top));
  }

  /** And it goes whenever what is left is a rectangle at all. */
  lemma DeductWhenRectangle(r1: Rect, other: Rect, rest: Rect, p: Point)
    requires GetIntersection(r1, other).Valid()
    requires forall q: Point :: rest.Has(q) <==> r1.Has(q) && !other.Has(q)
    ensures DeductRect(r1, GetIntersection(r1, other)).Has(p) <==> r1.Has(p) && !other.Has(p)
  {
    CutIfRectangle(r1, other, rest);
    DeductOverlap(r1, other, p);
  }

  /** A peripheral rectangle is the other one with a single edge moved. */
  lemma PeripheralIff(r1: Rect, r2: Rect)
    ensures IsPeripheral(r1, r2) <==>
      r1 != r2 && (r1 == r2.(left := r1.left) || r1 == r2.(top := r1.top) || r1 == r2.(right := r1.right) || r1 == r2.(bottom := r1.bottom))
  {
  }

  /** The edges of a deduction stay inside the minuend and in order. */
  lemma DeductEdges(r1: Rect, other: Rect)
    requires GetIntersection(r1, other).Valid()
    ensures
      var res := DeductRect(r1, GetIntersection(r1, other));
      res.Within(r1) && res.left <= res.right && res.top <= res.bottom
  {
  }

  /** An overlap of a peripheral strip with another one always deducts to one rectangle, so
      the two strips become disjoint, provided the strip being cut stays inside the view. */
  lemma PeripheralDeductDisjoint(view: Rect, r1: Rect, r2: Rect, p: Point)
    requires r1.Within(view)
    requires IsPeripheral(r1, view) && IsPeripheral(r2, view)
    requires GetIntersection(r2, r1).Valid()
    ensures
      var res := DeductRect(r1, GetIntersection(r2, r1));
      !(res.Has(p) && r2.Has(p))
  {
  }
}
