/** Dividing a container among its children along one axis, over exact reals. */
module FlexLayout {

  datatype Direction = Row | Column

  datatype Sizing =
    | Flex(grow: real, shrink: real, basis: real)
    | AspectRatio(ratio: real)
    | Fixed(width: real, height: real)

  datatype Child = Child(sizing: Sizing, margin: real)

  datatype Rect = Rect(x: real, y: real, width: real, height: real)

  function AtLeast(low: real, v: real): real {
    if v < low then low else v
  }

  function AtMost(high: real, v: real): real {
    if v > high then high else v
  }

  function Flexible(s: Sizing): (real, real, real) {
    if s.Flex? then (s.grow, s.shrink, s.basis) else (0.0, 1.0, 100.0)
  }

  function Grow(c: Child): real {
    AtLeast(0.0, Flexible(c.sizing).0)
  }

  function Shrink(c: Child): real {
    AtLeast(0.0, Flexible(c.sizing).1)
  }

  function Basis(c: Child): real {
    AtLeast(1.0, Flexible(c.sizing).2)
  }

  function Margins(c: Child): real {
    AtLeast(0.0, c.margin) * 2.0
  }

  function BasisWithMargins(c: Child): real {
    Basis(c) + Margins(c)
  }

  function Sum(children: seq<Child>, part: Child -> real): real {
    if children == [] then 0.0 else part(children[0]) + Sum(children[1..], part)
  }

  /** What the children ask for together, and the length they have to share. */
  datatype Axis = Axis(length: real, basis: real, grow: real, shrink: real)

  function AxisOf(children: seq<Child>, length: real): Axis {
    Axis(length, Sum(children, BasisWithMargins), Sum(children, Grow), Sum(children, Shrink))
  }

  function Spare(a: Axis): real {
    AtLeast(0.0, a.length - a.basis)
  }

  function Overflow(a: Axis): real {
    AtLeast(0.0, a.basis - a.length)
  }

  function GrowShare(a: Axis, grow: real): real {
    if a.grow > 0.0 then Spare(a) * (grow / a.grow) else 0.0
  }

  function ShrinkShare(a: Axis, shrink: real): real {
    if Overflow(a) > 0.0 && a.shrink > 0.0 then Overflow(a) * (shrink / a.shrink) else 0.0
  }

  /** The length a child would get if it could get arbitrarily small. */
  function Wanted(a: Axis, c: Child): real {
    Basis(c) + GrowShare(a, Grow(c)) - ShrinkShare(a, Shrink(c))
  }

  function Primary(a: Axis, c: Child): real {
    AtLeast(1.0, Wanted(a, c))
  }

  /** The box of a child whose margin begins at `cursor`. */
  function ChildBounds(dir: Direction, content: Rect, a: Axis, c: Child, cursor: real): Rect {
    var margin, primary := AtLeast(0.0, c.margin), Primary(a, c);
    var box :=
      if dir.Row? then Rect(cursor + margin, content.y + margin, primary, AtLeast(1.0, content.height - margin * 2.0))
      else Rect(content.x + margin, cursor + margin, AtLeast(1.0, content.width - margin * 2.0), primary);
    match c.sizing
    case Flex(_, _, _) => box
    case AspectRatio(ratio) =>
      if ratio <= 0.0 then box
      else if dir.Row? then box.(height := AtMost(content.height - margin * 2.0, box.width / ratio))
      else box.(height := box.width / ratio)
    case Fixed(width, height) => box.(width := width, height := height)
  }

  function Start(dir: Direction, r: Rect): real {
    if dir.Row? then r.x else r.y
  }

  function Extent(dir: Direction, r: Rect): real {
    if dir.Row? then r.width else r.height
  }

  function Content(bounds: Rect, padding: real): Rect {
    var p := AtLeast(0.0, padding);
    Rect(bounds.x + p, bounds.y + p, AtLeast(1.0, bounds.width - p * 2.0), AtLeast(1.0, bounds.height - p * 2.0))
  }

  /** How far the cursor has moved once the children have been laid out. */
  function Advance(dir: Direction, content: Rect, a: Axis, children: seq<Child>): real {
    if children == [] then 0.0
    else
      var last := children[|children| - 1];
      Advance(dir, content, a, children[..|children| - 1])
      + Extent(dir, ChildBounds(dir, content, a, last, 0.0)) + Margins(last)
  }

  lemma ExtentIgnoresCursor(dir: Direction, content: Rect, a: Axis, c: Child, cursor: real)
    ensures Extent(dir, ChildBounds(dir, content, a, c, cursor)) == Extent(dir, ChildBounds(dir, content, a, c, 0.0))
  {
  }

  /** The box of the `k`-th child: it follows the ones before it. */
  function BoxOf(dir: Direction, content: Rect, a: Axis, children: seq<Child>, k: nat): Rect
    requires k < |children|
  {
    ChildBounds(dir, content, a, children[k], Start(dir, content) + Advance(dir, content, a, children[..k]))
  }

  lemma AdvanceOne(dir: Direction, content: Rect, a: Axis, children: seq<Child>, k: nat)
    requires k < |children|
    ensures Advance(dir, content, a, children[..k + 1])
            == Advance(dir, content, a, children[..k])
               + Extent(dir, BoxOf(dir, content, a, children, k)) + Margins(children[k])
  {
    hide ChildBounds;
    assert children[..k + 1][..k] == children[..k];
    ExtentIgnoresCursor(dir, content, a, children[k], Start(dir, content) + Advance(dir, content, a, children[..k]));
  }

  method LayOutChildren(dir: Direction, bounds: Rect, padding: real, children: seq<Child>) returns (out: seq<Rect>)
    ensures |out| == |children|
    ensures var content := Content(bounds, padding);
            var a := AxisOf(children, Extent(dir, content));
            forall k :: 0 <= k < |children| ==> out[k] == BoxOf(dir, content, a, children, k)
  {
    hide ChildBounds, AxisOf, Content, Advance, Start;
    var content := Content(bounds, padding);
    var a := AxisOf(children, Extent(dir, content));
    var cursor := Start(dir, content);
    out := [];
    AdvanceNone(dir, content, a, children);
    for k := 0 to |children|
      invariant |out| == k && cursor == Start(dir, content) + Advance(dir, content, a, children[..k])
      invariant forall j :: 0 <= j < k ==> out[j] == BoxOf(dir, content, a, children, j)
    {
      var box := ChildBounds(dir, content, a, children[k], cursor);
      AdvanceOne(dir, content, a, children, k);
      cursor := cursor + Extent(dir, box) + Margins(children[k]);
      out := out + [box];
    }
  }

  lemma AdvanceNone(dir: Direction, content: Rect, a: Axis, children: seq<Child>)
    ensures Advance(dir, content, a, children[..0]) == 0.0
  {
  }

  // ----- main results

  lemma ShareAdds(whole: real, part: real, rest: real, total: real)
    requires total > 0.0
    ensures whole * ((part + rest) / total) == whole * (part / total) + whole * (rest / total)
  {
    var x, y := part / total, rest / total;
    assert (x + y) * total == part + rest;
    assert (part + rest) / total == x + y;
  }

  lemma GrowSharesAdd(a: Axis, part: real, rest: real)
    ensures GrowShare(a, part + rest) == GrowShare(a, part) + GrowShare(a, rest)
  {
    if a.grow > 0.0 {
      ShareAdds(Spare(a), part, rest, a.grow);
    }
  }

  lemma ShrinkSharesAdd(a: Axis, part: real, rest: real)
    ensures ShrinkShare(a, part + rest) == ShrinkShare(a, part) + ShrinkShare(a, rest)
  {
    if a.shrink > 0.0 {
      ShareAdds(Overflow(a), part, rest, a.shrink);
    }
  }

  lemma NoShare(a: Axis)
    ensures GrowShare(a, 0.0) == 0.0 && ShrinkShare(a, 0.0) == 0.0
  {
  }

  predicate AllFlex(children: seq<Child>) {
    forall c :: c in children ==> c.sizing.Flex?
  }

  /** No child would have to get smaller than one unit. */
  predicate NoneSqueezed(a: Axis, children: seq<Child>) {
    forall c :: c in children ==> Wanted(a, c) >= 1.0
  }

  function TotalWanted(a: Axis, children: seq<Child>): real {
    if children == [] then 0.0
    else
      var last := children[|children| - 1];
      TotalWanted(a, children[..|children| - 1]) + Wanted(a, last) + Margins(last)
  }

  lemma {:induction false} SumAppend(children: seq<Child>, c: Child, part: Child -> real)
    ensures Sum(children + [c], part) == Sum(children, part) + part(c)
  {
    if children == [] {
      assert [c][1..] == [];
    } else {
      assert (children + [c])[1..] == children[1..] + [c];
      SumAppend(children[1..], c, part);
    }
  }

  lemma {:induction false} WantedAddsUp(a: Axis, children: seq<Child>)
    ensures TotalWanted(a, children)
            == Sum(children, BasisWithMargins) + GrowShare(a, Sum(children, Grow)) - ShrinkShare(a, Sum(children, Shrink))
  {
    hide GrowShare, ShrinkShare, Grow, Shrink, Basis, Margins;
    NoShare(a);
    if children != [] {
      var init, last := children[..|children| - 1], children[|children| - 1];
      assert children == init + [last];
      WantedAddsUp(a, init);
      SumAppend(init, last, BasisWithMargins);
      SumAppend(init, last, Grow);
      SumAppend(init, last, Shrink);
      GrowSharesAdd(a, Sum(init, Grow), Grow(last));
      ShrinkSharesAdd(a, Sum(init, Shrink), Shrink(last));
    }
  }

  lemma FlexExtent(dir: Direction, content: Rect, a: Axis, c: Child)
    requires c.sizing.Flex?
    ensures Extent(dir, ChildBounds(dir, content, a, c, 0.0)) == Primary(a, c)
  {
    hide Primary;
  }

  /** The floor of one unit can only make the children longer than they were to be, and does so if it applies at all. */
  lemma {:induction false} AdvanceAtLeastWanted(dir: Direction, content: Rect, a: Axis, children: seq<Child>)
    requires AllFlex(children)
    ensures Advance(dir, content, a, children) >= TotalWanted(a, children)
    ensures Advance(dir, content, a, children) == TotalWanted(a, children) <==> NoneSqueezed(a, children)
  {
    hide ChildBounds, Wanted, Margins;
    if children != [] {
      var init, last := children[..|children| - 1], children[|children| - 1];
      assert forall c :: c in children <==> c in init || c == last;
      AdvanceAtLeastWanted(dir, content, a, init);
      FlexExtent(dir, content, a, last);
    }
  }

  /**
   * Flexible children fill their container exactly when what they ask for fits exactly, or there is room and one of
   * them grows, or there is too little and they shrink without any of them reaching the floor of one unit.
   */
  lemma ChildrenFillAxisIff(dir: Direction, content: Rect, children: seq<Child>, length: real)
    requires AllFlex(children)
    ensures var a := AxisOf(children, length);
            Advance(dir, content, a, children) == length <==>
              a.basis == length || (a.basis < length && a.grow > 0.0)
              || (a.basis > length && a.shrink > 0.0 && NoneSqueezed(a, children))
  {
    var a := AxisOf(children, length);
    WantedAddsUp(a, children);
    AdvanceAtLeastWanted(dir, content, a, children);
    SharesOfAll(a);
    if a.basis <= length || a.shrink <= 0.0 {
      forall c | c in children ensures Wanted(a, c) >= 1.0 {
        SharesAreSigned(children, length, c);
      }
    }
  }

  /** Growing hands out all that is left, shrinking takes back all that is missing. */
  lemma SharesOfAll(a: Axis)
    ensures GrowShare(a, a.grow) == if a.grow > 0.0 then Spare(a) else 0.0
    ensures ShrinkShare(a, a.shrink) == if a.shrink > 0.0 then Overflow(a) else 0.0
  {
    assert a.grow > 0.0 ==> a.grow / a.grow == 1.0;
    assert a.shrink > 0.0 ==> a.shrink / a.shrink == 1.0;
  }

  lemma SharesAreSigned(children: seq<Child>, length: real, c: Child)
    ensures var a := AxisOf(children, length);
            a.basis <= length || a.shrink <= 0.0 ==> Wanted(a, c) >= 1.0
  {
    var a := AxisOf(children, length);
    if a.grow > 0.0 {
      assert Grow(c) / a.grow >= 0.0;
    }
  }

  // ----- across the axis

  function CrossStart(dir: Direction, r: Rect): real {
    if dir.Row? then r.y else r.x
  }

  function CrossExtent(dir: Direction, r: Rect): real {
    if dir.Row? then r.height else r.width
  }

  /** A stretch from `from` fills `length` from `start` but for `margin` at both ends; if it cannot, it is a unit long. */
  predicate Fills(from: real, extent: real, start: real, length: real, margin: real) {
    && from == start + margin
    && if length >= margin + margin + 1.0 then from + extent + margin == start + length else extent == 1.0
  }

  /** A container's children share what its padding leaves, on all four sides. */
  lemma PaddingSurrounds(bounds: Rect, padding: real)
    ensures var content, p := Content(bounds, padding), if padding <= 0.0 then 0.0 else padding;
            && Fills(content.x, content.width, bounds.x, bounds.width, p)
            && Fills(content.y, content.height, bounds.y, bounds.height, p)
  {
  }

  /** Children of flexible size, and those whose aspect ratio makes no sense, fill the container across its axis. */
  lemma FlexibleFillAcross(dir: Direction, content: Rect, a: Axis, children: seq<Child>, k: nat)
    requires k < |children|
    requires children[k].sizing.Flex? || (children[k].sizing.AspectRatio? && children[k].sizing.ratio <= 0.0)
    ensures var box, m := BoxOf(dir, content, a, children, k), children[k].margin;
            Fills(CrossStart(dir, box), CrossExtent(dir, box), CrossStart(dir, content), CrossExtent(dir, content),
                  if m <= 0.0 then 0.0 else m)
  {
    hide Primary, Advance;
  }

  /**
   * A child with an aspect ratio has it, and fills a column across; in a row it is as wide as its share, and lower than
   * its ratio asks for only to leave its margins free.
   */
  lemma AspectRatioHolds(dir: Direction, content: Rect, a: Axis, children: seq<Child>, k: nat)
    requires k < |children| && children[k].sizing.AspectRatio? && children[k].sizing.ratio > 0.0
    ensures var box, ratio := BoxOf(dir, content, a, children, k), children[k].sizing.ratio;
            var m := if children[k].margin <= 0.0 then 0.0 else children[k].margin;
            if dir.Column? then
              box.height * ratio == box.width && Fills(box.x, box.width, content.x, content.width, m)
            else
              && box.y == content.y + m && box.width == Primary(a, children[k])
              && box.height + m + m <= content.height && box.height * ratio <= box.width
              && (box.height + m + m == content.height || box.height * ratio == box.width)
  {
    hide Primary, Advance;
    var box, ratio := BoxOf(dir, content, a, children, k), children[k].sizing.ratio;
    assert (box.width / ratio) * ratio == box.width;
    if box.height < box.width / ratio {
      assert box.height * ratio <= (box.width / ratio) * ratio;
    }
  }

  /** A child of fixed size has that size, and stands inside its margin. */
  lemma FixedKeepsSize(dir: Direction, content: Rect, a: Axis, children: seq<Child>, k: nat)
    requires k < |children| && children[k].sizing.Fixed?
    ensures var box, m := BoxOf(dir, content, a, children, k), children[k].margin;
            && box.width == children[k].sizing.width && box.height == children[k].sizing.height
            && CrossStart(dir, box) == CrossStart(dir, content) + if m <= 0.0 then 0.0 else m
  {
    hide Primary, Advance;
  }

  /** A flexible child asks for what it says, but for no less than one unit, and neither grows nor shrinks backwards. */
  lemma FlexibleAsksForItself(c: Child)
    requires c.sizing.Flex?
    ensures Basis(c) >= 1.0 && Basis(c) >= c.sizing.basis && (Basis(c) == 1.0 || Basis(c) == c.sizing.basis)
    ensures Grow(c) >= 0.0 && Grow(c) >= c.sizing.grow && (Grow(c) == 0.0 || Grow(c) == c.sizing.grow)
    ensures Shrink(c) >= 0.0 && Shrink(c) >= c.sizing.shrink && (Shrink(c) == 0.0 || Shrink(c) == c.sizing.shrink)
  {
  }

  /** Of the axis, children that are not flexible ask for a hundred units that may shrink but not grow. */
  lemma OthersAskForHundred(c: Child)
    requires !c.sizing.Flex?
    ensures Basis(c) == 100.0 && Grow(c) == 0.0 && Shrink(c) == 1.0
  {
  }

  /** Boxes follow each other along the axis, each with its margins to itself, when no fixed size is negative. */
  lemma {:induction false} ChildrenDoNotOverlap(dir: Direction, content: Rect, a: Axis, children: seq<Child>,
                                               j: nat, k: nat)
    requires j < k < |children|
    requires forall i :: j < i < k ==> Extent(dir, BoxOf(dir, content, a, children, i)) >= 0.0
    ensures Start(dir, BoxOf(dir, content, a, children, j)) + Extent(dir, BoxOf(dir, content, a, children, j))
              + AtLeast(0.0, children[j].margin) + AtLeast(0.0, children[k].margin)
            <= Start(dir, BoxOf(dir, content, a, children, k))
    decreases k
  {
    if j + 1 == k {
      AdvanceOne(dir, content, a, children, j);
      StartAfterMargin(dir, content, a, children, j);
      StartAfterMargin(dir, content, a, children, k);
    } else {
      ChildrenDoNotOverlap(dir, content, a, children, j, k - 1);
      AdvanceOne(dir, content, a, children, k - 1);
      StartAfterMargin(dir, content, a, children, k - 1);
      StartAfterMargin(dir, content, a, children, k);
    }
  }

  lemma StartAfterMargin(dir: Direction, content: Rect, a: Axis, children: seq<Child>, k: nat)
    requires k < |children|
    ensures Start(dir, BoxOf(dir, content, a, children, k))
            == Start(dir, content) + Advance(dir, content, a, children[..k]) + AtLeast(0.0, children[k].margin)
  {
    hide Primary, Advance;
  }
}
