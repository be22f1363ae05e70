/** Which call trees the layout of tfg/browser/visualtree.py places in disjoint intervals, at every width. */
module VisualFits {
  import opened CallTree
  import opened Text
  import opened VisualTree

  // ---------------------------------------------------------------- disjoint intervals inside the parent

  /** `a` lies strictly to the left of `b`. */
  predicate LeftOf(a: Frame, b: Frame) {
    a.x + a.width <= b.x
  }

  predicate Inside(c: Frame, p: Frame) {
    c.width >= 1 && p.x <= c.x && c.x + c.width <= p.x + p.width
  }

  /** Non-empty intervals, each strictly left of the one before. */
  predicate RightToLeft(row: seq<Frame>) {
    && (forall f <- row :: f.width >= 1)
    && forall i, j :: 0 <= i < j < |row| ==> LeftOf(row[j], row[i])
  }

  /** In the whole subtree: children lie one row above, inside their parent, pairwise disjoint, their text
      filling their interval. */
  predicate WellPlaced(p: Frame) {
    && |p.text| == p.width
    && RightToLeft(p.frames)
    && forall c <- p.frames :: Inside(c, p) && c.y == p.y + 1 && WellPlaced(c)
  }

  // ---------------------------------------------------------------- the trees that fit

  function Positive(n: int): nat {
    if n > 0 then n else 0
  }

  /** The shares with the parent's sign, added up. */
  function Weight(kids: seq<Tree>, parentCount: int): nat {
    if kids == [] then 0
    else Weight(kids[..|kids| - 1], parentCount) + Positive(Along(parentCount, kids[|kids| - 1].count))
  }

  /** No share against the parent's sign stands before one with it. */
  predicate OpposedLast(kids: seq<Tree>, parentCount: int) {
    forall i, j :: 0 <= i < j < |kids| && Along(parentCount, kids[i].count) < 0 ==>
      Along(parentCount, kids[j].count) <= 0
  }

  /** Below one frame: in descending order of names, the shares with the frame's sign come before those against it and
      do not outweigh the frame. */
  predicate RowFits(t: Tree) {
    var kids := SortDescending(t.frames);
    OpposedLast(kids, t.count) && Weight(kids, t.count) <= Abs(t.count)
  }

  /** In the whole subtree, as far down as columns are given out. */
  predicate Fits(t: Tree) {
    t.count == 0 || (RowFits(t) && forall c <- t.frames :: Along(t.count, c.count) > 0 ==> Fits(c))
  }

  // ---------------------------------------------------------------- the widths fit

  /** The columns that the frames with a column take. */
  function Columns(kids: seq<Tree>, parentCount: int, avail: int): nat {
    if kids == [] then 0
    else Columns(kids[..|kids| - 1], parentCount, avail)
         + Positive(CalculateWidth(kids[|kids| - 1].count, parentCount, avail))
  }

  lemma {:induction false} ShareOfPositive(count: int, parentCount: int, avail: int)
    requires parentCount != 0 && avail >= 0
    ensures Abs(parentCount) * Positive(CalculateWidth(count, parentCount, avail))
         <= Positive(Along(parentCount, count)) * avail
  {
    ExactShare(count, parentCount, avail);
    ShareSign(count, parentCount, avail);
  }

  /** Multiplied out, the rounded shares never exceed the exact ones. */
  lemma {:induction false} ColumnsBound(kids: seq<Tree>, parentCount: int, avail: int)
    requires parentCount != 0 && avail >= 0
    ensures Abs(parentCount) * Columns(kids, parentCount, avail) <= Weight(kids, parentCount) * avail
  {
    if kids != [] {
      var init, last := kids[..|kids| - 1], kids[|kids| - 1];
      ColumnsBound(init, parentCount, avail);
      ShareOfPositive(last.count, parentCount, avail);
      Distributes(Abs(parentCount), Columns(init, parentCount, avail),
                  Positive(CalculateWidth(last.count, parentCount, avail)));
      Distributes(avail, Weight(init, parentCount), Positive(Along(parentCount, last.count)));
    }
  }

  /** The children that get columns never need more than there are. */
  lemma {:induction false} WidthsFit(kids: seq<Tree>, parentCount: int, avail: int)
    requires avail >= 0 && parentCount != 0 && Weight(kids, parentCount) <= Abs(parentCount)
    ensures Columns(kids, parentCount, avail) <= avail
  {
    hide Weight, Columns;
    ColumnsBound(kids, parentCount, avail);
    Scaled(avail, Weight(kids, parentCount), Abs(parentCount));
    CancelFactor(Abs(parentCount), Columns(kids, parentCount, avail), avail);
  }

  /** No share against the sign. */
  predicate NoneOpposed(kids: seq<Tree>, parentCount: int) {
    forall c <- kids :: Along(parentCount, c.count) >= 0
  }

  lemma {:induction false} AllInColumns(kids: seq<Tree>, parentCount: int, avail: int)
    requires parentCount != 0 && avail >= 0 && NoneOpposed(kids, parentCount)
    ensures SumWidths(kids, parentCount, avail) == Columns(kids, parentCount, avail)
  {
    if kids != [] {
      AllInColumns(kids[..|kids| - 1], parentCount, avail);
      ShareSign(kids[|kids| - 1].count, parentCount, avail);
    }
  }

  /** Before a share with the sign there is none against it. */
  lemma {:induction false} NoneOpposedBefore(kids: seq<Tree>, parentCount: int)
    requires kids != [] && OpposedLast(kids, parentCount) && Along(parentCount, kids[|kids| - 1].count) > 0
    ensures NoneOpposed(kids[..|kids| - 1], parentCount)
  {
  }

  lemma {:induction false} MinIsReached(kids: seq<Tree>, parentCount: int, avail: int)
    requires kids != []
    ensures forall c <- kids :: CalculateWidth(c.count, parentCount, avail) >= MinWidth(kids, parentCount, avail)
    ensures exists c :: c in kids && CalculateWidth(c.count, parentCount, avail) == MinWidth(kids, parentCount, avail)
  {
    var last := kids[|kids| - 1];
    if |kids| > 1 {
      var init := kids[..|kids| - 1];
      MinIsReached(init, parentCount, avail);
      var c :| c in init && CalculateWidth(c.count, parentCount, avail) == MinWidth(init, parentCount, avail);
      assert c in kids && last in kids;
      assert kids == init + [last];
    } else {
      assert kids == [last];
    }
  }

  /** '+' only comes where no share is against the sign. */
  lemma {:induction false} PlusNoneOpposed(p: Frame, cf: Tree, on: Settings)
    requires p.width >= 1 && p.count != 0 && HasCombined(p, cf, on)
    ensures NoneOpposed(cf.frames, p.count)
    ensures exists c :: c in cf.frames && CalculateWidth(c.count, p.count, p.width) == 0
  {
    MinIsReached(cf.frames, p.count, p.width);
    forall c | c in cf.frames
      ensures Along(p.count, c.count) >= 0
    {
      ShareSign(c.count, p.count, p.width);
    }
  }

  /** With '+' to come, at least one column is left for it. */
  lemma {:induction false} ColumnLeftForPlus(p: Frame, cf: Tree, on: Settings)
    requires p.width >= 1 && p.count == cf.count != 0 && RowFits(cf) && HasCombined(p, cf, on)
    ensures var kids, avail := SortDescending(cf.frames), Avail(p, cf, on);
      SumWidths(kids, p.count, avail) == Columns(kids, p.count, avail) <= p.width - 1
  {
    hide MinWidth, CalculateWidth, OpposedLast, HasCombined;
    var kids, avail := SortDescending(cf.frames), Avail(p, cf, on);
    SortedAreFrames(cf.frames);
    PlusNoneOpposed(p, cf, on);
    AllInColumns(kids, p.count, avail);
    WidthsFit(kids, p.count, avail);
    SortSums(cf.frames, p.count, p.width);
  }

  // ---------------------------------------------------------------- trees that fit are well placed

  /** What the placed prefix satisfies: everything lies right of the columns still free. */
  predicate PlacedRight(p: Frame, row: seq<Frame>, left: int) {
    && RightToLeft(row)
    && forall c <- row :: Inside(c, p) && left <= c.x && c.y == p.y + 1 && WellPlaced(c)
  }

  /** The shares with the sign have fitting subtrees. */
  predicate KidsFit(kids: seq<Tree>, parentCount: int) {
    forall c <- kids :: Along(parentCount, c.count) > 0 ==> Fits(c)
  }

  lemma {:induction false} PlacedIsRight(p: Frame, cf: Tree, kids: seq<Tree>, avail: int, on: Settings)
    requires forall c <- kids :: c in cf.frames
    requires p.count != 0 && 0 <= avail <= p.width && KidsFit(kids, p.count)
    requires OpposedLast(kids, p.count) && Weight(kids, p.count) <= Abs(p.count)
    ensures PlacedRight(p, Placed(p, cf, kids, avail, on), p.x + p.width - Columns(kids, p.count, avail))
    decreases cf, 0, |kids|
  {
    hide Fits, CalculateWidth, FitString, WellPlaced, Layout;
    if kids != [] {
      var init, last := kids[..|kids| - 1], kids[|kids| - 1];
      var cell := Cell(p, kids, avail, on);
      assert last in kids && last in cf.frames && KidsFit(init, p.count) && OpposedLast(init, p.count);
      PlacedIsRight(p, cf, init, avail, on);
      ShareSign(last.count, p.count, avail);
      if cell.width > 0 {
        NoneOpposedBefore(kids, p.count);
        AllInColumns(init, p.count, avail);
        WidthsFit(kids, p.count, avail);
        FitStringFits(last.name, cell.width, on.filler);
        LayoutIsWellPlaced(cell, last, on);
        LayoutKeepsFields(cell, last, on);
        NextCell(p, Placed(p, cf, init, avail, on), Layout(cell, last, on),
                 p.x + p.width - Columns(init, p.count, avail));
      }
    }
  }

  lemma {:induction false} NextCell(p: Frame, row: seq<Frame>, c: Frame, left: int)
    requires PlacedRight(p, row, left) && c.x + c.width == left <= p.x + p.width
    requires c.width >= 1 && p.x <= c.x && c.y == p.y + 1 && WellPlaced(c)
    ensures PlacedRight(p, row + [c], c.x)
  {
  }

  /** A placed row, with or without '+' in the column just left of it. */
  lemma {:induction false} RowIsWellPlaced(p: Frame, row: seq<Frame>, plus: Frame, hasPlus: bool, left: int)
    requires p.width >= 1 && |p.text| == p.width && PlacedRight(p, row, left) && left <= p.x + p.width
    requires hasPlus ==> p.x < left && plus.x == left - 1 && plus.width == 1 && |plus.text| == 1
    requires plus.y == p.y + 1 && plus.frames == []
    ensures WellPlaced(p.(frames := row + (if hasPlus then [plus] else [])))
  {
    var q := p.(frames := row + (if hasPlus then [plus] else []));
    assert RightToLeft(q.frames);
    forall c | c in q.frames
      ensures Inside(c, q) && c.y == q.y + 1 && WellPlaced(c)
    {
    }
  }

  /** A frame that counts nothing gives its children no columns. */
  lemma {:induction false} NothingPlaced(p: Frame, cf: Tree, kids: seq<Tree>, avail: int, on: Settings)
    requires p.count == 0 && forall c <- kids :: c in cf.frames
    ensures Placed(p, cf, kids, avail, on) == [] && SumWidths(kids, p.count, avail) == 0
    decreases |kids|
  {
    if kids != [] {
      NothingPlaced(p, cf, kids[..|kids| - 1], avail, on);
    }
  }

  lemma {:induction false} NothingIsWellPlaced(p: Frame, cf: Tree, on: Settings)
    requires p.width >= 1 && |p.text| == p.width && p.frames == [] && p.count == cf.count == 0 && cf.frames != []
    ensures WellPlaced(Layout(p, cf, on))
  {
    hide CalculateWidth, MinWidth, SumWidths, Placed, Small, PlacedRight, WellPlaced, SortDescending;
    var kids, avail := SortDescending(cf.frames), Avail(p, cf, on);
    SortedAreFrames(cf.frames);
    NothingPlaced(p, cf, kids, avail, on);
    EmptyRow(p);
    RowIsWellPlaced(p, [], PlusFrame(p, kids, avail, on), HasCombined(p, cf, on), p.x + p.width);
  }

  lemma {:induction false} FittingIsWellPlaced(p: Frame, cf: Tree, on: Settings)
    requires p.width >= 1 && |p.text| == p.width && p.frames == [] && p.count == cf.count != 0 && cf.frames != []
    requires RowFits(cf) && KidsFit(cf.frames, cf.count)
    ensures WellPlaced(Layout(p, cf, on))
    decreases cf, 1, 0
  {
    hide CalculateWidth, MinWidth, SumWidths, Placed, Small, PlacedRight, WellPlaced, SortDescending, Fits, Weight,
         Columns, OpposedLast;
    var kids, avail, plus := SortDescending(cf.frames), Avail(p, cf, on), HasCombined(p, cf, on);
    SortedAreFrames(cf.frames);
    PlacedIsRight(p, cf, kids, avail, on);
    if plus {
      ColumnLeftForPlus(p, cf, on);
    }
    RowIsWellPlaced(p, Placed(p, cf, kids, avail, on), PlusFrame(p, kids, avail, on), plus,
                    p.x + p.width - Columns(kids, p.count, avail));
  }

  /** Children occupy pairwise disjoint, non-empty intervals inside their parent, everywhere in the layout of a tree
      that fits. */
  lemma {:induction false} LayoutIsWellPlaced(p: Frame, cf: Tree, on: Settings)
    requires p.width >= 1 && |p.text| == p.width && p.frames == [] && p.count == cf.count && Fits(cf)
    ensures WellPlaced(Layout(p, cf, on))
    decreases cf, 1, 1
  {
    hide RowFits;
    if cf.frames == [] {
    } else if cf.count == 0 {
      NothingIsWellPlaced(p, cf, on);
    } else {
      FittingIsWellPlaced(p, cf, on);
    }
  }

  lemma {:induction false} EmptyRow(p: Frame)
    ensures PlacedRight(p, [], p.x + p.width)
  {
  }

  // ---------------------------------------------------------------- trees that do not fit are misplaced

  /** With as many columns as the parent counts, the shares are exact. */
  lemma {:induction false} ExactWidth(count: int, parentCount: int)
    requires parentCount != 0
    ensures CalculateWidth(count, parentCount, Abs(parentCount)) == Along(parentCount, count)
  {
    var m, w, a := Abs(parentCount), CalculateWidth(count, parentCount, Abs(parentCount)), Along(parentCount, count);
    ExactShare(count, parentCount, m);
    CancelFactor(m, w, a);
    if w < a {
      Scaled(m, w + 1, a);
    }
  }

  lemma {:induction false} ExactColumns(kids: seq<Tree>, parentCount: int)
    requires parentCount != 0
    ensures Columns(kids, parentCount, Abs(parentCount)) == Weight(kids, parentCount)
    ensures SumWidths(kids, parentCount, Abs(parentCount)) <= Weight(kids, parentCount)
    ensures SumWidths(kids, parentCount, Abs(parentCount)) == Weight(kids, parentCount) ==>
      NoneOpposed(kids, parentCount)
  {
    if kids != [] {
      var init, last := kids[..|kids| - 1], kids[|kids| - 1];
      ExactColumns(init, parentCount);
      ExactWidth(last.count, parentCount);
      assert kids == init + [last];
    }
  }

  /** The row ends where its columns end. */
  predicate EndsAt(row: seq<Frame>, left: int) {
    row != [] ==> row[|row| - 1].x == left
  }

  /** The next frame of a row with exact widths stands in order and inside only if no share before it is against the
      sign. */
  lemma {:induction false} CellOnlyIfFits(p: Frame, init: seq<Tree>, before: seq<Frame>, c: Frame)
    requires p.count != 0 && p.width == Abs(p.count)
    requires EndsAt(before, p.x + p.width - Weight(init, p.count)) && (before == [] ==> Weight(init, p.count) == 0)
    requires c.x + c.width == p.x + p.width - SumWidths(init, p.count, p.width)
    requires Inside(c, p) && (before != [] ==> LeftOf(c, before[|before| - 1]))
    ensures NoneOpposed(init, p.count) && c.x + c.width == p.x + p.width - Weight(init, p.count)
  {
    ExactColumns(init, p.count);
  }

  /** A row with exact widths that is in order and inside its parent comes from children that fit there. */
  lemma {:induction false} PlacedOnlyIfFits(p: Frame, cf: Tree, kids: seq<Tree>, on: Settings)
    requires forall c <- kids :: c in cf.frames
    requires p.count != 0 && p.width == Abs(p.count)
    requires var row := Placed(p, cf, kids, p.width, on); RightToLeft(row) && forall c <- row :: Inside(c, p)
    ensures OpposedLast(kids, p.count) && Weight(kids, p.count) <= p.width
    ensures var row := Placed(p, cf, kids, p.width, on);
      EndsAt(row, p.x + p.width - Weight(kids, p.count)) && (row == [] ==> Weight(kids, p.count) == 0)
    decreases |kids|
  {
    hide CalculateWidth, FitString, Layout, SumWidths, RightToLeft, Inside;
    if kids != [] {
      var init, last := kids[..|kids| - 1], kids[|kids| - 1];
      var before, row := Placed(p, cf, init, p.width, on), Placed(p, cf, kids, p.width, on);
      var cell := Cell(p, kids, p.width, on);
      assert last in cf.frames;
      EarlierInRow(p, row, |before|);
      PlacedOnlyIfFits(p, cf, init, on);
      ExactWidth(last.count, p.count);
      if cell.width > 0 {
        LayoutKeepsFields(cell, last, on);
        LastInRow(p, row);
        CellOnlyIfFits(p, init, before, row[|before|]);
      }
    }
  }

  lemma {:induction false} EarlierInRow(p: Frame, row: seq<Frame>, n: nat)
    requires RightToLeft(row) && (forall c <- row :: Inside(c, p)) && n <= |row|
    ensures RightToLeft(row[..n]) && forall c <- row[..n] :: Inside(c, p)
  {
  }

  lemma {:induction false} LastInRow(p: Frame, row: seq<Frame>)
    requires RightToLeft(row) && (forall c <- row :: Inside(c, p)) && row != []
    ensures Inside(row[|row| - 1], p) && (|row| > 1 ==> LeftOf(row[|row| - 1], row[|row| - 2]))
  {
  }

  /** A row that does not fit is misplaced at as many columns as the parent counts. */
  lemma {:induction false} RowMisfit(p: Frame, cf: Tree, on: Settings)
    requires p.count == cf.count != 0 && p.width == Abs(cf.count) && p.frames == [] && !RowFits(cf)
    ensures !WellPlaced(Layout(p, cf, on))
  {
    hide CalculateWidth, FitString, SumWidths, MinWidth, Weight, OpposedLast, Small, Placed, WellPlaced,
         SortDescending, HasCombined, PlusFrame;
    if cf.frames == [] {
      NoKids(cf.count);
    } else {
      SortedAreFrames(cf.frames);
      var kids := SortDescending(cf.frames);
      SharesAllColumns(p, cf, on);
      if WellPlaced(Layout(p, cf, on)) {
        FirstOfRow(Layout(p, cf, on), p, Placed(p, cf, kids, p.width, on));
        PlacedOnlyIfFits(p, cf, kids, on);
      }
    }
  }

  /** The first frames of a well-placed row. */
  lemma {:induction false} FirstOfRow(q: Frame, p: Frame, row: seq<Frame>)
    requires WellPlaced(q) && row <= q.frames && q.x == p.x && q.width == p.width
    ensures RightToLeft(row) && forall c <- row :: Inside(c, p)
  {
    forall c | c in row
      ensures Inside(c, p) && c.width >= 1
    {
      assert c in q.frames;
    }
  }

  lemma {:induction false} NoKids(parentCount: int)
    ensures OpposedLast(SortDescending([]), parentCount) && Weight(SortDescending([]), parentCount) == 0
  {
  }

  lemma {:induction false} SharesAllColumns(p: Frame, cf: Tree, on: Settings)
    requires p.count == cf.count != 0 && p.width == Abs(cf.count) && cf.frames != [] && !RowFits(cf)
    ensures Avail(p, cf, on) == p.width
  {
    hide MinWidth, CalculateWidth;
    if HasCombined(p, cf, on) {
      PlusNoneOpposed(p, cf, on);
      SortedAreFrames(cf.frames);
      var kids := SortDescending(cf.frames);
      AllInColumns(kids, p.count, p.width);
      ExactColumns(kids, p.count);
      SortSums(cf.frames, p.count, p.width);
    }
  }

  // ---------------------------------------------------------------- a child reaches every width

  lemma {:induction false} OneOfMany(kids: seq<Tree>, parentCount: int, avail: int, c: Tree)
    requires c in kids
    ensures Positive(Along(parentCount, c.count)) <= Weight(kids, parentCount)
    ensures Positive(CalculateWidth(c.count, parentCount, avail)) <= Columns(kids, parentCount, avail)
  {
    var init, last := kids[..|kids| - 1], kids[|kids| - 1];
    assert kids == init + [last];
    if c != last {
      OneOfMany(init, parentCount, avail, c);
    }
  }

  /** What one child loses by rounding is missing in the sum. */
  lemma {:induction false} ColumnsSlack(kids: seq<Tree>, parentCount: int, avail: int, c: Tree)
    requires parentCount != 0 && avail >= 0 && c in kids
    ensures Abs(parentCount) * Columns(kids, parentCount, avail) + Positive(Along(parentCount, c.count)) * avail
         <= Weight(kids, parentCount) * avail + Abs(parentCount) * Positive(CalculateWidth(c.count, parentCount, avail))
  {
    hide CalculateWidth, Abs, Along, Positive;
    var init, last := kids[..|kids| - 1], kids[|kids| - 1];
    assert kids == init + [last];
    Distributes(Abs(parentCount), Columns(init, parentCount, avail),
                Positive(CalculateWidth(last.count, parentCount, avail)));
    Distributes(avail, Weight(init, parentCount), Positive(Along(parentCount, last.count)));
    if c == last {
      ColumnsBound(init, parentCount, avail);
    } else {
      ColumnsSlack(init, parentCount, avail, c);
      ShareOfPositive(last.count, parentCount, avail);
    }
  }

  /** When the children fill all columns, none of their shares is rounded. */
  lemma {:induction false} FullIsExact(kids: seq<Tree>, parentCount: int, avail: int, c: Tree)
    requires parentCount != 0 && avail >= 0 && c in kids
    requires Weight(kids, parentCount) <= Abs(parentCount) && Columns(kids, parentCount, avail) == avail
    requires Along(parentCount, c.count) >= 0
    ensures Abs(parentCount) * CalculateWidth(c.count, parentCount, avail) == Along(parentCount, c.count) * avail
  {
    hide CalculateWidth, Columns, Weight, Abs, Along;
    ColumnsSlack(kids, parentCount, avail, c);
    Scaled(avail, Weight(kids, parentCount), Abs(parentCount));
    ShareSign(c.count, parentCount, avail);
    ExactShare(c.count, parentCount, avail);
  }

  /** The frame of a call frame at some width. */
  function Of(cf: Tree, width: int): Frame {
    Frame(0, 0, cf.count, width, "", Call(cf), [], [])
  }

  /** The width that child `c` gets at that width of its parent. */
  function Given(cf: Tree, c: Tree, width: int, on: Settings): int {
    CalculateWidth(c.count, cf.count, Avail(Of(cf, width), cf, on))
  }

  predicate GrowingKid(cf: Tree, c: Tree) {
    cf.count != 0 && RowFits(cf) && c in cf.frames && Along(cf.count, c.count) > 0
  }

  lemma {:induction false} KidsShare(cf: Tree, c: Tree)
    requires GrowingKid(cf, c)
    ensures c in SortDescending(cf.frames) && 0 < Along(cf.count, c.count) <= Abs(cf.count)
  {
    assert c in multiset(SortDescending(cf.frames));
    OneOfMany(SortDescending(cf.frames), cf.count, 0, c);
  }

  /** One column kept back: the children would fill the width exactly. */
  lemma {:induction false} KeptBackIsExact(cf: Tree, c: Tree, width: int, on: Settings)
    requires cf.count != 0 && RowFits(cf) && c in cf.frames && width >= 1 && Avail(Of(cf, width), cf, on) != width
    ensures HasCombined(Of(cf, width), cf, on) && Avail(Of(cf, width), cf, on) == width - 1
    ensures Along(cf.count, c.count) >= 0
    ensures Abs(cf.count) * CalculateWidth(c.count, cf.count, width) == Along(cf.count, c.count) * width
  {
    hide MinWidth, CalculateWidth, SumWidths, Weight, OpposedLast;
    var kids := SortDescending(cf.frames);
    PlusNoneOpposed(Of(cf, width), cf, on);
    SortedAreFrames(cf.frames);
    AllInColumns(kids, cf.count, width);
    SortSums(cf.frames, cf.count, width);
    assert c in multiset(kids);
    FullIsExact(kids, cf.count, width, c);
  }

  /** A child that weighs as much as its parent leaves the same column for '+' at the next width. */
  lemma {:induction false} StillKeptBack(cf: Tree, c: Tree, width: int, on: Settings)
    requires GrowingKid(cf, c) && width >= 1 && Avail(Of(cf, width), cf, on) != width
    requires Along(cf.count, c.count) == Abs(cf.count)
    ensures Avail(Of(cf, width + 1), cf, on) == width
  {
    hide MinWidth, CalculateWidth, SumWidths, Weight, OpposedLast, Columns;
    var kids, next := SortDescending(cf.frames), width + 1;
    KidsShare(cf, c);
    KeptBackIsExact(cf, c, width, on);
    PlusNoneOpposed(Of(cf, width), cf, on);
    var d :| d in cf.frames && CalculateWidth(d.count, cf.count, width) == 0;
    ZeroStaysZero(cf, d, width, on);
    MinIsZero(cf, d, next);
    SortedAreFrames(cf.frames);
    AllInColumns(kids, cf.count, next);
    WidthsFit(kids, cf.count, next);
    OneOfMany(kids, cf.count, next, c);
    WholeShare(c.count, cf.count, next);
    SortSums(cf.frames, cf.count, next);
  }

  lemma {:induction false} ZeroStaysZero(cf: Tree, d: Tree, width: int, on: Settings)
    requires cf.count != 0 && RowFits(cf) && d in cf.frames && width >= 1 && Avail(Of(cf, width), cf, on) != width
    requires CalculateWidth(d.count, cf.count, width) == 0
    ensures CalculateWidth(d.count, cf.count, width + 1) == 0
  {
    KeptBackIsExact(cf, d, width, on);
    if Along(cf.count, d.count) > 0 {
      ScaleUp(width, 0, Along(cf.count, d.count));
    }
    ShareSign(d.count, cf.count, width + 1);
  }

  lemma {:induction false} MinIsZero(cf: Tree, d: Tree, width: int)
    requires d in cf.frames && CalculateWidth(d.count, cf.count, width) == 0
    requires cf.count != 0 && width >= 0 && NoneOpposed(cf.frames, cf.count)
    ensures MinWidth(cf.frames, cf.count, width) == 0
  {
    MinIsReached(cf.frames, cf.count, width);
    var c :| c in cf.frames && CalculateWidth(c.count, cf.count, width) == MinWidth(cf.frames, cf.count, width);
    ShareSign(c.count, cf.count, width);
  }

  lemma {:induction false} WholeShare(count: int, parentCount: int, avail: int)
    requires parentCount != 0 && Along(parentCount, count) == Abs(parentCount)
    ensures CalculateWidth(count, parentCount, avail) == avail
  {
    var m, w := Abs(parentCount), CalculateWidth(count, parentCount, avail);
    ExactShare(count, parentCount, avail);
    CancelFactor(m, w, avail);
    if w < avail {
      Scaled(m, w + 1, avail);
    }
  }

  /** One more column for the parent is at most one more for the child. */
  lemma {:induction false} StepsByOne(cf: Tree, c: Tree, width: int, on: Settings)
    requires GrowingKid(cf, c) && width >= 1
    ensures Given(cf, c, width + 1, on) <= Given(cf, c, width, on) + 1
  {
    hide CalculateWidth, RowFits, Avail, HasCombined, Along;
    var m, a := Abs(cf.count), Along(cf.count, c.count);
    var now, next := Given(cf, c, width, on), Given(cf, c, width + 1, on);
    KidsShare(cf, c);
    var avail, avail2 := Avail(Of(cf, width), cf, on), Avail(Of(cf, width + 1), cf, on);
    AvailIs(cf, width, on);
    AvailIs(cf, width + 1, on);
    ExactShare(c.count, cf.count, avail);
    ExactShare(c.count, cf.count, avail2);
    if avail == width {
      StepArithmetic(m, a, avail, avail2, now, next);
    } else {
      var g := CalculateWidth(c.count, cf.count, width);
      KeptBackIsExact(cf, c, width, on);
      if a == m {
        StillKeptBack(cf, c, width, on);
        WholeShare(c.count, cf.count, width);
        WholeShare(c.count, cf.count, width - 1);
      } else {
        ExactStep(m, a, width, avail2, now, g, next);
      }
    }
  }

  lemma {:induction false} AvailIs(cf: Tree, width: int, on: Settings)
    ensures width - 1 <= Avail(Of(cf, width), cf, on) <= width
  {
  }

  lemma {:induction false} StepArithmetic(m: int, a: int, x: int, y: int, now: int, next: int)
    requires 0 < a <= m && y <= x + 1 && a * x < m * (now + 1) && m * next <= a * y
    ensures next <= now + 1
  {
    Scaled(a, y, x + 1);
    Distributes(a, x, 1);
    Distributes(m, now + 1, 1);
    if next >= now + 2 {
      Scaled(m, now + 2, next);
    }
  }

  lemma {:induction false} ExactStep(m: int, a: int, x: int, y: int, now: int, g: int, next: int)
    requires 0 < a < m && y <= x + 1 && m * g == a * x && a * (x - 1) < m * (now + 1) && m * next <= a * y
    ensures next <= now + 1
  {
    Scaled(a, y, x + 1);
    Distributes(a, x, 1);
    Distributes(a, x, -1);
    Distributes(m, g, 1);
    Distributes(m, g, -1);
    if next >= g + 1 {
      Scaled(m, g + 1, next);
    }
    if now + 1 <= g - 1 {
      Scaled(m, now + 1, g - 1);
    }
  }

  /** A child that grows with its parent is given every width by some width of the parent. */
  lemma {:induction false} EveryWidthGiven(cf: Tree, c: Tree, target: nat, width: nat, on: Settings) returns (w: nat)
    requires GrowingKid(cf, c) && target >= 1 && width >= 1 && Given(cf, c, width, on) >= target
    ensures w >= 1 && Given(cf, c, w, on) == target
    decreases width
  {
    hide Given, RowFits;
    if Given(cf, c, width, on) == target {
      w := width;
    } else if width == 1 {
      OneColumn(cf, c, on);
      assert false;
    } else {
      StepsByOne(cf, c, width - 1, on);
      w := EveryWidthGiven(cf, c, target, width - 1, on);
    }
  }

  lemma {:induction false} OneColumn(cf: Tree, c: Tree, on: Settings)
    requires GrowingKid(cf, c)
    ensures Given(cf, c, 1, on) <= 1
  {
    hide CalculateWidth, RowFits, Avail, HasCombined, Along;
    KidsShare(cf, c);
    AvailIs(cf, 1, on);
    var m, a, avail := Abs(cf.count), Along(cf.count, c.count), Avail(Of(cf, 1), cf, on);
    ExactShare(c.count, cf.count, avail);
    Scaled(a, avail, 1);
    CancelFactor(m, Given(cf, c, 1, on), 1);
  }

  lemma {:induction false} WideEnough(cf: Tree, c: Tree, target: nat, on: Settings) returns (w: nat)
    requires GrowingKid(cf, c)
    ensures w >= 1 && Given(cf, c, w, on) >= target
  {
    hide CalculateWidth, RowFits, Avail, HasCombined, Along;
    KidsShare(cf, c);
    var m, a := Abs(cf.count), Along(cf.count, c.count);
    w := target * m + 1;
    AvailIs(cf, w, on);
    var avail := Avail(Of(cf, w), cf, on);
    ExactShare(c.count, cf.count, avail);
    Scaled(avail, 1, a);
    if Given(cf, c, w, on) + 1 <= target {
      Scaled(m, Given(cf, c, w, on) + 1, target);
    }
  }

  // ---------------------------------------------------------------- the condition is exact

  /** The laid-out frame of a child that got columns. */
  lemma {:induction false} PlacedKid(p: Frame, cf: Tree, kids: seq<Tree>, avail: int, on: Settings, c: Tree)
    returns (cell: Frame)
    requires (forall d <- kids :: d in cf.frames) && c in kids && CalculateWidth(c.count, p.count, avail) > 0
    ensures cell.width == CalculateWidth(c.count, p.count, avail) && cell.count == c.count
    ensures cell.source == Call(c) && cell.frames == [] && Layout(cell, c, on) in Placed(p, cf, kids, avail, on)
    decreases |kids|
  {
    hide CalculateWidth, FitString, Layout, SumWidths;
    var init, last := kids[..|kids| - 1], kids[|kids| - 1];
    assert kids == init + [last] && last in cf.frames;
    if c == last {
      cell := Cell(p, kids, avail, on);
    } else {
      cell := PlacedKid(p, cf, init, avail, on, c);
    }
  }

  /** Frames of this width are misplaced. */
  ghost predicate MisplacedAt(cf: Tree, width: int, on: Settings) {
    forall p: Frame :: p.width == width && p.count == cf.count && p.frames == [] ==> !WellPlaced(Layout(p, cf, on))
  }

  lemma {:induction false} Misfit(cf: Tree, on: Settings) returns (w: nat)
    requires !Fits(cf)
    ensures w >= 1 && MisplacedAt(cf, w, on)
    decreases cf
  {
    hide WellPlaced, Layout, RowFits;
    if !RowFits(cf) {
      w := Abs(cf.count);
      forall p: Frame | p.width == w && p.count == cf.count && p.frames == []
        ensures !WellPlaced(Layout(p, cf, on))
      {
        RowMisfit(p, cf, on);
      }
    } else {
      var c :| c in cf.frames && Along(cf.count, c.count) > 0 && !Fits(c);
      var target := Misfit(c, on);
      var wide := WideEnough(cf, c, target, on);
      w := EveryWidthGiven(cf, c, target, wide, on);
      forall p: Frame | p.width == w && p.count == cf.count && p.frames == []
        ensures !WellPlaced(Layout(p, cf, on))
      {
        KidMisplaced(p, cf, c, on);
      }
    }
  }

  lemma {:induction false} KidMisplaced(p: Frame, cf: Tree, c: Tree, on: Settings)
    requires c in cf.frames && p.count == cf.count && p.frames == []
    requires Given(cf, c, p.width, on) >= 1 && MisplacedAt(c, Given(cf, c, p.width, on), on)
    ensures !WellPlaced(Layout(p, cf, on))
  {
    hide MinWidth, CalculateWidth, SumWidths, Placed, Small;
    SortedAreFrames(cf.frames);
    var kids := SortDescending(cf.frames);
    assert c in multiset(kids);
    var cell := PlacedKid(p, cf, kids, Avail(p, cf, on), on, c);
    assert Layout(cell, c, on) in Layout(p, cf, on).frames;
  }

  /** For either setting: the layout of a call tree is well placed at every width exactly when the tree fits. */
  lemma {:induction false} WellPlacedIff(cf: Tree, on: Settings)
    ensures (forall p: Frame :: p.width >= 1 && |p.text| == p.width && p.frames == [] && p.count == cf.count ==>
               WellPlaced(Layout(p, cf, on)))
        <==> Fits(cf)
  {
    hide WellPlaced, Layout, Fits;
    if Fits(cf) {
      forall p: Frame | p.width >= 1 && |p.text| == p.width && p.frames == [] && p.count == cf.count
        ensures WellPlaced(Layout(p, cf, on))
      {
        LayoutIsWellPlaced(p, cf, on);
      }
    } else {
      var w := Misfit(cf, on);
      var p := Of(cf, w).(text := Repeat(' ', w));
      assert !WellPlaced(Layout(p, cf, on));
    }
  }

  // ---------------------------------------------------------------- sample counts fit

  /** Sample counts: none negative, and children do not outweigh their parent. */
  predicate Measured(t: Tree) {
    && t.count >= 0 && SumCounts(t.frames) <= t.count
    && forall c <- t.frames :: Measured(c)
  }

  lemma {:induction false} WeightOfCounts(kids: seq<Tree>, parentCount: int)
    requires parentCount > 0 && forall c <- kids :: c.count >= 0
    ensures Weight(kids, parentCount) == SumCounts(kids)
  {
    if kids != [] {
      WeightOfCounts(kids[..|kids| - 1], parentCount);
    }
  }

  lemma {:induction false} MeasuredFits(t: Tree)
    requires Measured(t)
    ensures Fits(t)
  {
    if t.count > 0 {
      var kids := SortDescending(t.frames);
      SortedAreFrames(t.frames);
      forall c | c in t.frames
        ensures c.count >= 0 && Fits(c)
      {
        assert Measured(c);
        MeasuredFits(c);
      }
      WeightOfCounts(kids, t.count);
      SortSums(t.frames, t.count, 0);
    }
  }

  /** A tree built with non-negative counts can be laid out. */
  lemma {:induction false} BuiltIsMeasured(stacks: seq<Stack>)
    requires forall s <- stacks :: s.count >= 0
    ensures Measured(Build(stacks)) && Build(stacks).base == 0
  {
    if stacks != [] {
      var init, last := stacks[..|stacks| - 1], stacks[|stacks| - 1];
      assert last in stacks;
      BuiltIsMeasured(init);
      var t := Build(init);
      if last.path != [] {
        var child := ChildOrNew(t, last.path[0]);
        ChildMeasured(t, last.path[0]);
        AbsorbKeepsMeasured(child, last.path[1..], last.count);
        PutKeepsMeasured(t, Absorb(child, last.path[1..], last.count), last.count);
      }
    }
  }

  lemma {:induction false} ChildMeasured(t: Tree, name: string)
    requires Measured(t)
    ensures Measured(ChildOrNew(t, name))
  {
    if Find(t.frames, name) < |t.frames| {
      assert Measured(t.frames[Find(t.frames, name)]);
    }
  }

  lemma {:induction false} PutKeepsMeasured(t: Tree, c: Tree, n: int)
    requires Measured(t) && Measured(c) && n >= 0 && c.count == ChildOrNew(t, c.name).count + n
    ensures Measured(PutChild(t, c).(count := t.count + n))
  {
    SumAfterPut(t, c);
    var t' := PutChild(t, c);
    forall d | d in t'.frames
      ensures Measured(d)
    {
    }
  }

  lemma {:induction false} AbsorbKeepsMeasured(t: Tree, path: seq<string>, n: int)
    requires Measured(t) && n >= 0
    ensures Measured(Absorb(t, path, n))
    decreases |path|
  {
    if path != [] {
      var child := ChildOrNew(t, path[0]);
      ChildMeasured(t, path[0]);
      AbsorbKeepsMeasured(child, path[1..], n);
      PutKeepsMeasured(t, Absorb(child, path[1..], n), n);
      assert Absorb(t, path, n) == PutChild(t, Absorb(child, path[1..], n)).(count := t.count + n);
    }
  }

  // ---------------------------------------------------------------- negative counts, which the parser lets through

  lemma {:induction false} SortOne(a: Tree)
    ensures SortDescending([a]) == [a]
  {
    assert [a][..0] == [];
  }

  lemma {:induction false} SortTwo(a: Tree, b: Tree)
    requires NameLess(a.name, b.name)
    ensures SortDescending([a, b]) == [b, a]
  {
    hide NameLess;
    SortOne(a);
    assert [a, b][..1] == [a];
    assert [a][..0] == [];
  }

  lemma {:induction false} BuildOne(s: Stack)
    ensures Build([s]) == AddStack(EMPTY, s)
  {
    assert [s][..0] == [];
  }

  lemma {:induction false} BuildTwo(s: Stack, t: Stack)
    ensures Build([s, t]) == AddStack(Build([s]), t)
  {
    assert [s, t][..1] == [s];
  }

  /** A stack of one frame that the tree does not have yet. */
  lemma {:induction false} NewFrame(t: Tree, name: string, n: int)
    requires Find(t.frames, name) == |t.frames|
    ensures AddStack(t, Stack([name], n)) == t.(count := t.count + n, frames := t.frames + [Node(name, n, n, [])])
  {
    var head := t.(count := t.count + n);
    assert [name][1..] == [];
    assert Absorb(ChildOrNew(head, name), [], n) == Node(name, n, n, []);
  }

  /** 3 and -2 samples: one sample, of which no layout of one column is well placed. */
  lemma {:induction false} NegativeCountsOverflow(p: Frame, on: Settings)
    requires p.width == 1 && p.count == 1 && p.frames == []
    ensures var cf := Build([Stack(["a"], 3), Stack(["b"], -2)]);
      && cf == Node("all", 0, 1, [Node("a", 3, 3, []), Node("b", -2, -2, [])])
      && !Fits(cf) && !WellPlaced(Layout(p, cf, on))
  {
    hide Build, AddStack, Insert, SortDescending, WellPlaced, Layout, Weight;
    var a, b := Node("a", 3, 3, []), Node("b", -2, -2, []);
    BuildOne(Stack(["a"], 3));
    BuildTwo(Stack(["a"], 3), Stack(["b"], -2));
    NewFrame(EMPTY, "a", 3);
    NewFrame(Node("all", 0, 3, [a]), "b", -2);
    assert [] + [a] == [a] && [a] + [b] == [a, b];
    SortTwo(a, b);
    assert Along(1, [b, a][0].count) < 0 && Along(1, [b, a][1].count) > 0;
    RowMisfit(p, Node("all", 0, 1, [a, b]), on);
  }

  /** A stack one frame longer than the only one there is. */
  lemma {:induction false} SecondFrame(m: int, n: int)
    ensures AddStack(Node("all", 0, m, [Node("a", m, m, [])]), Stack(["a", "b"], n))
         == Node("all", 0, m + n, [Node("a", m, m + n, [Node("b", n, n, [])])])
  {
    var a := Node("a", m, m, []);
    assert ["a", "b"][1..] == ["b"] && ["b"][1..] == [];
    assert Absorb(a, ["b"], n) == Node("a", m, m + n, [Node("b", n, n, [])]);
    assert [a][0 := Absorb(a, ["b"], n)] == [Absorb(a, ["b"], n)];
  }

  lemma {:induction false} OneKidFits(name: string, base: int, count: int, c: Tree)
    requires count > 0 && c.count <= count && Fits(c)
    ensures Fits(Node(name, base, count, [c]))
  {
    SortOne(c);
    assert [c][..0] == [];
    assert Weight([c], count) <= count;
    var t := Node(name, base, count, [c]);
    assert RowFits(t);
  }

  /** Negative counts as such do no harm: here a frame of its own 3 samples has a child of -2. */
  lemma {:induction false} NegativeCountFits()
    ensures var cf := Build([Stack(["a"], 3), Stack(["a", "b"], -2)]);
      && cf == Node("all", 0, 1, [Node("a", 3, 1, [Node("b", -2, -2, [])])])
      && Fits(cf) && !Measured(cf)
  {
    hide Build, AddStack, Insert;
    var b := Node("b", -2, -2, []);
    var a := Node("a", 3, 1, [b]);
    BuildOne(Stack(["a"], 3));
    BuildTwo(Stack(["a"], 3), Stack(["a", "b"], -2));
    NewFrame(EMPTY, "a", 3);
    SecondFrame(3, -2);
    assert Fits(b) by {
      NoKids(-2);
      assert RowFits(b);
    }
    assert Node("all", 0, 3, [Node("a", 3, 3, [])]).frames == EMPTY.frames + [Node("a", 3, 3, [])];
    OneKidFits("a", 3, 1, b);
    OneKidFits("all", 0, 1, a);
    assert !Measured(b) && b in a.frames;
    assert !Measured(a) && a in Node("all", 0, 1, [a]).frames;
  }
}
