/** The rows of a flame graph, exactly (tfg/browser/visualtree.py): which children get which columns, when '+' comes and
    what it holds, and that no column is left between frames. */
module VisualExact {
  import opened CallTree
  import opened Text
  import opened VisualTree
  import opened VisualFits
  import opened VisualRows

  // ---------------------------------------------------------------- shares

  /** The child's part of `columns`, rounded down: count * columns / parentCount, 0 of a parent that counts nothing. */
  function Share(count: int, parentCount: int, columns: int): int {
    if parentCount == 0 then 0
    else if parentCount > 0 then (count * columns) / parentCount
    else (-count * columns) / (-parentCount)
  }

  function Shares(kids: seq<Tree>, parentCount: int, columns: int): int {
    if kids == [] then 0
    else Shares(kids[..|kids| - 1], parentCount, columns) + Share(kids[|kids| - 1].count, parentCount, columns)
  }

  /** '+' comes when the smallest share is 0: some child gets no column and none counts against its parent's sign. */
  predicate PlusComes(f: Frame, cf: Tree, on: Settings) {
    && on.withCombined
    && (exists c :: c in cf.frames && Share(c.count, f.count, f.width) == 0)
    && forall c <- cf.frames :: Share(c.count, f.count, f.width) >= 0
  }

  /** The columns shared out: all, or all but one when '+' comes and the shares would leave none for it. */
  function SharedOut(f: Frame, cf: Tree, on: Settings): int {
    if PlusComes(f, cf, on) && Shares(cf.frames, f.count, f.width) == f.width then f.width - 1 else f.width
  }

  /** One row: the children with a share of at least one column, each exactly that wide, in descending order of names;
      then, when it comes, '+' with the others. */
  predicate RowIs(f: Frame, cf: Tree, on: Settings) {
    var columns := SharedOut(f, cf, on);
    && (forall c <- f.frames :: c.source.Call? ==>
          c.source.cf in cf.frames && c.count == c.source.cf.count && c.width == Share(c.count, f.count, columns) > 0)
    && (forall k <- cf.frames :: Share(k.count, f.count, columns) > 0 ==>
          exists c :: c in f.frames && c.source == Call(k))
    && (PlusComes(f, cf, on) <==> exists c :: c in f.frames && c.source.Plus?)
    && (forall i :: 0 <= i < |f.frames| && f.frames[i].source.Plus? ==> i == |f.frames| - 1)
    && (forall c <- f.frames :: c.source.Plus? ==>
          && c.combined != []
          && (forall s <- c.combined :: s.source.Call? && s.source.cf in cf.frames && s.count == s.source.cf.count
                                        && s.width == 0 == Share(s.count, f.count, columns))
          && (forall k <- cf.frames :: Share(k.count, f.count, columns) == 0 ==>
                exists s :: s in c.combined && s.source == Call(k)))
  }

  /** In the whole subtree. */
  predicate RowsAre(f: Frame, on: Settings) {
    (f.source.Call? ==> RowIs(f, f.source.cf, on)) && forall c <- f.frames :: RowsAre(c, on)
  }

  lemma {:induction false} WidthIsShare(count: int, parentCount: int, columns: int)
    ensures CalculateWidth(count, parentCount, columns) == Share(count, parentCount, columns)
  {
    assert -count * columns == -(count * columns);
  }

  lemma {:induction false} SumIsShares(kids: seq<Tree>, parentCount: int, columns: int)
    ensures SumWidths(kids, parentCount, columns) == Shares(kids, parentCount, columns)
  {
    hide CalculateWidth, Share;
    if kids != [] {
      SumIsShares(kids[..|kids| - 1], parentCount, columns);
      WidthIsShare(kids[|kids| - 1].count, parentCount, columns);
    }
  }

  lemma {:induction false} PlusIs(f: Frame, cf: Tree, on: Settings)
    ensures HasCombined(f, cf, on) <==> PlusComes(f, cf, on)
    ensures Avail(f, cf, on) == SharedOut(f, cf, on)
  {
    hide CalculateWidth, Share, SumWidths, Shares, MinWidth;
    forall c | c in cf.frames
      ensures CalculateWidth(c.count, f.count, f.width) == Share(c.count, f.count, f.width)
    {
      WidthIsShare(c.count, f.count, f.width);
    }
    SumIsShares(cf.frames, f.count, f.width);
    if cf.frames != [] {
      MinIsReached(cf.frames, f.count, f.width);
    }
  }

  // ---------------------------------------------------------------- the row of a layout

  /** The placed prefix of a row. */
  predicate PlacedIs(row: seq<Frame>, kids: seq<Tree>, parentCount: int, columns: int) {
    && (forall c <- row :: c.source.Call? && c.source.cf in kids && c.count == c.source.cf.count
                           && c.width == Share(c.count, parentCount, columns) > 0)
    && (forall k <- kids :: Share(k.count, parentCount, columns) > 0 ==> exists c :: c in row && c.source == Call(k))
  }

  predicate SmallIs(row: seq<Frame>, kids: seq<Tree>, parentCount: int, columns: int) {
    && (forall c <- row :: c.source.Call? && c.source.cf in kids && c.count == c.source.cf.count
                           && c.width == Share(c.count, parentCount, columns) <= 0)
    && (forall k <- kids :: Share(k.count, parentCount, columns) <= 0 ==> exists c :: c in row && c.source == Call(k))
  }

  lemma {:induction false} PlacedMore(row: seq<Frame>, f: Frame, kids: seq<Tree>, parentCount: int, columns: int)
    requires kids != [] && PlacedIs(row, kids[..|kids| - 1], parentCount, columns)
    requires var last := kids[|kids| - 1];
      f.source == Call(last) && f.count == last.count && f.width == Share(last.count, parentCount, columns)
    ensures PlacedIs(if f.width > 0 then row + [f] else row, kids, parentCount, columns)
  {
    hide Share;
    var init, last := kids[..|kids| - 1], kids[|kids| - 1];
    assert kids == init + [last];
    var next := if f.width > 0 then row + [f] else row;
    forall k | k in kids && Share(k.count, parentCount, columns) > 0
      ensures exists c :: c in next && c.source == Call(k)
    {
      if k in init {
        var c :| c in row && c.source == Call(k);
        assert c in next;
      } else {
        assert f in next;
      }
    }
  }

  lemma {:induction false} SmallMore(row: seq<Frame>, f: Frame, kids: seq<Tree>, parentCount: int, columns: int)
    requires kids != [] && SmallIs(row, kids[..|kids| - 1], parentCount, columns)
    requires var last := kids[|kids| - 1];
      f.source == Call(last) && f.count == last.count && f.width == Share(last.count, parentCount, columns)
    ensures SmallIs(if f.width > 0 then row else row + [f], kids, parentCount, columns)
  {
    hide Share;
    var init, last := kids[..|kids| - 1], kids[|kids| - 1];
    assert kids == init + [last];
    var next := if f.width > 0 then row else row + [f];
    forall k | k in kids && Share(k.count, parentCount, columns) <= 0
      ensures exists c :: c in next && c.source == Call(k)
    {
      if k in init {
        var c :| c in row && c.source == Call(k);
        assert c in next;
      } else {
        assert f in next;
      }
    }
  }

  lemma {:induction false} CellFields(p: Frame, kids: seq<Tree>, avail: int, on: Settings)
    requires kids != []
    ensures var cell, last := Cell(p, kids, avail, on), kids[|kids| - 1];
      cell.source == Call(last) && cell.count == last.count && cell.width == Share(last.count, p.count, avail)
      && cell.frames == [] && cell.combined == []
  {
    WidthIsShare(kids[|kids| - 1].count, p.count, avail);
  }

  lemma {:induction false} PlacedRow(p: Frame, cf: Tree, kids: seq<Tree>, avail: int, on: Settings)
    requires forall c <- kids :: c in cf.frames
    ensures PlacedIs(Placed(p, cf, kids, avail, on), kids, p.count, avail)
    ensures SmallIs(Small(p, kids, avail, on), kids, p.count, avail)
    decreases |kids|
  {
    hide Cell, Share, Layout, PlacedIs, SmallIs;
    if kids == [] {
      EmptyIs(p.count, avail);
    } else {
      var init, last := kids[..|kids| - 1], kids[|kids| - 1];
      var cell := Cell(p, kids, avail, on);
      assert last in cf.frames;
      PlacedRow(p, cf, init, avail, on);
      CellFields(p, kids, avail, on);
      LayoutKeepsFields(cell, last, on);
      PlacedMore(Placed(p, cf, init, avail, on), Layout(cell, last, on), kids, p.count, avail);
      SmallMore(Small(p, init, avail, on), cell, kids, p.count, avail);
    }
  }

  lemma {:induction false} EmptyIs(parentCount: int, columns: int)
    ensures PlacedIs([], [], parentCount, columns) && SmallIs([], [], parentCount, columns)
  {
  }

  /** Put together. */
  lemma {:induction false} RowTogether(p: Frame, cf: Tree, kids: seq<Tree>, row: seq<Frame>, plus: Frame, on: Settings)
    requires multiset(kids) == multiset(cf.frames)
    requires PlacedIs(row, kids, p.count, SharedOut(p, cf, on))
    requires plus.source.Plus? && SmallIs(plus.combined, kids, p.count, SharedOut(p, cf, on))
    requires PlusComes(p, cf, on) ==>
      plus.combined != [] && forall k <- cf.frames :: Share(k.count, p.count, SharedOut(p, cf, on)) >= 0
    ensures RowIs(p.(frames := row + (if PlusComes(p, cf, on) then [plus] else [])), cf, on)
  {
    hide Share, Shares;
    var q := p.(frames := row + (if PlusComes(p, cf, on) then [plus] else []));
    assert PlusComes(q, cf, on) == PlusComes(p, cf, on) && SharedOut(q, cf, on) == SharedOut(p, cf, on);
    forall k
      ensures k in kids <==> k in cf.frames
    {
      assert k in multiset(kids) <==> k in multiset(cf.frames);
    }
    if PlusComes(p, cf, on) {
      assert q.frames[|q.frames| - 1] == plus;
    }
  }

  /** A share is never negative of fewer columns if it is not of more; a share of 0 stays 0. */
  lemma {:induction false} ShareOfFewer(count: int, parentCount: int, columns: int)
    requires columns >= 1 && Share(count, parentCount, columns) >= 0
    ensures Share(count, parentCount, columns - 1) >= 0
    ensures Share(count, parentCount, columns) == 0 ==> Share(count, parentCount, columns - 1) == 0
  {
    hide Share;
    WidthIsShare(count, parentCount, columns);
    WidthIsShare(count, parentCount, columns - 1);
    if parentCount == 0 {
      NoShare(count, columns);
    } else {
      ShareSign(count, parentCount, columns);
      ShareSign(count, parentCount, columns - 1);
      FewerColumns(count, parentCount, columns);
    }
  }

  lemma {:induction false} NoShare(count: int, columns: int)
    ensures Share(count, 0, columns) == 0 == Share(count, 0, columns - 1)
  {
  }

  lemma {:induction false} FewerColumns(count: int, parentCount: int, columns: int)
    requires parentCount != 0 && Along(parentCount, count) >= 0
    ensures CalculateWidth(count, parentCount, columns - 1) <= CalculateWidth(count, parentCount, columns)
  {
    hide CalculateWidth;
    var m, a := Abs(parentCount), Along(parentCount, count);
    var w, v := CalculateWidth(count, parentCount, columns), CalculateWidth(count, parentCount, columns - 1);
    ExactShare(count, parentCount, columns);
    ExactShare(count, parentCount, columns - 1);
    Scaled(a, columns - 1, columns);
    if v >= w + 1 {
      Scaled(m, w + 1, v);
    }
  }

  /** Every row of every layout, counts of any sign. */
  lemma {:induction false} LayoutRows(p: Frame, cf: Tree, on: Settings)
    requires p.width >= 1 && p.frames == [] && p.source == Call(cf)
    ensures RowsAre(Layout(p, cf, on), on)
    decreases cf, 1
  {
    hide Placed, Small, Share, Shares, RowIs, PlacedIs, SmallIs, CalculateWidth, HasCombined, Avail, MinWidth;
    if cf.frames == [] {
      NoRow(p, cf, on);
    } else {
      var kids, avail := SortDescending(cf.frames), Avail(p, cf, on);
      SortedAreFrames(cf.frames);
      PlusIs(p, cf, on);
      var row, plus := Placed(p, cf, kids, avail, on), PlusFrame(p, kids, avail, on);
      PlacedRow(p, cf, kids, avail, on);
      if PlusComes(p, cf, on) {
        PlusHolds(p, cf, kids, Small(p, kids, avail, on), on);
      }
      RowTogether(p, cf, kids, row, plus, on);
      PlacedRows(p, cf, kids, avail, on);
    }
  }

  lemma {:induction false} NoRow(p: Frame, cf: Tree, on: Settings)
    requires cf.frames == [] && p.frames == []
    ensures RowIs(p, cf, on)
  {
  }

  lemma {:induction false} PlusHolds(p: Frame, cf: Tree, kids: seq<Tree>, small: seq<Frame>, on: Settings)
    requires p.width >= 1 && PlusComes(p, cf, on) && multiset(kids) == multiset(cf.frames)
    requires SmallIs(small, kids, p.count, SharedOut(p, cf, on))
    ensures small != [] && forall k <- cf.frames :: Share(k.count, p.count, SharedOut(p, cf, on)) >= 0
  {
    hide Share, Shares;
    forall k | k in cf.frames
      ensures Share(k.count, p.count, SharedOut(p, cf, on)) >= 0
      ensures Share(k.count, p.count, p.width) == 0 ==> Share(k.count, p.count, SharedOut(p, cf, on)) == 0
    {
      ShareOfFewer(k.count, p.count, p.width);
    }
    var c :| c in cf.frames && Share(c.count, p.count, p.width) == 0;
    assert c in multiset(kids);
  }

  lemma {:induction false} PlacedRows(p: Frame, cf: Tree, kids: seq<Tree>, avail: int, on: Settings)
    requires forall c <- kids :: c in cf.frames
    ensures forall c <- Placed(p, cf, kids, avail, on) :: RowsAre(c, on)
    decreases cf, 0, |kids|
  {
    hide Cell, Layout, RowIs;
    if kids != [] {
      var init, last := kids[..|kids| - 1], kids[|kids| - 1];
      var cell := Cell(p, kids, avail, on);
      assert last in kids && last in cf.frames;
      PlacedRows(p, cf, init, avail, on);
      CellFields(p, kids, avail, on);
      if cell.width > 0 {
        LayoutRows(cell, last, on);
      }
    }
  }

  // ---------------------------------------------------------------- no gaps

  /** Where the next frame of a row ends. */
  function EdgeAt(p: Frame, row: seq<Frame>, i: nat): int
    requires i <= |row|
  {
    if i == 0 then p.x + p.width else row[i - 1].x
  }

  /** Each frame ends where the one before it begins, the first at its parent's right edge. */
  predicate NoGaps(p: Frame, row: seq<Frame>) {
    forall i :: 0 <= i < |row| ==> row[i].x + row[i].width == EdgeAt(p, row, i)
  }

  /** In the whole subtree. */
  predicate Packed(p: Frame) {
    NoGaps(p, p.frames) && forall c <- p.frames :: Packed(c)
  }

  lemma {:induction false} GaplessMore(p: Frame, row: seq<Frame>, c: Frame)
    requires NoGaps(p, row) && c.x + c.width == EdgeAt(p, row, |row|)
    ensures NoGaps(p, row + [c]) && EdgeAt(p, row + [c], |row| + 1) == c.x
  {
    forall i | 0 <= i < |row + [c]|
      ensures (row + [c])[i].x + (row + [c])[i].width == EdgeAt(p, row + [c], i)
    {
      assert i < |row| ==> row[i].x + row[i].width == EdgeAt(p, row, i);
    }
  }

  lemma {:induction false} PlacedPacked(p: Frame, cf: Tree, kids: seq<Tree>, avail: int, on: Settings)
    requires forall c <- kids :: c in cf.frames
    requires p.count != 0 && avail >= 0 && KidsFit(kids, p.count) && OpposedLast(kids, p.count)
    ensures var row := Placed(p, cf, kids, avail, on);
      && NoGaps(p, row) && EdgeAt(p, row, |row|) == p.x + p.width - Columns(kids, p.count, avail)
      && forall c <- row :: Packed(c)
    decreases cf, 0, |kids|
  {
    hide Fits, CalculateWidth, FitString, Packed, NoGaps, Layout, SumWidths;
    if kids == [] {
      NothingPacked(p);
    } else {
      var init, last := kids[..|kids| - 1], kids[|kids| - 1];
      var cell := Cell(p, kids, avail, on);
      assert last in kids && last in cf.frames && KidsFit(init, p.count) && OpposedLast(init, p.count);
      PlacedPacked(p, cf, init, avail, on);
      ShareSign(last.count, p.count, avail);
      if cell.width > 0 {
        NoneOpposedBefore(kids, p.count);
        AllInColumns(init, p.count, avail);
        LayoutIsPacked(cell, last, on);
        LayoutKeepsFields(cell, last, on);
        GaplessMore(p, Placed(p, cf, init, avail, on), Layout(cell, last, on));
      }
    }
  }

  lemma {:induction false} NothingPacked(p: Frame)
    ensures NoGaps(p, []) && EdgeAt(p, [], 0) == p.x + p.width
  {
  }

  /** In the layout of a tree that fits, at every width, no column is left between frames: every row starts at its
      parent's right edge and goes on without gaps, '+' included. */
  lemma {:induction false} LayoutIsPacked(p: Frame, cf: Tree, on: Settings)
    requires p.width >= 1 && p.frames == [] && p.count == cf.count && Fits(cf)
    ensures Packed(Layout(p, cf, on))
    decreases cf, 1
  {
    hide FitString, CalculateWidth, MinWidth, SumWidths, Placed, Small, Weight, Columns, OpposedLast, NoGaps;
    NothingPacked(p);
    if cf.frames != [] {
      var kids, avail, has := SortDescending(cf.frames), Avail(p, cf, on), HasCombined(p, cf, on);
      SortedAreFrames(cf.frames);
      var row, plus := Placed(p, cf, kids, avail, on), PlusFrame(p, kids, avail, on);
      if cf.count == 0 {
        NothingPlaced(p, cf, kids, avail, on);
      } else {
        PlacedPacked(p, cf, kids, avail, on);
        if has {
          ColumnLeftForPlus(p, cf, on);
        }
      }
      if has {
        GaplessMore(p, row, plus);
      }
      PackedRow(p, row, plus, has);
    }
  }

  lemma {:induction false} PackedRow(p: Frame, row: seq<Frame>, plus: Frame, has: bool)
    requires NoGaps(p, row) && (forall c <- row :: Packed(c)) && plus.frames == []
    requires has ==> NoGaps(p, row + [plus])
    ensures Packed(p.(frames := row + (if has then [plus] else [])))
  {
    hide Packed, NoGaps;
    var q := p.(frames := row + (if has then [plus] else []));
    assert row + [] == row;
    SameEdges(p, q, q.frames);
    AlonePacked(plus);
    PackedOf(q);
  }

  lemma {:induction false} SameEdges(p: Frame, q: Frame, row: seq<Frame>)
    requires NoGaps(p, row) && q.x == p.x && q.width == p.width
    ensures NoGaps(q, row)
  {
    forall i | 0 <= i < |row|
      ensures row[i].x + row[i].width == EdgeAt(q, row, i)
    {
      assert EdgeAt(q, row, i) == EdgeAt(p, row, i);
    }
  }

  lemma {:induction false} AlonePacked(p: Frame)
    requires p.frames == []
    ensures Packed(p)
  {
  }

  lemma {:induction false} PackedOf(p: Frame)
    requires NoGaps(p, p.frames) && forall c <- p.frames :: Packed(c)
    ensures Packed(p)
  {
    hide NoGaps;
  }

  // ---------------------------------------------------------------- the zoom target

  lemma {:induction false} StartPlace(p: Frame, chain: seq<Link>, on: Settings)
    requires p.frames == [] && ChainFrom(chain, p.y)
    ensures var cell := StartCell(p, chain, on); cell.x == p.x && cell.y == p.y + |chain| && cell.frames == []
    decreases |chain|
  {
    if chain != [] {
      RestOfChain(chain, p.y);
      StartPlace(ZoomCell(p, chain[0], on), chain[1..], on);
    }
  }

  /** The zoom target covers the whole width in its old row; its rows are laid out exactly, and without gaps if it
      fits. */
  lemma {:induction false} StartRows(tree: Tree, x: int, width: int, chain: seq<Link>, on: Settings)
    requires width >= 1 && ChainFrom(chain, 0)
    ensures var start, target := StartLayout(tree, x, width, chain, on), Target(tree, chain);
      && start.x == x && start.width == width && start.y == |chain|
      && start.count == target.count && start.source == Call(target)
      && RowsAre(start, on) && (Fits(target) ==> Packed(start))
  {
    hide Layout, FitString, StartCell, RowsAre, Packed, Fits, ChainFrom;
    var head, target := Head(tree, x, width, on), Target(tree, chain);
    FitStringFits(tree.name, width, on.filler);
    StartCellIs(head, chain, on);
    StartPlace(head, chain, on);
    var cell := StartCell(head, chain, on);
    LayoutKeepsFields(cell, target, on);
    LayoutRows(cell, target, on);
    if Fits(target) {
      LayoutIsPacked(cell, target, on);
    }
  }
}
