/** What the layout of tfg/browser/visualtree.py shows of a call tree: when every call frame is there once, as a frame
    or under '+'. */
module VisualConserves {
  import opened CallTree
  import opened Text
  import opened VisualTree
  import opened VisualFits

  // ---------------------------------------------------------------- no sample is lost

  function Calls(kids: seq<Tree>): multiset<Source> {
    if kids == [] then multiset{} else Calls(kids[..|kids| - 1]) + multiset{Call(kids[|kids| - 1])}
  }

  /** The call frames a row stands for, those inside '+' included. */
  function Shown(row: seq<Frame>): multiset<Source> {
    if row == [] then multiset{} else Shown(row[..|row| - 1]) + ShownBy(row[|row| - 1])
  }

  function ShownBy(f: Frame): multiset<Source> {
    if f.source.Plus? then Sources(f.combined) else multiset{f.source}
  }

  function Sources(row: seq<Frame>): multiset<Source> {
    if row == [] then multiset{} else Sources(row[..|row| - 1]) + multiset{row[|row| - 1].source}
  }

  /** Below a frame: every child call frame appears exactly once, as a frame or inside '+', and the shown
      counts add up to the children's. */
  predicate Conserves(f: Frame) {
    && (f.source.Call? ==> Shown(f.frames) == Calls(f.source.cf.frames))
    && (f.source.Call? ==> FrameCounts(f.frames) == SumCounts(f.source.cf.frames))
    && forall c <- f.frames :: Conserves(c)
  }

  lemma {:induction false} ShownSnoc(row: seq<Frame>, f: Frame)
    ensures Shown(row + [f]) == Shown(row) + ShownBy(f)
    ensures FrameCounts(row + [f]) == FrameCounts(row) + f.count
    ensures Sources(row + [f]) == Sources(row) + multiset{f.source}
  {
    assert (row + [f])[..|row|] == row;
  }

  /** One more child, placed or small. */
  lemma {:induction false} OneMore(placed: seq<Frame>, small: seq<Frame>, cell: Frame, last: Tree, on: Settings)
    requires cell.source == Call(last) && cell.count == last.count
    ensures var p, s := if cell.width > 0 then placed + [Layout(cell, last, on)] else placed,
                        if cell.width > 0 then small else small + [cell];
      && Shown(p) + Sources(s) == Shown(placed) + Sources(small) + multiset{Call(last)}
      && FrameCounts(p) + FrameCounts(s) == FrameCounts(placed) + FrameCounts(small) + last.count
  {
    hide Layout, Shown, FrameCounts, Sources;
    LayoutKeepsFields(cell, last, on);
    ShownSnoc(placed, Layout(cell, last, on));
    ShownSnoc(small, cell);
  }

  lemma {:induction false} PlacedOrSmall(p: Frame, cf: Tree, kids: seq<Tree>, avail: int, on: Settings)
    requires kids != [] && forall c <- kids :: c in cf.frames
    ensures var init, last, cell := kids[..|kids| - 1], kids[|kids| - 1], Cell(p, kids, avail, on);
      var placed, small := Placed(p, cf, kids, avail, on), Small(p, kids, avail, on);
      if cell.width > 0 then
        placed == Placed(p, cf, init, avail, on) + [Layout(cell, last, on)] && small == Small(p, init, avail, on)
      else placed == Placed(p, cf, init, avail, on) && small == Small(p, init, avail, on) + [cell]
  {
    hide Layout, Cell;
  }

  lemma {:induction false} CellIs(p: Frame, kids: seq<Tree>, avail: int, on: Settings)
    requires kids != []
    ensures var cell, last := Cell(p, kids, avail, on), kids[|kids| - 1];
      cell.source == Call(last) && cell.count == last.count
  {
  }

  lemma {:induction false} PlacedPlusSmall(p: Frame, cf: Tree, kids: seq<Tree>, avail: int, on: Settings)
    requires forall c <- kids :: c in cf.frames
    ensures Shown(Placed(p, cf, kids, avail, on)) + Sources(Small(p, kids, avail, on)) == Calls(kids)
    ensures FrameCounts(Placed(p, cf, kids, avail, on)) + FrameCounts(Small(p, kids, avail, on)) == SumCounts(kids)
    decreases |kids|
  {
    if kids == [] {
      assert Shown([]) == Calls([]) == Sources([]);
    } else {
      hide Placed, Small, Layout, Shown, Sources, FrameCounts, CellAt;
      var init, last := kids[..|kids| - 1], kids[|kids| - 1];
      PlacedPlusSmall(p, cf, init, avail, on);
      PlacedOrSmall(p, cf, kids, avail, on);
      CellIs(p, kids, avail, on);
      OneMore(Placed(p, cf, init, avail, on), Small(p, init, avail, on), Cell(p, kids, avail, on), last, on);
    }
  }

  lemma {:induction false} InsertCalls(sorted: seq<Tree>, c: Tree)
    ensures Calls(InsertDescending(sorted, c)) == Calls(sorted) + multiset{Call(c)}
  {
    if sorted == [] {
      assert [c][..0] == [];
    } else {
      var init, last := sorted[..|sorted| - 1], sorted[|sorted| - 1];
      if NameLess(last.name, c.name) {
        InsertCalls(init, c);
        assert (InsertDescending(init, c) + [last])[..|InsertDescending(init, c)|] == InsertDescending(init, c);
      } else {
        assert (sorted + [c])[..|sorted|] == sorted;
      }
    }
  }

  lemma {:induction false} SortCalls(frames: seq<Tree>)
    ensures Calls(SortDescending(frames)) == Calls(frames)
  {
    if frames != [] {
      SortCalls(frames[..|frames| - 1]);
      InsertCalls(SortDescending(frames[..|frames| - 1]), frames[|frames| - 1]);
    }
  }

  // ---------------------------------------------------------------- counts of one sign

  /** In the whole subtree, as far down as columns are given out: no child counts against its parent's sign. */
  predicate SameSigns(t: Tree) {
    t.count == 0 || forall c <- t.frames ::
      Along(t.count, c.count) >= 0 && (Along(t.count, c.count) > 0 ==> SameSigns(c))
  }

  lemma {:induction false} MeasuredSameSigns(t: Tree)
    requires Measured(t)
    ensures SameSigns(t)
  {
    forall c | c in t.frames
      ensures c.count >= 0 && SameSigns(c)
    {
      assert Measured(c);
      MeasuredSameSigns(c);
    }
  }

  lemma {:induction false} NoneSmall(p: Frame, kids: seq<Tree>, avail: int, on: Settings)
    requires forall c <- kids :: CalculateWidth(c.count, p.count, avail) > 0
    ensures Small(p, kids, avail, on) == []
  {
    if kids != [] {
      assert kids[|kids| - 1] in kids;
      NoneSmall(p, kids[..|kids| - 1], avail, on);
    }
  }

  /** A row that is complete with its small frames: they are under '+', or there are none. */
  lemma {:induction false} RowShows(placed: seq<Frame>, small: seq<Frame>, plus: Frame, hasPlus: bool,
                                    calls: multiset<Source>, count: int)
    requires Shown(placed) + Sources(small) == calls && FrameCounts(placed) + FrameCounts(small) == count
    requires plus.source.Plus? && plus.combined == small && plus.count == FrameCounts(small)
    requires hasPlus || small == []
    ensures Shown(placed + (if hasPlus then [plus] else [])) == calls
    ensures FrameCounts(placed + (if hasPlus then [plus] else [])) == count
  {
    if hasPlus {
      ShownSnoc(placed, plus);
    } else {
      assert placed + [] == placed;
    }
  }

  lemma {:induction false} RowConserves(p: Frame, cf: Tree, on: Settings)
    requires on.withCombined && p.width >= 1 && p.count == cf.count && p.frames == []
    requires cf.count == 0 || NoneOpposed(cf.frames, cf.count)
    ensures Shown(Layout(p, cf, on).frames) == Calls(cf.frames)
    ensures FrameCounts(Layout(p, cf, on).frames) == SumCounts(cf.frames)
  {
    if cf.frames != [] {
      var kids, avail := SortDescending(cf.frames), Avail(p, cf, on);
      SortedAreFrames(cf.frames);
      SortCalls(cf.frames);
      SortSums(cf.frames, p.count, avail);
      PlacedPlusSmall(p, cf, kids, avail, on);
      if !HasCombined(p, cf, on) {
        WithoutPlusNoneSmall(p, cf, on);
      }
      RowShows(Placed(p, cf, kids, avail, on), Small(p, kids, avail, on), PlusFrame(p, kids, avail, on),
               HasCombined(p, cf, on), Calls(cf.frames), SumCounts(cf.frames));
    }
  }

  lemma {:induction false} WithoutPlusNoneSmall(p: Frame, cf: Tree, on: Settings)
    requires on.withCombined && p.width >= 1 && p.count == cf.count && cf.frames != []
    requires cf.count == 0 || NoneOpposed(cf.frames, cf.count)
    requires !HasCombined(p, cf, on)
    ensures Small(p, SortDescending(cf.frames), Avail(p, cf, on), on) == []
  {
    SortedAreFrames(cf.frames);
    MinIsReached(cf.frames, p.count, p.width);
    forall c | c in cf.frames
      ensures CalculateWidth(c.count, p.count, p.width) >= 0
    {
      ShareSign(c.count, p.count, p.width);
    }
    NoneSmall(p, SortDescending(cf.frames), p.width, on);
  }

  /** With combining on, nothing is lost at any frame of the layout of a tree with counts of one sign. */
  lemma {:induction false} LayoutConserves(p: Frame, cf: Tree, on: Settings)
    requires on.withCombined && p.source == Call(cf) && p.frames == []
    requires p.width >= 1 && p.count == cf.count && SameSigns(cf)
    ensures Conserves(Layout(p, cf, on))
    decreases cf, 1
  {
    hide Shown, Calls, FrameCounts, Placed, Small, CalculateWidth, MinWidth, SumWidths, FitString;
    RowConserves(p, cf, on);
    if cf.frames != [] {
      SortedAreFrames(cf.frames);
      PlacedConserve(p, cf, SortDescending(cf.frames), Avail(p, cf, on), on);
    }
  }

  lemma {:induction false} PlacedConserve(p: Frame, cf: Tree, kids: seq<Tree>, avail: int, on: Settings)
    requires on.withCombined && p.count == cf.count && avail >= 0 && SameSigns(cf) && forall c <- kids :: c in cf.frames
    ensures forall f <- Placed(p, cf, kids, avail, on) :: Conserves(f)
    decreases cf, 0, |kids|
  {
    hide Shown, Calls, FrameCounts, FitString, SumWidths, Layout, Conserves;
    if kids != [] {
      var init, last := kids[..|kids| - 1], kids[|kids| - 1];
      var cell := Cell(p, kids, avail, on);
      assert last in kids && last in cf.frames;
      PlacedConserve(p, cf, init, avail, on);
      if cell.width > 0 {
        ShareSign(last.count, p.count, avail);
        LayoutConserves(cell, last, on);
      }
    }
  }

  // ---------------------------------------------------------------- counts of both signs

  lemma {:induction false} SourcesOfSome(row: seq<Frame>)
    requires row != []
    ensures |Sources(row)| > 0
  {
  }

  lemma {:induction false} SmallKid(p: Frame, kids: seq<Tree>, avail: int, on: Settings, c: Tree)
    requires c in kids && CalculateWidth(c.count, p.count, avail) <= 0
    ensures Small(p, kids, avail, on) != []
  {
    var init, last := kids[..|kids| - 1], kids[|kids| - 1];
    assert kids == init + [last];
    if c != last {
      SmallKid(p, init, avail, on, c);
    }
  }

  /** A child that counts against its parent's sign is not shown: it gets no column, and there is no '+'. */
  lemma {:induction false} OpposedIsLost(p: Frame, cf: Tree, c: Tree, on: Settings)
    requires p.width >= 1 && p.count == cf.count != 0 && p.frames == [] && p.source == Call(cf)
    requires c in cf.frames && Along(cf.count, c.count) < 0
    ensures !Conserves(Layout(p, cf, on))
  {
    hide CalculateWidth, SumWidths, FitString, Calls, Sources, Shown, Placed, Small, MinWidth, FrameCounts;
    var kids := SortDescending(cf.frames);
    SortedAreFrames(cf.frames);
    assert c in multiset(kids);
    SortCalls(cf.frames);
    ShareSign(c.count, p.count, p.width);
    MinIsReached(cf.frames, p.count, p.width);
    assert Avail(p, cf, on) == p.width && !HasCombined(p, cf, on);
    PlacedPlusSmall(p, cf, kids, p.width, on);
    SmallKid(p, kids, p.width, on, c);
    SourcesOfSome(Small(p, kids, p.width, on));
    var row := Placed(p, cf, kids, p.width, on);
    assert row + [] == row && Layout(p, cf, on).frames == row;
    assert |Shown(row)| + |Sources(Small(p, kids, p.width, on))| == |Calls(cf.frames)|;
  }

  /** From some width on, frames of this tree lose samples. */
  ghost predicate LosesFrom(cf: Tree, width: int, on: Settings) {
    forall p: Frame :: p.width >= width && p.count == cf.count && p.source == Call(cf) && p.frames == [] ==>
      !Conserves(Layout(p, cf, on))
  }

  lemma {:induction false} Loses(cf: Tree, on: Settings) returns (w: nat)
    requires !SameSigns(cf)
    ensures w >= 1 && LosesFrom(cf, w, on)
    decreases cf
  {
    hide Conserves, Layout;
    var c :| c in cf.frames && (Along(cf.count, c.count) < 0 || (Along(cf.count, c.count) > 0 && !SameSigns(c)));
    if Along(cf.count, c.count) < 0 {
      w := 1;
      forall p: Frame | p.width >= 1 && p.count == cf.count && p.source == Call(cf) && p.frames == []
        ensures !Conserves(Layout(p, cf, on))
      {
        OpposedIsLost(p, cf, c, on);
      }
    } else {
      var wide := Loses(c, on);
      w := wide * Abs(cf.count) + 1;
      forall p: Frame | p.width >= w && p.count == cf.count && p.source == Call(cf) && p.frames == []
        ensures !Conserves(Layout(p, cf, on))
      {
        KidLoses(p, cf, c, wide, on);
      }
    }
  }

  lemma {:induction false} KidLoses(p: Frame, cf: Tree, c: Tree, wide: nat, on: Settings)
    requires p.count == cf.count != 0 && p.frames == [] && p.width >= wide * Abs(cf.count) + 1
    requires c in cf.frames && Along(cf.count, c.count) > 0 && wide >= 1 && LosesFrom(c, wide, on)
    ensures !Conserves(Layout(p, cf, on))
  {
    hide CalculateWidth, SumWidths, FitString, Shown, Calls, FrameCounts, Placed, Small, MinWidth;
    var kids, avail := SortDescending(cf.frames), Avail(p, cf, on);
    SortedAreFrames(cf.frames);
    assert c in multiset(kids);
    WideShare(c.count, p.count, avail, wide);
    var cell := PlacedKid(p, cf, kids, avail, on, c);
    assert Layout(cell, c, on) in Layout(p, cf, on).frames;
  }

  lemma {:induction false} WideShare(count: int, parentCount: int, avail: int, wide: nat)
    requires parentCount != 0 && Along(parentCount, count) > 0 && avail >= wide * Abs(parentCount)
    ensures CalculateWidth(count, parentCount, avail) >= wide
  {
    hide CalculateWidth, Along;
    var w, m := CalculateWidth(count, parentCount, avail), Abs(parentCount);
    Scaled(wide, 0, m);
    ExactShare(count, parentCount, avail);
    Scaled(avail, 1, Along(parentCount, count));
    if w + 1 <= wide {
      Scaled(m, w + 1, wide);
    }
  }

  /** With combining on: every layout of a call tree shows every call frame once with all its samples, exactly when no
      child counts against its parent's sign. */
  lemma {:induction false} ConservesIff(cf: Tree, on: Settings)
    requires on.withCombined
    ensures (forall p: Frame :: p.width >= 1 && p.count == cf.count && p.source == Call(cf) && p.frames == [] ==>
               Conserves(Layout(p, cf, on)))
        <==> SameSigns(cf)
  {
    hide Conserves, Layout, SameSigns;
    if SameSigns(cf) {
      forall p: Frame | p.width >= 1 && p.count == cf.count && p.source == Call(cf) && p.frames == []
        ensures Conserves(Layout(p, cf, on))
      {
        LayoutConserves(p, cf, on);
      }
    } else {
      var w := Loses(cf, on);
      assert !Conserves(Layout(Of(cf, w), cf, on));
    }
  }
}
