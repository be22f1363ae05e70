/** What the frames of a flame graph say (tfg/browser/visualtree.py): the labels, character by character. */
module VisualLabels {
  import opened CallTree
  import opened Text
  import opened VisualTree
  import opened VisualFits
  import opened VisualRows

  /** A call frame shows as much of its name as fits, and the filler behind it; '+' shows itself. */
  predicate Label(f: Frame, filler: char) {
    match f.source
    case Call(cf) =>
      && |f.text| == f.width
      && forall i :: 0 <= i < f.width ==> f.text[i] == if i < |cf.name| then cf.name[i] else filler
    case Plus => f.text == "+" && f.width == 1
  }

  /** In the whole subtree, the frames under '+' included. */
  predicate Labelled(f: Frame, filler: char) {
    && Label(f, filler)
    && (forall c <- f.frames :: Labelled(c, filler))
    && (forall c <- f.combined :: Labelled(c, filler))
  }

  lemma {:induction false} CellLabelled(p: Frame, kids: seq<Tree>, avail: int, on: Settings)
    requires kids != [] && Cell(p, kids, avail, on).width >= 0
    ensures Labelled(Cell(p, kids, avail, on), on.filler)
  {
    var cell := Cell(p, kids, avail, on);
    FitStringFits(kids[|kids| - 1].name, cell.width, on.filler);
  }

  /** Without shares against the sign, the small frames have no column. */
  lemma {:induction false} SmallLabelled(p: Frame, kids: seq<Tree>, avail: int, on: Settings)
    requires avail >= 0 && (p.count == 0 || NoneOpposed(kids, p.count))
    ensures forall c <- Small(p, kids, avail, on) :: Labelled(c, on.filler)
  {
    hide SumWidths, FitString, Label;
    if kids != [] {
      var init, last := kids[..|kids| - 1], kids[|kids| - 1];
      SmallLabelled(p, init, avail, on);
      assert last in kids;
      ShareSign(last.count, p.count, avail);
      CellLabelled(p, kids, avail, on);
    }
  }

  lemma {:induction false} PlacedLabelled(p: Frame, cf: Tree, kids: seq<Tree>, avail: int, on: Settings)
    requires forall c <- kids :: c in cf.frames
    ensures forall c <- Placed(p, cf, kids, avail, on) :: Labelled(c, on.filler)
    decreases cf, 0, |kids|
  {
    hide SumWidths, FitString, CalculateWidth, Label, Layout;
    if kids != [] {
      var init, last := kids[..|kids| - 1], kids[|kids| - 1];
      var cell := Cell(p, kids, avail, on);
      assert last in kids && last in cf.frames;
      PlacedLabelled(p, cf, init, avail, on);
      if cell.width > 0 {
        CellLabelled(p, kids, avail, on);
        LayoutIsLabelled(cell, last, on);
      }
    }
  }

  /** Every frame of every layout, counts of any sign, shows its own name. */
  lemma {:induction false} LayoutIsLabelled(p: Frame, cf: Tree, on: Settings)
    requires p.width >= 1 && p.frames == [] && Labelled(p, on.filler)
    ensures Labelled(Layout(p, cf, on), on.filler)
    decreases cf, 1
  {
    hide SumWidths, MinWidth, FitString, CalculateWidth, Placed, Small;
    if cf.frames != [] {
      SortedAreFrames(cf.frames);
      var kids, avail := SortDescending(cf.frames), Avail(p, cf, on);
      PlacedLabelled(p, cf, kids, avail, on);
      if HasCombined(p, cf, on) {
        if p.count != 0 {
          PlusNoneOpposed(p, cf, on);
        }
        SmallLabelled(p, kids, avail, on);
        assert Labelled(PlusFrame(p, kids, avail, on), on.filler);
      }
      RowLabelled(p, Placed(p, cf, kids, avail, on), PlusFrame(p, kids, avail, on), HasCombined(p, cf, on), on);
    }
  }

  lemma {:induction false} RowLabelled(p: Frame, row: seq<Frame>, plus: Frame, hasPlus: bool, on: Settings)
    requires Labelled(p, on.filler) && forall c <- row :: Labelled(c, on.filler)
    requires hasPlus ==> Labelled(plus, on.filler)
    ensures Labelled(p.(frames := row + (if hasPlus then [plus] else [])), on.filler)
  {
  }

  lemma {:induction false} ZoomedIsLabelled(p: Frame, chain: seq<Link>, on: Settings)
    requires p.width >= 1 && p.frames == [] && p.combined == [] && p.source.Call? && Labelled(p, on.filler)
    ensures Labelled(Zoomed(p, chain, on), on.filler)
    decreases |chain|
  {
    hide FitString, Label, Layout;
    if chain == [] {
      LayoutIsLabelled(p, p.source.cf, on);
    } else {
      var child := ZoomCell(p, chain[0], on);
      ZoomCellLabelled(p, chain[0], on);
      ZoomedIsLabelled(child, chain[1..], on);
      RowLabelled(p, [Zoomed(child, chain[1..], on)], p, false, on);
      assert [Zoomed(child, chain[1..], on)] + [] == [Zoomed(child, chain[1..], on)];
    }
  }

  lemma {:induction false} ZoomCellLabelled(p: Frame, link: Link, on: Settings)
    requires p.width >= 0
    ensures Labelled(ZoomCell(p, link, on), on.filler)
  {
    FitStringFits(link.cf.name, p.width, on.filler);
  }

  /** Every frame of every rebuilt tree, zoomed or not, shows its own name. */
  lemma {:induction false} RebuiltIsLabelled(tree: Tree, x: int, width: int, chain: seq<Link>, on: Settings)
    requires width >= 1
    ensures Labelled(Rebuilt(tree, x, width, chain, on), on.filler)
  {
    hide Zoomed, FitString;
    FitStringFits(tree.name, width, on.filler);
    ZoomedIsLabelled(Head(tree, x, width, on), chain, on);
  }

  // ---------------------------------------------------------------- the zoomed frames

  /** From the head down to the zoom target: one frame of full width in every row, standing for the call frames of the
      chain with their counts; the target's own row is the last. */
  predicate FullWidth(f: Frame, chain: seq<Link>)
    decreases |chain|
  {
    chain != [] ==>
      && |f.frames| == 1 && f.frames[0].x == f.x && f.frames[0].width == f.width
      && f.frames[0].y == chain[0].y && f.frames[0].count == chain[0].count && f.frames[0].source == Call(chain[0].cf)
      && FullWidth(f.frames[0], chain[1..])
  }

  lemma {:induction false} ZoomedIsFullWidth(p: Frame, chain: seq<Link>, on: Settings)
    ensures FullWidth(Zoomed(p, chain, on), chain)
    decreases |chain|
  {
    if chain != [] {
      ZoomedIsFullWidth(ZoomCell(p, chain[0], on), chain[1..], on);
      ZoomedKeepsFields(ZoomCell(p, chain[0], on), chain[1..], on);
    }
  }

  /** The head of a rebuilt tree covers the whole width at the left edge, and so does every frame down to the zoom
      target. */
  lemma {:induction false} RebuiltIsFullWidth(tree: Tree, x: int, width: int, chain: seq<Link>, on: Settings)
    ensures var head := Rebuilt(tree, x, width, chain, on);
      && head.x == x && head.y == 0 && head.width == width && head.count == tree.count && head.source == Call(tree)
      && FullWidth(head, chain)
  {
    ZoomedIsFullWidth(Head(tree, x, width, on), chain, on);
    ZoomedKeepsFields(Head(tree, x, width, on), chain, on);
  }
}
