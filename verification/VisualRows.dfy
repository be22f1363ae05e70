/** Zooming and traversal of the visual tree (tfg/browser/visualtree.py): the chain of zoomed frames, the
    breadth-first queue, and the rows that level_traversal yields. */
module VisualRows {
  import opened CallTree
  import opened VisualTree
  import opened VisualFits
  import opened VisualConserves

  // ---------------------------------------------------------------- _create_start_vf

  /** An ancestor of the zoom target, or the target itself, in the tree shown so far. */
  datatype Link = Link(y: int, count: int, cf: Tree)

  /** A zoomed frame of the new tree, before it has children. */
  function ZoomCell(p: Frame, link: Link, on: Settings): Frame {
    Frame(p.x, link.y, link.count, p.width, FitString(link.cf.name, p.width, on.filler), Call(link.cf), [], [])
  }

  /** The zoomed chain below `p`, one frame of full width per row; the last one gets its children. */
  function Zoomed(p: Frame, chain: seq<Link>, on: Settings): Frame
    decreases |chain|
  {
    if chain == [] then (if p.source.Call? then Layout(p, p.source.cf, on) else p)
    else p.(frames := [Zoomed(ZoomCell(p, chain[0], on), chain[1..], on)])
  }

  function Head(tree: Tree, x: int, width: int, on: Settings): Frame {
    Frame(x, 0, tree.count, width, FitString(tree.name, width, on.filler), Call(tree), [], [])
  }

  /** rebuild_tree(start_vf), the chain being the frames on the way to start_vf below the head. */
  function Rebuilt(tree: Tree, x: int, width: int, chain: seq<Link>, on: Settings): Frame {
    Zoomed(Head(tree, x, width, on), chain, on)
  }

  /** Frames of a tree shown before: row numbers count up from the head, counts are their call frames'. */
  predicate ChainFrom(chain: seq<Link>, y: int) {
    forall i :: 0 <= i < |chain| ==>
      chain[i].y == y + 1 + i && chain[i].count == chain[i].cf.count
  }

  lemma {:induction false} ZoomedKeepsFields(p: Frame, chain: seq<Link>, on: Settings)
    ensures Zoomed(p, chain, on).(frames := p.frames) == p
  {
  }

  /** The call frame zoomed into: the last of the chain, or the head. */
  function Target(tree: Tree, chain: seq<Link>): Tree {
    if chain == [] then tree else chain[|chain| - 1].cf
  }

  /** The frame of the zoom target, before its children are laid out. */
  function StartCell(p: Frame, chain: seq<Link>, on: Settings): Frame
    decreases |chain|
  {
    if chain == [] then p else StartCell(ZoomCell(p, chain[0], on), chain[1..], on)
  }

  lemma {:induction false} StartCellIs(p: Frame, chain: seq<Link>, on: Settings)
    requires p.width >= 1 && |p.text| == p.width && p.frames == [] && p.source.Call?
    requires p.count == p.source.cf.count && ChainFrom(chain, p.y)
    ensures var cell := StartCell(p, chain, on);
      && cell.width == p.width == |cell.text| && cell.frames == []
      && cell.source == Call(Target(p.source.cf, chain)) && cell.count == Target(p.source.cf, chain).count
    decreases |chain|
  {
    if chain != [] {
      FitStringFits(chain[0].cf.name, p.width, on.filler);
      RestOfChain(chain, p.y);
      StartCellIs(ZoomCell(p, chain[0], on), chain[1..], on);
    }
  }

  lemma {:induction false} RestOfChain(chain: seq<Link>, y: int)
    requires chain != [] && ChainFrom(chain, y)
    ensures ChainFrom(chain[1..], chain[0].y) && chain[0].y == y + 1 && chain[0].count == chain[0].cf.count
  {
    assert forall i :: 0 <= i < |chain| - 1 ==> chain[1..][i] == chain[i + 1];
  }

  /** The zoomed frames are well placed exactly when the layout of the last one is. */
  lemma {:induction false} ZoomedIsWellPlaced(p: Frame, chain: seq<Link>, on: Settings)
    requires p.width >= 1 && |p.text| == p.width && p.frames == [] && p.source.Call?
    requires p.count == p.source.cf.count && ChainFrom(chain, p.y)
    ensures WellPlaced(Zoomed(p, chain, on))
        <==> WellPlaced(Layout(StartCell(p, chain, on), Target(p.source.cf, chain), on))
    decreases |chain|
  {
    hide WellPlaced, Layout, FitString, ChainFrom;
    if chain != [] {
      var child := ZoomCell(p, chain[0], on);
      FitStringFits(chain[0].cf.name, p.width, on.filler);
      RestOfChain(chain, p.y);
      ZoomedIsWellPlaced(child, chain[1..], on);
      ZoomedKeepsFields(child, chain[1..], on);
      assert Zoomed(p, chain, on) == p.(frames := [Zoomed(child, chain[1..], on)]);
      OneChild(p, Zoomed(child, chain[1..], on));
    }
  }

  lemma {:induction false} OneChild(p: Frame, c: Frame)
    requires p.width >= 1 && |p.text| == p.width && c.x == p.x && c.width == p.width && c.y == p.y + 1
    ensures WellPlaced(p.(frames := [c])) <==> WellPlaced(c)
  {
    assert c in p.(frames := [c]).frames;
  }

  /** A rebuilt tree is well placed when its zoom target fits. */
  lemma {:induction false} RebuiltIsWellPlaced(tree: Tree, x: int, width: int, chain: seq<Link>, on: Settings)
    requires width >= 1 && ChainFrom(chain, 0) && Fits(Target(tree, chain))
    ensures WellPlaced(Rebuilt(tree, x, width, chain, on))
  {
    hide WellPlaced, Fits, Zoomed, StartCell, FitString;
    FitStringFits(tree.name, width, on.filler);
    ZoomedIsWellPlaced(Head(tree, x, width, on), chain, on);
    StartCellIs(Head(tree, x, width, on), chain, on);
    LayoutIsWellPlaced(StartCell(Head(tree, x, width, on), chain, on), Target(tree, chain), on);
  }

  /** For every call tree, zoom target and setting: the rebuilt tree is well placed at every width exactly when the
      target's subtree fits. */
  lemma {:induction false} RebuiltWellPlacedIff(tree: Tree, x: int, chain: seq<Link>, on: Settings)
    requires ChainFrom(chain, 0)
    ensures (forall width: int :: width >= 1 ==> WellPlaced(Rebuilt(tree, x, width, chain, on)))
        <==> Fits(Target(tree, chain))
  {
    hide WellPlaced, Fits, Rebuilt;
    if Fits(Target(tree, chain)) {
      forall width: int | width >= 1
        ensures WellPlaced(Rebuilt(tree, x, width, chain, on))
      {
        RebuiltIsWellPlaced(tree, x, width, chain, on);
      }
    } else {
      var w := Misfit(Target(tree, chain), on);
      RebuiltMisplaced(tree, x, w, chain, on);
    }
  }

  lemma {:induction false} RebuiltMisplaced(tree: Tree, x: int, width: int, chain: seq<Link>, on: Settings)
    requires width >= 1 && ChainFrom(chain, 0) && MisplacedAt(Target(tree, chain), width, on)
    ensures !WellPlaced(Rebuilt(tree, x, width, chain, on))
  {
    hide WellPlaced, Zoomed, StartCell, FitString;
    FitStringFits(tree.name, width, on.filler);
    ZoomedIsWellPlaced(Head(tree, x, width, on), chain, on);
    StartCellIs(Head(tree, x, width, on), chain, on);
  }

  /** The layout of the zoom target in a rebuilt tree. */
  function StartLayout(tree: Tree, x: int, width: int, chain: seq<Link>, on: Settings): Frame {
    Layout(StartCell(Head(tree, x, width, on), chain, on), Target(tree, chain), on)
  }

  /** With combining on, below the start frame every call frame is shown once when no child of the target's subtree
      counts against its parent's sign. */
  lemma {:induction false} StartConserves(tree: Tree, x: int, width: int, chain: seq<Link>, on: Settings)
    requires width >= 1 && ChainFrom(chain, 0) && on.withCombined && SameSigns(Target(tree, chain))
    ensures Conserves(StartLayout(tree, x, width, chain, on))
  {
    hide Conserves, Layout, StartCell, FitString, SameSigns;
    FitStringFits(tree.name, width, on.filler);
    StartCellIs(Head(tree, x, width, on), chain, on);
    LayoutConserves(StartCell(Head(tree, x, width, on), chain, on), Target(tree, chain), on);
  }

  /** It is so at every width exactly then. */
  lemma {:induction false} StartConservesIff(tree: Tree, x: int, chain: seq<Link>, on: Settings)
    requires ChainFrom(chain, 0) && on.withCombined
    ensures (forall width: int :: width >= 1 ==> Conserves(StartLayout(tree, x, width, chain, on)))
        <==> SameSigns(Target(tree, chain))
  {
    hide Conserves, Layout, StartCell, FitString, SameSigns;
    if SameSigns(Target(tree, chain)) {
      forall width: int | width >= 1
        ensures Conserves(StartLayout(tree, x, width, chain, on))
      {
        StartConserves(tree, x, width, chain, on);
      }
    } else {
      var w := Loses(Target(tree, chain), on);
      FitStringFits(tree.name, w, on.filler);
      StartCellIs(Head(tree, x, w, on), chain, on);
      assert !Conserves(StartLayout(tree, x, w, chain, on));
    }
  }

  // ---------------------------------------------------------------- every frame shown can be zoomed

  /** In the whole subtree: a call frame shows its own sample count, children stand one row below, and the
      small frames stand in the row of their '+'. */
  predicate Truthful(f: Frame) {
    && (f.source.Call? ==> f.count == f.source.cf.count)
    && (forall c <- f.frames :: c.y == f.y + 1 && Truthful(c))
    && (forall c <- f.combined :: c.y == f.y && Truthful(c))
  }

  lemma {:induction false} LayoutIsTruthful(p: Frame, cf: Tree, on: Settings)
    requires p.source == Call(cf) && p.count == cf.count && p.frames == [] && p.combined == []
    ensures Truthful(Layout(p, cf, on))
    decreases cf, 1
  {
    if cf.frames != [] {
      SortedAreFrames(cf.frames);
      PlacedAreTruthful(p, cf, SortDescending(cf.frames), Avail(p, cf, on), on);
    }
  }

  lemma {:induction false} PlacedAreTruthful(p: Frame, cf: Tree, kids: seq<Tree>, avail: int, on: Settings)
    requires forall c <- kids :: c in cf.frames
    ensures forall c <- Placed(p, cf, kids, avail, on) :: c.y == p.y + 1 && Truthful(c)
    ensures forall c <- Small(p, kids, avail, on) :: c.y == p.y + 1 && Truthful(c)
    decreases cf, 0, |kids|
  {
    if kids != [] {
      var init, last := kids[..|kids| - 1], kids[|kids| - 1];
      PlacedAreTruthful(p, cf, init, avail, on);
      var cell := Cell(p, kids, avail, on);
      assert last in kids && last in cf.frames;
      LayoutIsTruthful(cell, last, on);
      LayoutKeepsFields(cell, last, on);
    }
  }

  lemma {:induction false} ZoomedIsTruthful(p: Frame, chain: seq<Link>, on: Settings)
    requires p.source.Call? && p.count == p.source.cf.count
    requires p.frames == [] && p.combined == [] && ChainFrom(chain, p.y)
    ensures Truthful(Zoomed(p, chain, on))
    decreases |chain|
  {
    if chain == [] {
      LayoutIsTruthful(p, p.source.cf, on);
    } else {
      var child := ZoomCell(p, chain[0], on);
      RestOfChain(chain, p.y);
      ZoomedIsTruthful(child, chain[1..], on);
      ZoomedKeepsFields(child, chain[1..], on);
    }
  }

  // ---------------------------------------------------------------- rows

  function Size(f: Frame): nat {
    1 + SizeAll(f.frames)
  }

  function SizeAll(fs: seq<Frame>): nat {
    if fs == [] then 0 else Size(fs[0]) + SizeAll(fs[1..])
  }

  lemma {:induction false} SizeAppends(a: seq<Frame>, b: seq<Frame>)
    ensures SizeAll(a + b) == SizeAll(a) + SizeAll(b)
    decreases |a|
  {
    if a == [] {
      assert a + b == b;
    } else {
      assert (a + b)[1..] == a[1..] + b;
      SizeAppends(a[1..], b);
    }
  }

  /** The children of a row, in order. */
  function NextRow(row: seq<Frame>): seq<Frame> {
    if row == [] then [] else row[0].frames + NextRow(row[1..])
  }

  lemma {:induction false} NextRowShrinks(row: seq<Frame>)
    ensures SizeAll(row) == |row| + SizeAll(NextRow(row))
    decreases |row|
  {
    if row != [] {
      NextRowShrinks(row[1..]);
      SizeAppends(row[0].frames, NextRow(row[1..]));
    }
  }

  /** The rows below and including `row`: row d holds exactly the frames at depth d. */
  function Rows(row: seq<Frame>): (rows: seq<seq<Frame>>)
    decreases SizeAll(row)
  {
    if row == [] then []
    else
      NextRowShrinks(row);
      [row] + Rows(NextRow(row))
  }

  function Flat(rows: seq<seq<Frame>>): seq<Frame> {
    if rows == [] then [] else rows[0] + Flat(rows[1..])
  }

  /** bfs_iterator: pop the first of the queue, yield it, push its children behind. */
  function Bfs(queue: seq<Frame>): seq<Frame>
    decreases SizeAll(queue)
  {
    if queue == [] then []
    else
      SizeAppends(queue[1..], queue[0].frames);
      assert SizeAll(queue) == Size(queue[0]) + SizeAll(queue[1..]);
      [queue[0]] + Bfs(queue[1..] + queue[0].frames)
  }

  lemma {:induction false} BfsEatsRow(row: seq<Frame>, below: seq<Frame>)
    ensures Bfs(row + below) == row + Bfs(below + NextRow(row))
    decreases |row|
  {
    if row == [] {
      assert row + below == below && below + NextRow(row) == below;
    } else {
      var f := row[0];
      assert (row + below)[1..] + f.frames == row[1..] + (below + f.frames);
      BfsEatsRow(row[1..], below + f.frames);
      assert below + f.frames + NextRow(row[1..]) == below + NextRow(row);
      assert [f] + row[1..] == row;
    }
  }

  /** The queue yields the frames row by row. */
  lemma {:induction false} BfsGoesByRows(row: seq<Frame>)
    ensures Bfs(row) == Flat(Rows(row))
    decreases SizeAll(row)
  {
    if row != [] {
      BfsEatsRow(row, []);
      assert row + [] == row && [] + NextRow(row) == NextRow(row);
      NextRowShrinks(row);
      BfsGoesByRows(NextRow(row));
      assert Rows(row)[1..] == Rows(NextRow(row));
    }
  }

  /** The traversal has as many steps as the tree has frames. */
  lemma {:induction false} BfsCounts(queue: seq<Frame>)
    ensures |Bfs(queue)| == SizeAll(queue)
    decreases SizeAll(queue)
  {
    if queue != [] {
      SizeAppends(queue[1..], queue[0].frames);
      assert SizeAll(queue) == Size(queue[0]) + SizeAll(queue[1..]);
      BfsCounts(queue[1..] + queue[0].frames);
    }
  }

  /** In the whole subtree children stand one row below their parent. */
  predicate Stepped(f: Frame) {
    forall c <- f.frames :: c.y == f.y + 1 && Stepped(c)
  }

  lemma {:induction false} TruthfulIsStepped(f: Frame)
    requires Truthful(f)
    ensures Stepped(f)
  {
    forall c | c in f.frames
      ensures Stepped(c)
    {
      TruthfulIsStepped(c);
    }
  }

  lemma {:induction false} WellPlacedIsStepped(f: Frame)
    requires WellPlaced(f)
    ensures Stepped(f)
  {
    forall c | c in f.frames
      ensures Stepped(c)
    {
      WellPlacedIsStepped(c);
    }
  }

  predicate OnRow(row: seq<Frame>, y: int) {
    forall f <- row :: f.y == y && Stepped(f)
  }

  lemma {:induction false} NextRowOnRow(row: seq<Frame>, y: int)
    requires OnRow(row, y)
    ensures OnRow(NextRow(row), y + 1)
    decreases |row|
  {
    if row != [] {
      assert OnRow(row[1..], y);
      NextRowOnRow(row[1..], y);
      assert Stepped(row[0]);
    }
  }

  /** Across different parents too, a row runs strictly from right to left. */
  lemma {:induction false} WellPlacedRow(f: Frame)
    requires WellPlaced(f)
    ensures RightToLeft(f.frames) && forall c <- f.frames :: Inside(c, f)
  {
  }

  lemma {:induction false} NextRowRightToLeft(row: seq<Frame>)
    requires RightToLeft(row) && forall f <- row :: WellPlaced(f)
    ensures RightToLeft(NextRow(row))
    ensures forall c <- NextRow(row) :: exists f :: f in row && Inside(c, f)
    decreases |row|
  {
    if row != [] {
      var f, rest := row[0], row[1..];
      assert WellPlaced(f);
      hide WellPlaced;
      WellPlacedRow(f);
      NextRowRightToLeft(rest);
      forall i, j | 0 <= i < j < |NextRow(row)|
        ensures LeftOf(NextRow(row)[j], NextRow(row)[i])
      {
        var n := |f.frames|;
        if i < n <= j {
          assert NextRow(row)[j] == NextRow(rest)[j - n] && NextRow(rest)[j - n] in NextRow(rest);
          var g :| g in rest && Inside(NextRow(rest)[j - n], g);
          assert LeftOf(g, f);
          assert Inside(f.frames[i], f);
        } else if n <= i {
          assert LeftOf(NextRow(rest)[j - n], NextRow(rest)[i - n]);
        }
      }
    }
  }

  /** Row `d` holds frames of row number `d` below the first. */
  lemma {:induction false} RowsStep(row: seq<Frame>, y: int)
    requires OnRow(row, y)
    ensures forall d :: 0 <= d < |Rows(row)| ==> Rows(row)[d] != [] && OnRow(Rows(row)[d], y + d)
    decreases SizeAll(row)
  {
    hide NextRow, Stepped, SizeAll;
    if row != [] {
      NextRowOnRow(row, y);
      NextRowShrinks(row);
      RowsStep(NextRow(row), y + 1);
      forall d | 0 < d < |Rows(row)|
        ensures Rows(row)[d] != [] && OnRow(Rows(row)[d], y + d)
      {
        assert Rows(row)[d] == Rows(NextRow(row))[d - 1];
      }
    }
  }

  predicate AllWellPlaced(row: seq<Frame>) {
    forall f <- row :: WellPlaced(f)
  }

  lemma {:induction false} NextRowWellPlaced(row: seq<Frame>)
    requires AllWellPlaced(row)
    ensures AllWellPlaced(NextRow(row))
    decreases |row|
  {
    if row != [] {
      assert AllWellPlaced(row[1..]);
      NextRowWellPlaced(row[1..]);
      assert WellPlaced(row[0]);
    }
  }

  predicate AllRightToLeft(rows: seq<seq<Frame>>) {
    forall d :: 0 <= d < |rows| ==> RightToLeft(rows[d])
  }

  lemma {:induction false} RowsRightToLeft(row: seq<Frame>)
    requires AllWellPlaced(row) && RightToLeft(row)
    ensures AllRightToLeft(Rows(row))
    decreases SizeAll(row)
  {
    hide RightToLeft, NextRow, WellPlaced, SizeAll;
    if row != [] {
      NextRowWellPlaced(row);
      NextRowRightToLeft(row);
      NextRowShrinks(row);
      RowsRightToLeft(NextRow(row));
      forall d | 0 < d < |Rows(row)|
        ensures RightToLeft(Rows(row)[d])
      {
        assert Rows(row)[d] == Rows(NextRow(row))[d - 1];
      }
    }
  }

  /** Every row of a well-placed tree: same depth throughout, and strictly right to left, across different parents. */
  lemma {:induction false} RowsAreOrdered(head: Frame)
    requires WellPlaced(head) && head.width >= 1
    ensures AllRightToLeft(Rows([head]))
    ensures forall d :: 0 <= d < |Rows([head])| ==> forall f <- Rows([head])[d] :: f.y == head.y + d
  {
    hide WellPlaced, Rows;
    WellPlacedIsStepped(head);
    RowsStep([head], head.y);
    RowsRightToLeft([head]);
    forall d | 0 <= d < |Rows([head])|
      ensures forall f <- Rows([head])[d] :: f.y == head.y + d
    {
      assert OnRow(Rows([head])[d], head.y + d);
    }
  }

  // ---------------------------------------------------------------- level_traversal

  /** level_iterator: a new group starts where the row number differs from the group's first. */
  method LevelTraversal(bfs: seq<Frame>) returns (levels: seq<seq<Frame>>)
    requires bfs != []
    ensures levels == Groups(bfs)
  {
    levels := [];
    var vfs := [bfs[0]];
    for i := 1 to |bfs|
      invariant vfs != []
      invariant Groups(bfs[..i]) == levels + [vfs]
    {
      assert bfs[..i + 1][..i] == bfs[..i];
      if vfs[0].y == bfs[i].y {
        vfs := vfs + [bfs[i]];
      } else {
        levels := levels + [vfs];
        vfs := [bfs[i]];
      }
    }
    assert bfs[..|bfs|] == bfs;
    levels := levels + [vfs];
  }

  /** The same grouping, read from the end. */
  function Groups(bfs: seq<Frame>): (groups: seq<seq<Frame>>)
    ensures (bfs == [] <==> groups == []) && forall k :: 0 <= k < |groups| ==> groups[k] != []
  {
    if bfs == [] then []
    else
      var before, last := Groups(bfs[..|bfs| - 1]), bfs[|bfs| - 1];
      if before == [] then [[last]]
      else
        var group := before[|before| - 1];
        if group[0].y == last.y then before[..|before| - 1] + [group + [last]] else before + [[last]]
  }

  /** Groups that start before row number `y`. */
  predicate StartBelow(groups: seq<seq<Frame>>, y: int) {
    forall k :: 0 <= k < |groups| ==> groups[k] != [] && groups[k][0].y < y
  }

  lemma {:induction false} GroupsSnoc(bfs: seq<Frame>, f: Frame)
    ensures var before := Groups(bfs);
      Groups(bfs + [f]) == if before == [] || before[|before| - 1][0].y != f.y then before + [[f]]
                           else before[|before| - 1 := before[|before| - 1] + [f]]
  {
    assert (bfs + [f])[..|bfs|] == bfs;
  }

  lemma {:induction false} GroupsOfRow(before: seq<Frame>, row: seq<Frame>, y: int)
    requires row != [] && forall i :: 0 <= i < |row| ==> row[i].y == y
    requires StartBelow(Groups(before), y)
    ensures Groups(before + row) == Groups(before) + [row]
    decreases |row|
  {
    var init, last := row[..|row| - 1], row[|row| - 1];
    assert row == init + [last];
    assert before + row == before + init + [last];
    GroupsSnoc(before + init, last);
    if init == [] {
      assert before + init == before && row == [last];
    } else {
      GroupsOfRow(before, init, y);
    }
  }

  predicate RowsFrom(rows: seq<seq<Frame>>, y: int) {
    forall d :: 0 <= d < |rows| ==> rows[d] != [] && forall i :: 0 <= i < |rows[d]| ==> rows[d][i].y == y + d
  }

  lemma {:induction false} RowsTail(rows: seq<seq<Frame>>, y: int)
    requires RowsFrom(rows, y) && rows != []
    ensures RowsFrom(rows[1..], y + 1)
  {
    forall d | 0 <= d < |rows| - 1
      ensures rows[1..][d] != [] && forall i :: 0 <= i < |rows[1..][d]| ==> rows[1..][d][i].y == y + 1 + d
    {
      assert rows[1..][d] == rows[d + 1];
    }
  }

  lemma {:induction false} GroupsOfRows(before: seq<Frame>, rows: seq<seq<Frame>>, y: int)
    requires RowsFrom(rows, y) && StartBelow(Groups(before), y)
    ensures Groups(before + Flat(rows)) == Groups(before) + rows
    decreases |rows|
  {
    hide Groups;
    if rows == [] {
      assert before + Flat(rows) == before;
    } else {
      GroupsOfRow(before, rows[0], y);
      assert before + Flat(rows) == before + rows[0] + Flat(rows[1..]);
      RowsTail(rows, y);
      GroupsOfRows(before + rows[0], rows[1..], y + 1);
      assert Groups(before) + [rows[0]] + rows[1..] == Groups(before) + rows;
    }
  }

  /** level_traversal yields exactly the rows, the frames at each depth, each once, in every tree whose children stand
      one row below their parent, be they well placed or not. */
  lemma {:induction false} LevelsAreRows(head: Frame)
    requires Stepped(head)
    ensures Groups(Bfs([head])) == Rows([head])
    ensures forall d :: 0 <= d < |Rows([head])| ==>
      Rows([head])[d] != [] && forall f <- Rows([head])[d] :: f.y == head.y + d
  {
    hide Groups, Bfs, Rows;
    RowsStep([head], head.y);
    BfsGoesByRows([head]);
    forall d | 0 <= d < |Rows([head])|
      ensures forall i :: 0 <= i < |Rows([head])[d]| ==> Rows([head])[d][i].y == head.y + d
    {
      assert OnRow(Rows([head])[d], head.y + d);
    }
    NoGroups();
    GroupsOfRows([], Rows([head]), head.y);
    assert [] + Flat(Rows([head])) == Flat(Rows([head])) && [] + Rows([head]) == Rows([head]);
  }

  lemma {:induction false} NoGroups()
    ensures Groups([]) == []
  {
  }
}
