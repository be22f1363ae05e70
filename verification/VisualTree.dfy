/** The flame-graph layout of tfg/browser/visualtree.py as values: column widths by integer division,
    the combined '+' frame, zooming, and the traversals. */
module VisualTree {
  import opened CallTree
  import opened Text

  /** What a visual frame stands for: a call frame, or the small frames collected under '+'. */
  datatype Source = Call(cf: Tree) | Plus

  datatype Frame = Frame(x: int, y: int, count: int, width: int, text: string, source: Source,
                         frames: seq<Frame>, combined: seq<Frame>)

  /** Everything a layout needs besides the call tree. */
  datatype Settings = Settings(filler: char, withCombined: bool)

  // ---------------------------------------------------------------- text and widths

  /** text[:n], negative n counting from the end */
  function Prefix(text: string, n: int): string {
    if n >= |text| then text
    else if n >= 0 then text[..n]
    else if |text| + n > 0 then text[..|text| + n] else ""
  }

  function Repeat(c: char, n: int): (s: string)
    ensures |s| == (if n > 0 then n else 0) && forall i :: 0 <= i < |s| ==> s[i] == c
  {
    if n <= 0 then "" else [c] + Repeat(c, n - 1)
  }

  function FitString(text: string, width: int, filler: char): string {
    if |text| < width then Prefix(text, width) + Repeat(filler, width - |text|) else Prefix(text, width)
  }

  lemma {:induction false} FitStringFits(text: string, width: nat, filler: char)
    ensures |FitString(text, width, filler)| == width
    ensures forall i :: 0 <= i < width ==> FitString(text, width, filler)[i] == if i < |text| then text[i] else filler
  {
  }

  /** Python's a // b. */
  function FloorDiv(a: int, b: int): int
    requires b != 0
  {
    if b > 0 then a / b else (-a) / (-b)
  }

  function CalculateWidth(count: int, parentCount: int, parentWidth: int): int {
    if parentCount != 0 then FloorDiv(count * parentWidth, parentCount) else 0
  }

  // ---------------------------------------------------------------- sorted(cf.frames, key=name, reverse=True)

  /** A stable descending order: `c` goes behind every frame whose name is not less than its own. */
  function InsertDescending(sorted: seq<Tree>, c: Tree): (r: seq<Tree>)
    ensures multiset(r) == multiset(sorted) + multiset{c}
  {
    if sorted == [] then [c]
    else if NameLess(sorted[|sorted| - 1].name, c.name) then
      assert sorted == sorted[..|sorted| - 1] + [sorted[|sorted| - 1]];
      InsertDescending(sorted[..|sorted| - 1], c) + [sorted[|sorted| - 1]]
    else sorted + [c]
  }

  function SortDescending(frames: seq<Tree>): (r: seq<Tree>)
    ensures multiset(r) == multiset(frames)
  {
    if frames == [] then []
    else
      assert frames == frames[..|frames| - 1] + [frames[|frames| - 1]];
      InsertDescending(SortDescending(frames[..|frames| - 1]), frames[|frames| - 1])
  }

  lemma {:induction false} SortedAreFrames(frames: seq<Tree>)
    ensures |SortDescending(frames)| == |frames|
    ensures forall c <- SortDescending(frames) :: c in frames
  {
    forall c | c in SortDescending(frames)
      ensures c in frames
    {
      assert c in multiset(SortDescending(frames));
    }
    assert |multiset(SortDescending(frames))| == |multiset(frames)|;
  }

  // ---------------------------------------------------------------- laying out the children of one frame

  /** The sum of the widths the frames get out of `avail` columns. */
  function SumWidths(kids: seq<Tree>, parentCount: int, avail: int): int {
    if kids == [] then 0
    else SumWidths(kids[..|kids| - 1], parentCount, avail)
         + CalculateWidth(kids[|kids| - 1].count, parentCount, avail)
  }

  function MinWidth(kids: seq<Tree>, parentCount: int, avail: int): int
    requires kids != []
  {
    var last := CalculateWidth(kids[|kids| - 1].count, parentCount, avail);
    if |kids| == 1 then last
    else
      var rest := MinWidth(kids[..|kids| - 1], parentCount, avail);
      if last < rest then last else rest
  }

  predicate HasCombined(p: Frame, cf: Tree, on: Settings) {
    cf.frames != [] && on.withCombined && MinWidth(cf.frames, p.count, p.width) == 0
  }

  /** The columns shared among the children: one is kept back for '+' when the children would fill the
      whole width. */
  function Avail(p: Frame, cf: Tree, on: Settings): int {
    if HasCombined(p, cf, on) && SumWidths(cf.frames, p.count, p.width) == p.width then p.width - 1 else p.width
  }

  /** _create_vf: a frame whose right edge is at `right`, its width a share of `avail` columns. */
  function CellAt(right: int, y: int, parentCount: int, avail: int, cf: Tree, on: Settings): Frame {
    var width := CalculateWidth(cf.count, parentCount, avail);
    Frame(right - width, y, cf.count, width, FitString(cf.name, width, on.filler), Call(cf), [], [])
  }

  /** The last of `kids`, the earlier ones having taken their columns from the right. */
  function Cell(p: Frame, kids: seq<Tree>, avail: int, on: Settings): Frame
    requires kids != []
  {
    var init, last := kids[..|kids| - 1], kids[|kids| - 1];
    CellAt(p.x + p.width - SumWidths(init, p.count, avail), p.y + 1, p.count, avail, last, on)
  }

  /** The children that got a column, each with its own children laid out. */
  function Placed(p: Frame, cf: Tree, kids: seq<Tree>, avail: int, on: Settings): seq<Frame>
    requires forall c <- kids :: c in cf.frames
    decreases cf, 0, |kids|
  {
    if kids == [] then []
    else
      var before, cell := Placed(p, cf, kids[..|kids| - 1], avail, on), Cell(p, kids, avail, on);
      assert kids[|kids| - 1] in cf.frames;
      if cell.width > 0 then before + [Layout(cell, kids[|kids| - 1], on)] else before
  }

  /** The children that got none. */
  function Small(p: Frame, kids: seq<Tree>, avail: int, on: Settings): seq<Frame> {
    if kids == [] then []
    else
      var before, cell := Small(p, kids[..|kids| - 1], avail, on), Cell(p, kids, avail, on);
      if cell.width > 0 then before else before + [cell]
  }

  function FrameCounts(frames: seq<Frame>): int {
    if frames == [] then 0 else FrameCounts(frames[..|frames| - 1]) + frames[|frames| - 1].count
  }

  function PlusFrame(p: Frame, kids: seq<Tree>, avail: int, on: Settings): Frame {
    var small := Small(p, kids, avail, on);
    Frame(p.x + p.width - SumWidths(kids, p.count, avail) - 1, p.y + 1, FrameCounts(small), 1, "+", Plus, [], small)
  }

  /** _create_vf_children(p, cf) */
  function Layout(p: Frame, cf: Tree, on: Settings): Frame
    decreases cf, 1
  {
    if cf.frames == [] then p
    else
      SortedAreFrames(cf.frames);
      var kids := SortDescending(cf.frames);
      var avail := Avail(p, cf, on);
      p.(frames := Placed(p, cf, kids, avail, on)
                   + (if HasCombined(p, cf, on) then [PlusFrame(p, kids, avail, on)] else []))
  }

  lemma {:induction false} LayoutKeepsFields(p: Frame, cf: Tree, on: Settings)
    ensures Layout(p, cf, on).(frames := p.frames) == p
  {
  }

  // ---------------------------------------------------------------- arithmetic

  lemma {:induction false} Distributes(c: int, a: int, b: int)
    ensures c * (a + b) == c * a + c * b && (a + b) * c == a * c + b * c
  {
  }

  lemma {:induction false} CancelFactor(c: int, a: int, b: int)
    requires c > 0 && c * a <= c * b
    ensures a <= b
  {
    if a > b {
      ScaleUp(c, b, a);
    }
  }

  lemma {:induction false} ScaleUp(c: int, a: int, b: int)
    requires c > 0 && a < b
    ensures c * a < c * b
  {
  }

  lemma {:induction false} Scaled(c: int, a: int, b: int)
    requires c >= 0 && a <= b
    ensures c * a <= c * b
  {
    assert c * (b - a) >= 0;
  }

  // ---------------------------------------------------------------- widths are rounded shares

  function Abs(n: int): nat {
    if n < 0 then -n else n
  }

  /** A child's count as its parent's sign sees it: shares of one sign are positive. */
  function Along(parentCount: int, count: int): int {
    if parentCount > 0 then count else -count
  }

  /** The width is the exact share, rounded down, for counts of either sign. */
  lemma {:induction false} ExactShare(count: int, parentCount: int, avail: int)
    requires parentCount != 0
    ensures var w, a := CalculateWidth(count, parentCount, avail), Along(parentCount, count);
      Abs(parentCount) * w <= a * avail < Abs(parentCount) * (w + 1)
  {
    var a, m := Along(parentCount, count), Abs(parentCount);
    assert (-count) * avail == -(count * avail);
    var product := a * avail;
    assert product == m * (product / m) + product % m;
    Distributes(m, product / m, 1);
  }

  /** Widths have the sign of the share. */
  lemma {:induction false} ShareSign(count: int, parentCount: int, avail: int)
    requires avail >= 0
    ensures var w, a := CalculateWidth(count, parentCount, avail), Along(parentCount, count);
      parentCount != 0 ==> (a >= 0 ==> w >= 0) && (a <= 0 ==> w <= 0) && (a < 0 && avail >= 1 ==> w < 0)
  {
    if parentCount != 0 {
      var w, a, m := CalculateWidth(count, parentCount, avail), Along(parentCount, count), Abs(parentCount);
      ExactShare(count, parentCount, avail);
      if a >= 0 {
        Scaled(avail, 0, a);
        BelowOne(m, w + 1);
      }
      if a <= 0 {
        Scaled(avail, a, 0);
        CancelFactor(m, w, 0);
      }
      if a < 0 && avail >= 1 {
        ScaleUp(avail, a, 0);
        BelowOne(m, -w);
      }
    }
  }

  lemma {:induction false} BelowOne(m: int, n: int)
    requires m > 0 && m * n > 0
    ensures n > 0
  {
    if n <= 0 {
      Scaled(m, n, 0);
    }
  }

  // ---------------------------------------------------------------- sorting changes no sum

  lemma {:induction false} SumsSnoc(kids: seq<Tree>, c: Tree, parentCount: int, avail: int)
    ensures SumWidths(kids + [c], parentCount, avail)
         == SumWidths(kids, parentCount, avail) + CalculateWidth(c.count, parentCount, avail)
    ensures SumCounts(kids + [c]) == SumCounts(kids) + c.count
  {
    assert (kids + [c])[..|kids|] == kids;
  }

  lemma {:induction false} InsertSums(sorted: seq<Tree>, c: Tree, parentCount: int, avail: int)
    ensures SumWidths(InsertDescending(sorted, c), parentCount, avail)
         == SumWidths(sorted + [c], parentCount, avail)
    ensures SumCounts(InsertDescending(sorted, c)) == SumCounts(sorted + [c])
  {
    if sorted == [] {
      assert sorted + [c] == [c];
    } else {
      var init, last := sorted[..|sorted| - 1], sorted[|sorted| - 1];
      assert sorted == init + [last];
      if NameLess(last.name, c.name) {
        InsertSums(init, c, parentCount, avail);
        SumsSnoc(InsertDescending(init, c), last, parentCount, avail);
        SumsSnoc(init, c, parentCount, avail);
        SumsSnoc(init, last, parentCount, avail);
        SumsSnoc(sorted, c, parentCount, avail);
      }
    }
  }

  lemma {:induction false} SortSums(frames: seq<Tree>, parentCount: int, avail: int)
    ensures SumWidths(SortDescending(frames), parentCount, avail) == SumWidths(frames, parentCount, avail)
    ensures SumCounts(SortDescending(frames)) == SumCounts(frames)
  {
    if frames != [] {
      var init, last := frames[..|frames| - 1], frames[|frames| - 1];
      SortSums(init, parentCount, avail);
      InsertSums(SortDescending(init), last, parentCount, avail);
      SumsSnoc(SortDescending(init), last, parentCount, avail);
      SumsSnoc(init, last, parentCount, avail);
      assert frames == init + [last];
    }
  }

  // ---------------------------------------------------------------- order of names, and shares of the width

  predicate Descending(kids: seq<Tree>) {
    forall i, j :: 0 <= i < j < |kids| ==> !NameLess(kids[i].name, kids[j].name)
  }

  predicate NoneBelow(kids: seq<Tree>, name: string) {
    forall i :: 0 <= i < |kids| ==> !NameLess(kids[i].name, name)
  }

  lemma {:induction false} InsertStaysAbove(sorted: seq<Tree>, c: Tree, name: string)
    requires NoneBelow(sorted, name) && !NameLess(c.name, name)
    ensures NoneBelow(InsertDescending(sorted, c), name)
  {
    if sorted != [] && NameLess(sorted[|sorted| - 1].name, c.name) {
      InsertStaysAbove(sorted[..|sorted| - 1], c, name);
    }
  }

  lemma {:induction false} InsertKeepsDescending(sorted: seq<Tree>, c: Tree)
    requires Descending(sorted)
    ensures Descending(InsertDescending(sorted, c))
  {
    if sorted != [] {
      var init, last := sorted[..|sorted| - 1], sorted[|sorted| - 1];
      if NameLess(last.name, c.name) {
        InsertKeepsDescending(init, c);
        NameLessIsOrder(last.name, c.name, last.name);
        InsertStaysAbove(init, c, last.name);
      } else {
        forall i | 0 <= i < |sorted|
          ensures !NameLess(sorted[i].name, c.name)
        {
          NameLessIsOrder(sorted[i].name, c.name, last.name);
          NameLessIsOrder(c.name, last.name, sorted[i].name);
        }
      }
    }
  }

  lemma {:induction false} SortedIsDescending(frames: seq<Tree>)
    ensures Descending(SortDescending(frames))
  {
    if frames != [] {
      SortedIsDescending(frames[..|frames| - 1]);
      InsertKeepsDescending(SortDescending(frames[..|frames| - 1]), frames[|frames| - 1]);
    }
  }

  /** The width is the share of the parent's width by count, rounded down, one column less being shared out at most. */
  predicate IsShare(c: Frame, p: Frame) {
    var a, m := Along(p.count, c.count), Abs(p.count);
    p.count != 0 && m * c.width <= a * p.width && a * (p.width - 1) < m * (c.width + 1)
  }

  /** Call frames from right to left in descending order of names. */
  predicate NamesDescend(row: seq<Frame>) {
    forall i, j :: 0 <= i < j < |row| && row[i].source.Call? && row[j].source.Call? ==>
      !NameLess(row[i].source.cf.name, row[j].source.cf.name)
  }

  /** In the whole subtree: names in order, widths in proportion. */
  predicate Orderly(p: Frame) {
    && NamesDescend(p.frames)
    && forall c <- p.frames :: (c.source.Call? ==> IsShare(c, p)) && Orderly(c)
  }

  lemma {:induction false} CellIsShare(p: Frame, kids: seq<Tree>, avail: int, on: Settings)
    requires kids != [] && Cell(p, kids, avail, on).width > 0 && 0 <= p.width - 1 <= avail <= p.width
    ensures IsShare(Cell(p, kids, avail, on), p)
  {
    var count := kids[|kids| - 1].count;
    ShareSign(count, p.count, avail);
    ExactShare(count, p.count, avail);
    Scaled(Along(p.count, count), avail, p.width);
    Scaled(Along(p.count, count), p.width - 1, avail);
  }

  /** Everywhere in the layout of any call tree, frames stand in the order of their names and their widths are their
      shares of the parent's width. */
  lemma {:induction false} LayoutIsOrderly(p: Frame, cf: Tree, on: Settings)
    requires p.width >= 1 && p.frames == []
    ensures Orderly(Layout(p, cf, on))
    decreases cf, 1
  {
    hide Placed, Small, SumWidths, MinWidth, CalculateWidth, FitString, SortDescending, IsShare, Cell;
    if cf.frames != [] {
      var kids, avail := SortDescending(cf.frames), Avail(p, cf, on);
      SortedAreFrames(cf.frames);
      SortedIsDescending(cf.frames);
      PlacedAreOrderly(p, cf, kids, avail, on);
      OrderlyRow(p, Placed(p, cf, kids, avail, on), PlusFrame(p, kids, avail, on), HasCombined(p, cf, on));
    }
  }

  lemma {:induction false} OrderlyRow(p: Frame, row: seq<Frame>, plus: Frame, hasPlus: bool)
    requires NamesDescend(row) && plus.source.Plus? && plus.frames == []
    requires forall c <- row :: IsShare(c, p) && Orderly(c)
    ensures Orderly(p.(frames := row + (if hasPlus then [plus] else [])))
  {
    var q := p.(frames := row + (if hasPlus then [plus] else []));
    forall c | c in q.frames
      ensures (c.source.Call? ==> IsShare(c, q)) && Orderly(c)
    {
      if c in row {
        assert IsShare(c, p);
      }
    }
  }

  lemma {:induction false} PlacedAreOrderly(p: Frame, cf: Tree, kids: seq<Tree>, avail: int, on: Settings)
    requires forall c <- kids :: c in cf.frames
    requires Descending(kids) && p.width >= 1 && p.width - 1 <= avail <= p.width
    ensures NamesDescend(Placed(p, cf, kids, avail, on))
    ensures forall c <- Placed(p, cf, kids, avail, on) :: IsShare(c, p) && Orderly(c)
    ensures forall c <- Placed(p, cf, kids, avail, on) :: c.source.Call? && c.source.cf in kids
    decreases cf, 0, |kids|
  {
    hide SumWidths, FitString, IsShare, Orderly, Layout;
    if kids != [] {
      var init, last := kids[..|kids| - 1], kids[|kids| - 1];
      assert last in kids && Descending(init);
      PlacedAreOrderly(p, cf, init, avail, on);
      var cell := Cell(p, kids, avail, on);
      if cell.width > 0 {
        CellIsShare(p, kids, avail, on);
        LayoutIsOrderly(cell, last, on);
        LayoutKeepsFields(cell, last, on);
        SameShare(cell, Layout(cell, last, on), p);
        LastName(Placed(p, cf, init, avail, on), Layout(cell, last, on), kids);
      }
    }
  }

  lemma {:induction false} SameShare(a: Frame, b: Frame, p: Frame)
    requires IsShare(a, p) && b.width == a.width && b.count == a.count
    ensures IsShare(b, p)
  {
  }

  lemma {:induction false} LastName(row: seq<Frame>, f: Frame, kids: seq<Tree>)
    requires kids != [] && Descending(kids) && f.source == Call(kids[|kids| - 1]) && NamesDescend(row)
    requires forall c <- row :: c.source.Call? && c.source.cf in kids[..|kids| - 1]
    ensures NamesDescend(row + [f])
  {
    forall i | 0 <= i < |row|
      ensures !NameLess(row[i].source.cf.name, f.source.cf.name)
    {
      assert row[i] in row;
      var k :| 0 <= k < |kids| - 1 && kids[..|kids| - 1][k] == row[i].source.cf;
    }
  }
}
