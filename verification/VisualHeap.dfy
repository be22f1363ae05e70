/** The visual tree as linked nodes on the heap (tfg/browser/visualtree.py): construction in place,
    breadth-first traversal, and the left/right links. */
module VisualHeap {
  import opened CallTree
  import opened VisualTree
  import opened VisualRows

  class VisualFrameNode {
    var x: int
    var y: int
    var count: int
    var width: int
    var text: string
    var source: Source
    var zoomed: bool
    var frames: seq<VisualFrameNode>
    var combinedFrames: seq<VisualFrameNode>
    var parentVf: VisualFrameNode?
    var leftVf: VisualFrameNode?
    var rightVf: VisualFrameNode?
    ghost var Repr: set<VisualFrameNode>   // the frames of this subtree
    ghost var Model: Frame                 // the subtree as a value

    /** The subtree shows the model and is a tree: no node is in two subtrees. Links are not read. */
    ghost predicate Valid()
      reads this`x, this`y, this`count, this`width, this`text, this`source, this`frames, this`combinedFrames
      reads this`parentVf, this`Repr, this`Model
      reads Repr`x, Repr`y, Repr`count, Repr`width, Repr`text, Repr`source, Repr`frames, Repr`combinedFrames
      reads Repr`parentVf, Repr`Repr, Repr`Model
      decreases Repr
    {
      && this in Repr
      && Model == Frame(x, y, count, width, text, source, Model.frames, Model.combined)
      && |Model.frames| == |frames| && |Model.combined| == |combinedFrames|
      && (forall i :: 0 <= i < |frames| ==>
            && frames[i] in Repr && frames[i].Repr <= Repr && this !in frames[i].Repr
            && frames[i].Valid() && frames[i].Model == Model.frames[i] && frames[i].parentVf == this)
      && (forall i :: 0 <= i < |combinedFrames| ==>
            && combinedFrames[i] in Repr && combinedFrames[i].Repr <= Repr && this !in combinedFrames[i].Repr
            && combinedFrames[i].Valid() && combinedFrames[i].Model == Model.combined[i]
            && combinedFrames[i].parentVf == parentVf)
      && (forall i, j :: 0 <= i < j < |frames| ==> frames[i].Repr !! frames[j].Repr)
    }

    /** A node without children, showing its model. */
    ghost predicate Leaf()
      reads this
    {
      && frames == [] && combinedFrames == [] && Repr == {this}
      && Model == Frame(x, y, count, width, text, source, [], [])
    }

    constructor (x: int, y: int, count: int, width: int, text: string, pvf: VisualFrameNode?, source: Source)
      ensures Leaf() && Valid()
      ensures Model == Frame(x, y, count, width, text, source, [], [])
      ensures parentVf == pvf && leftVf == null && rightVf == null && !zoomed
    {
      this.x, this.y, this.count, this.width, this.text := x, y, count, width, text;
      this.source := source;
      this.zoomed := false;
      this.frames, this.combinedFrames := [], [];
      this.parentVf, this.leftVf, this.rightVf := pvf, null, null;
      this.Repr := {this};
      this.Model := Frame(x, y, count, width, text, source, [], []);
    }
  }

  /** No left or right links yet. */
  ghost predicate Unlinked(nodes: set<VisualFrameNode>)
    reads nodes`leftVf, nodes`rightVf
  {
    forall n <- nodes :: n.leftVf == null && n.rightVf == null
  }

  /** Nor zoomed into. */
  ghost predicate Plain(nodes: set<VisualFrameNode>)
    reads nodes`leftVf, nodes`rightVf, nodes`zoomed
  {
    forall n <- nodes :: n.leftVf == null && n.rightVf == null && !n.zoomed
  }

  /** self.frames.append(child) */
  method AppendChild(vf: VisualFrameNode, child: VisualFrameNode)
    requires vf.Valid() && child.Valid() && vf.Repr !! child.Repr && child.parentVf == vf
    modifies vf`frames, vf`Repr, vf`Model
    ensures vf.Valid() && vf.Repr == old(vf.Repr) + child.Repr && child.Repr == old(child.Repr)
    ensures vf.frames == old(vf.frames) + [child]
    ensures vf.Model == old(vf.Model).(frames := old(vf.Model).frames + [child.Model])
  {
    vf.frames := vf.frames + [child];
    vf.Repr := vf.Repr + child.Repr;
    vf.Model := vf.Model.(frames := vf.Model.frames + [child.Model]);
  }

  /** _create_vf */
  method CreateVf(x: int, y: int, parent: VisualFrameNode, cf: Tree, reserve: bool, on: Settings)
    returns (vf: VisualFrameNode)
    ensures fresh(vf) && vf.Leaf() && vf.Valid() && vf.parentVf == parent
    ensures vf.leftVf == null && vf.rightVf == null && !vf.zoomed
    ensures vf.Model == CellAt(x, y, parent.count, if reserve then parent.width - 1 else parent.width, cf, on)
  {
    var width := parent.width;
    if reserve {
      width := width - 1;
    }
    width := CalculateWidth(cf.count, parent.count, width);
    var text := FitString(cf.name, width, on.filler);
    vf := new VisualFrameNode(x - width, y, cf.count, width, text, parent, Call(cf));
  }

  /** Small frames waiting for '+': childless nodes outside the tree built so far. */
  ghost predicate Waiting(nodes: seq<VisualFrameNode>, models: seq<Frame>, parent: VisualFrameNode,
                          taken: set<VisualFrameNode>)
    reads nodes
  {
    && |nodes| == |models|
    && forall i :: 0 <= i < |nodes| ==>
         && nodes[i] !in taken && nodes[i].Leaf() && nodes[i].Model == models[i]
         && nodes[i].parentVf == parent && nodes[i].leftVf == null && nodes[i].rightVf == null && !nodes[i].zoomed
  }

  lemma {:induction false} PlusIsValid(plus: VisualFrameNode, small: seq<VisualFrameNode>, models: seq<Frame>,
                                       parent: VisualFrameNode, taken: set<VisualFrameNode>)
    requires Waiting(small, models, parent, taken) && plus !in small && plus.parentVf == parent
    requires plus.frames == [] && plus.combinedFrames == small && plus.Repr == {plus} + set n | n in small
    requires plus.Model == Frame(plus.x, plus.y, plus.count, plus.width, plus.text, plus.source, [], models)
    ensures plus.Valid()
  {
    forall i | 0 <= i < |small|
      ensures small[i].Valid() && small[i].Repr == {small[i]}
    {
      assert small[i].Leaf();
    }
  }

  /** The node '+', holding the small frames. */
  method CreatePlus(x: int, y: int, count: int, parent: VisualFrameNode, small: seq<VisualFrameNode>,
                    ghost models: seq<Frame>, ghost taken: set<VisualFrameNode>) returns (plus: VisualFrameNode)
    requires Waiting(small, models, parent, taken)
    ensures plus.Valid() && plus.parentVf == parent && plus.Repr !! taken
    ensures Plain(plus.Repr) && forall n <- plus.Repr :: fresh(n) || n in small
    ensures plus.Model == Frame(x, y, count, 1, "+", Plus, [], models)
  {
    hide Waiting, Plain, VisualFrameNode.Valid;
    WaitingNodes(small, models, parent, taken);
    plus := new VisualFrameNode(x, y, count, 1, "+", parent, Plus);
    plus.combinedFrames := small;
    plus.Repr := {plus} + set n | n in small;
    plus.Model := plus.Model.(combined := models);
    PlusIsValid(plus, small, models, parent, taken);
    PlainPlus(plus, small);
  }

  lemma {:induction false} WaitingNodes(nodes: seq<VisualFrameNode>, models: seq<Frame>, parent: VisualFrameNode,
                                        taken: set<VisualFrameNode>)
    requires Waiting(nodes, models, parent, taken)
    ensures forall n <- nodes :: n !in taken && n.leftVf == null && n.rightVf == null && !n.zoomed
  {
  }

  lemma {:induction false} PlainPlus(plus: VisualFrameNode, small: seq<VisualFrameNode>)
    requires plus.leftVf == null && plus.rightVf == null && !plus.zoomed
    requires forall n <- small :: n.leftVf == null && n.rightVf == null && !n.zoomed
    ensures Plain({plus} + set n | n in small)
  {
  }

  function SumCountsOf(nodes: seq<VisualFrameNode>): int
    reads nodes
  {
    if nodes == [] then 0 else SumCountsOf(nodes[..|nodes| - 1]) + nodes[|nodes| - 1].count
  }

  lemma {:induction false} SumCountsOfModels(nodes: seq<VisualFrameNode>, models: seq<Frame>,
                                             parent: VisualFrameNode, taken: set<VisualFrameNode>)
    requires Waiting(nodes, models, parent, taken)
    ensures SumCountsOf(nodes) == FrameCounts(models)
  {
    if nodes != [] {
      SumCountsOfModels(nodes[..|nodes| - 1], models[..|models| - 1], parent, taken);
    }
  }

  /** A placed child has its own children below it, a small one has none. */
  ghost function Grown(cell: Frame, cf: Tree, on: Settings): Frame {
    if cell.width > 0 then Layout(cell, cf, on) else cell
  }

  /** One child of `vf`: created, and when it got a column, with its own children below it. */
  method BuildChild(x: int, vf: VisualFrameNode, cf: Tree, reserve: bool, on: Settings) returns (child: VisualFrameNode)
    ensures child.Valid() && child in child.Repr && fresh(child.Repr) && Plain(child.Repr) && child.parentVf == vf
    ensures var cell := CellAt(x, vf.y + 1, vf.count, if reserve then vf.width - 1 else vf.width, cf, on);
      child.Model == Grown(cell, cf, on) && child.width == cell.width && (cell.width <= 0 ==> child.Leaf())
    decreases cf, 4
  {
    hide CellAt, Layout, FitString, CalculateWidth, VisualFrameNode.Valid;
    child := CreateVf(x, vf.y + 1, vf, cf, reserve, on);
    if child.width > 0 {
      CreateVfChildren(child, cf, on);
    }
  }

  lemma {:induction false} PlacedNone(p: Frame, cf: Tree, avail: int, on: Settings)
    ensures Placed(p, cf, [], avail, on) == [] && Small(p, [], avail, on) == [] && SumWidths([], p.count, avail) == 0
  {
  }

  lemma {:induction false} PlacedStep(p: Frame, cf: Tree, kids: seq<Tree>, i: nat, avail: int, on: Settings)
    requires i < |kids| && forall c <- kids :: c in cf.frames
    ensures var right := p.x + p.width - SumWidths(kids[..i], p.count, avail);
      var cell := CellAt(right, p.y + 1, p.count, avail, kids[i], on);
      && Placed(p, cf, kids[..i + 1], avail, on)
         == Placed(p, cf, kids[..i], avail, on) + (if cell.width > 0 then [Grown(cell, kids[i], on)] else [])
      && Small(p, kids[..i + 1], avail, on)
         == Small(p, kids[..i], avail, on) + (if cell.width > 0 then [] else [Grown(cell, kids[i], on)])
      && right - cell.width == p.x + p.width - SumWidths(kids[..i + 1], p.count, avail)
  {
    assert kids[..i + 1][..i] == kids[..i] && kids[i] in cf.frames;
  }

  lemma {:induction false} NoneWaiting(vf: VisualFrameNode)
    requires vf.Leaf()
    ensures Waiting([], [], vf, vf.Repr) && Plain(vf.Repr - {vf})
  {
  }

  /** A child with a column goes under its parent, another one to the small frames. */
  method Place(vf: VisualFrameNode, child: VisualFrameNode, small0: seq<VisualFrameNode>, ghost models: seq<Frame>)
    returns (small: seq<VisualFrameNode>)
    requires vf.Valid() && vf in vf.Repr && Plain(vf.Repr - {vf}) && Waiting(small0, models, vf, vf.Repr)
    requires child.Valid() && child in child.Repr && Plain(child.Repr) && child.parentVf == vf
    requires vf.Repr !! child.Repr && (forall n <- small0 :: n !in child.Repr) && (child.width <= 0 ==> child.Leaf())
    modifies vf`frames, vf`Repr, vf`Model
    ensures vf.Valid() && vf in vf.Repr && Plain(vf.Repr - {vf})
    ensures vf.Repr == old(vf.Repr) + if child.width > 0 then child.Repr else {}
    ensures small == small0 + if child.width > 0 then [] else [child]
    ensures Waiting(small, models + (if child.width > 0 then [] else [child.Model]), vf, vf.Repr)
    ensures vf.Model == old(vf.Model).(frames := old(vf.Model).frames
                                                 + if child.width > 0 then [child.Model] else [])
  {
    hide VisualFrameNode.Valid;
    small := small0;
    if child.width > 0 {
      AppendChild(vf, child);
    } else {
      small := small + [child];
    }
  }

  /** The loop of _create_vf_children over the sorted call frames. */
  method PlaceChildren(vf: VisualFrameNode, cf: Tree, kids: seq<Tree>, reserve: bool, on: Settings, ghost avail: int)
    returns (x: int, small: seq<VisualFrameNode>)
    requires vf.Leaf() && vf.Valid() && forall c <- kids :: c in cf.frames
    requires avail == if reserve then vf.width - 1 else vf.width
    modifies vf`frames, vf`Repr, vf`Model
    ensures var p := old(vf.Model);
      && vf.Valid() && vf.Model == p.(frames := Placed(p, cf, kids, avail, on))
      && vf in vf.Repr && fresh(vf.Repr - {vf}) && Plain(vf.Repr - {vf})
      && x == p.x + p.width - SumWidths(kids, p.count, avail)
      && Waiting(small, Small(p, kids, avail, on), vf, vf.Repr)
    ensures forall n <- small :: fresh(n)
    decreases cf, 2
  {
    hide CellAt, Grown, Placed, Small, Layout, FitString, CalculateWidth, SumWidths, Plain, Waiting,
         VisualFrameNode.Valid;
    ghost var p := vf.Model;
    NoneWaiting(vf);
    x := vf.x + vf.width;
    small := [];
    PlacedNone(p, cf, avail, on);
    assert kids[..0] == [];
    for i := 0 to |kids|
      invariant vf.Valid() && vf.Model == p.(frames := Placed(p, cf, kids[..i], avail, on))
      invariant fresh(vf.Repr - {vf}) && Plain(vf.Repr - {vf}) && vf in vf.Repr
      invariant x == p.x + p.width - SumWidths(kids[..i], p.count, avail)
      invariant Waiting(small, Small(p, kids[..i], avail, on), vf, vf.Repr)
      invariant forall n <- small :: fresh(n)
    {
      PlacedStep(p, cf, kids, i, avail, on);
      assert kids[i] in cf.frames;
      var child := BuildChild(x, vf, kids[i], reserve, on);
      x := x - child.width;
      small := Place(vf, child, small, Small(p, kids[..i], avail, on));
    }
    assert kids[..|kids|] == kids;
  }

  lemma {:induction false} LayoutIs(p: Frame, cf: Tree, on: Settings)
    ensures forall c <- SortDescending(cf.frames) :: c in cf.frames
    ensures cf.frames == [] ==> Layout(p, cf, on) == p
    ensures var kids, avail := SortDescending(cf.frames), Avail(p, cf, on);
      cf.frames != [] ==> Layout(p, cf, on) == p.(frames := Placed(p, cf, kids, avail, on)
                                        + (if HasCombined(p, cf, on) then [PlusFrame(p, kids, avail, on)] else []))
  {
    SortedAreFrames(cf.frames);
  }

  /** _create_vf_children: builds the subtree below `vf` in place. */
  method CreateVfChildren(vf: VisualFrameNode, cf: Tree, on: Settings)
    requires vf.Leaf() && vf.Valid()
    modifies vf`frames, vf`Repr, vf`Model
    ensures vf.Valid() && vf.Model == Layout(old(vf.Model), cf, on)
    ensures vf in vf.Repr && fresh(vf.Repr - {vf}) && Plain(vf.Repr - {vf})
    decreases cf, 3
  {
    hide Layout, Placed, Small, FitString, CalculateWidth, SumWidths, MinWidth, SortDescending, FrameCounts,
         VisualFrameNode.Valid;
    ghost var p := vf.Model;
    LayoutIs(p, cf, on);
    if cf.frames == [] {
      return;
    }
    var hasCombined := on.withCombined && MinWidth(cf.frames, vf.count, vf.width) == 0;
    var reserve := hasCombined && SumWidths(cf.frames, vf.count, vf.width) == vf.width;
    ghost var avail := Avail(p, cf, on);
    var kids := SortDescending(cf.frames);
    var x, small := PlaceChildren(vf, cf, kids, reserve, on, avail);
    if hasCombined {
      SumCountsOfModels(small, Small(p, kids, avail, on), vf, vf.Repr);
      var plus := CreatePlus(x - 1, vf.y + 1, SumCountsOf(small), vf, small, Small(p, kids, avail, on), vf.Repr);
      AppendChild(vf, plus);
    }
  }

  // ---------------------------------------------------------------- zooming

  /** A line of frames from the head of the tree shown so far to one of its frames, parent to child. */
  ghost predicate Line(line: seq<VisualFrameNode>)
    reads line
  {
    && line != [] && line[0].parentVf == null
    && (forall i :: 0 < i < |line| ==> line[i].parentVf == line[i - 1] && line[i].source.Call?)
  }

  /** What the zoom keeps of a line. */
  function LinksOf(line: seq<VisualFrameNode>): seq<Link>
    requires forall n <- line :: n.source.Call?
    reads line
  {
    if line == [] then [] else [Link(line[0].y, line[0].count, line[0].source.cf)] + LinksOf(line[1..])
  }

  function Reversed(nodes: seq<VisualFrameNode>): (r: seq<VisualFrameNode>)
    ensures |r| == |nodes| && forall i :: 0 <= i < |nodes| ==> r[i] == nodes[|nodes| - 1 - i]
  {
    seq(|nodes|, i requires 0 <= i < |nodes| => nodes[|nodes| - 1 - i])
  }

  /** The first loop of _create_start_vf: from the target up to the head. */
  method Ancestors(target: VisualFrameNode, ghost line: seq<VisualFrameNode>) returns (parents: seq<VisualFrameNode>)
    requires Line(line) && line[|line| - 1] == target
    ensures parents == Reversed(line)
  {
    parents := [];
    var parent: VisualFrameNode? := target;
    ghost var n := |line|;
    while parent != null
      invariant 0 <= n <= |line| && |parents| == |line| - n
      invariant forall i :: 0 <= i < |parents| ==> parents[i] == line[|line| - 1 - i]
      invariant parent == if n > 0 then line[n - 1] else null
      decreases n
    {
      parents := parents + [parent];
      parent := parent.parentVf;
      n := n - 1;
    }
  }

  /** The zoomed frames of a new tree, one inside the other, all but the last. */
  ghost function Nested(cells: seq<Frame>, last: Frame): Frame
    requires cells != []
  {
    if |cells| == 1 then last else cells[0].(frames := [Nested(cells[1..], last)])
  }

  ghost function ZoomCells(p: Frame, links: seq<Link>, on: Settings): (cells: seq<Frame>)
    ensures |cells| == |links| + 1 && cells[0] == p
    decreases |links|
  {
    if links == [] then [p] else [p] + ZoomCells(ZoomCell(p, links[0], on), links[1..], on)
  }

  lemma {:induction false} ZoomedIsNested(p: Frame, links: seq<Link>, on: Settings)
    requires p.source.Call?
    ensures var cells := ZoomCells(p, links, on);
      var last := cells[|links|];
      && last == StartCell(p, links, on) && last.source == Call(Target(p.source.cf, links))
      && Zoomed(p, links, on) == Nested(cells, Layout(last, last.source.cf, on))
    decreases |links|
  {
    if links != [] {
      ZoomedIsNested(ZoomCell(p, links[0], on), links[1..], on);
    }
  }

  lemma {:induction false} ZoomCellsSnoc(p: Frame, links: seq<Link>, i: nat, on: Settings)
    requires i < |links|
    ensures ZoomCells(p, links[..i + 1], on)
         == ZoomCells(p, links[..i], on) + [ZoomCell(ZoomCells(p, links[..i], on)[i], links[i], on)]
    decreases i
  {
    if i > 0 {
      ZoomCellsSnoc(ZoomCell(p, links[0], on), links[1..], i - 1, on);
      assert links[..i + 1][1..] == links[1..][..i] && links[..i][1..] == links[1..][..i - 1];
    } else {
      assert links[..1][1..] == [] && links[..0] == [];
    }
  }

  /** A zoomed frame whose only child is the next one. */
  ghost predicate Zooming(vf: VisualFrameNode, cell: Frame, next: VisualFrameNode)
    reads vf, next`parentVf
  {
    && cell == Frame(vf.x, vf.y, vf.count, vf.width, vf.text, vf.source, [], [])
    && vf.frames == [next] && vf.combinedFrames == [] && next.parentVf == vf
  }

  /** A chain of new frames, each the only child of the one before; the last has no children yet. */
  ghost predicate Chain(chain: seq<VisualFrameNode>, cells: seq<Frame>)
    reads chain
  {
    && |chain| == |cells| > 0
    && (forall i :: 0 <= i < |chain| - 1 ==> Zooming(chain[i], cells[i], chain[i + 1]))
    && chain[|chain| - 1].Leaf() && cells[|cells| - 1] == chain[|chain| - 1].Model
    && (forall i, j :: 0 <= i < j < |chain| ==> chain[i] != chain[j])
  }

  /** One turn of the second loop of _create_start_vf. */
  method ZoomInto(start: VisualFrameNode, parent: VisualFrameNode, ghost chain: seq<VisualFrameNode>,
                  ghost cells: seq<Frame>, on: Settings) returns (vf: VisualFrameNode)
    requires parent.source.Call? && start != parent
    requires Chain(chain, cells) && chain[|chain| - 1] == start && start.Leaf()
    modifies start`frames
    ensures fresh(vf) && vf.Leaf() && vf.Valid() && vf.leftVf == null && vf.rightVf == null && vf.zoomed
    ensures var link := Link(parent.y, parent.count, parent.source.cf);
      Chain(chain + [vf], cells + [ZoomCell(cells[|cells| - 1], link, on)])
  {
    hide FitString, VisualFrameNode.Valid;
    var text := FitString(parent.source.cf.name, start.width, on.filler);
    vf := new VisualFrameNode(start.x, parent.y, parent.count, start.width, text, start, parent.source);
    start.frames := start.frames + [vf];
    vf.zoomed := true;
  }

  lemma {:induction false} ChainStarts(head: VisualFrameNode, links: seq<Link>, on: Settings)
    requires head.Leaf()
    ensures Chain([head], ZoomCells(head.Model, links[..0], on))
  {
  }

  /** start_vf_parents[:-1][::-1] */
  method ZoomLine(target: VisualFrameNode, ghost line: seq<VisualFrameNode>) returns (zoomLine: seq<VisualFrameNode>)
    requires Line(line) && line[|line| - 1] == target
    ensures zoomLine == line[1..] && forall n <- zoomLine :: n in line && n.source.Call?
  {
    var parents := Ancestors(target, line);
    zoomLine := Reversed(parents[..|parents| - 1]);
    assert zoomLine == line[1..];
  }

  /** The links of the frames the zoom keeps: those on the line below the head. */
  ghost function ZoomLinks(target: VisualFrameNode?, line: seq<VisualFrameNode>): seq<Link>
    requires Aimed(target, line)
    reads line
  {
    if target == null then [] else LinksOf(line[1..])
  }

  /** With a target, `line` leads to it. */
  ghost predicate Aimed(target: VisualFrameNode?, line: seq<VisualFrameNode>)
    reads line
  {
    target != null ==> Line(line) && line[|line| - 1] == target
  }

  /** The chain goes from the head to the start frame, and has no links. */
  ghost predicate ChainBetween(chain: seq<VisualFrameNode>, head: VisualFrameNode, start: VisualFrameNode)
    reads chain
  {
    && chain != [] && chain[0] == head && chain[|chain| - 1] == start
    && forall n <- chain :: n.leftVf == null && n.rightVf == null
  }

  /** _create_start_vf: for a target below the head, zoomed frames of full width, one below the other. */
  method CreateStartVf(head: VisualFrameNode, target: VisualFrameNode?, ghost line: seq<VisualFrameNode>, on: Settings)
    returns (start: VisualFrameNode, ghost chain: seq<VisualFrameNode>)
    requires head.Leaf() && head.Valid() && head.leftVf == null && head.rightVf == null
    requires Aimed(target, line) && head !in line
    modifies head`frames
    ensures ChainBetween(chain, head, start) && start.Leaf() && start.Valid()
    ensures forall i :: 0 < i < |chain| ==> fresh(chain[i]) && chain[i].zoomed
    ensures target == null ==> start == head
    ensures ZoomLinks(target, line) == old(ZoomLinks(target, line))
    ensures Chain(chain, ZoomCells(old(head.Model), ZoomLinks(target, line), on))
  {
    hide FitString, Chain, ZoomCells, ZoomCell, Zoomed, Line, VisualFrameNode.Valid;
    ghost var p := head.Model;
    ChainStarts(head, ZoomLinks(target, line), on);
    start := head;
    chain := [head];
    if target != null {
      LineHasHead(line);
      var zoomLine := ZoomLine(target, line);
      ghost var links := LinksOf(zoomLine);
      assert links[..0] == [];
      LinksLength(zoomLine);
      for i := 0 to |zoomLine|
        invariant LinksOf(zoomLine) == links
        invariant ChainBetween(chain, head, start) && start.Leaf() && start.Valid()
        invariant forall i :: 0 < i < |chain| ==> fresh(chain[i]) && chain[i].zoomed
        invariant |chain| == i + 1 && Chain(chain, ZoomCells(p, links[..i], on))
      {
        ZoomCellsSnoc(p, links, i, on);
        LinksAt(zoomLine, i);
        assert zoomLine[i] in line && zoomLine[i] in zoomLine;
        var vf := ZoomInto(start, zoomLine[i], chain, ZoomCells(p, links[..i], on), on);
        start := vf;
        chain := chain + [vf];
      }
      assert links[..|zoomLine|] == links;
    }
  }

  lemma {:induction false} LineHasHead(line: seq<VisualFrameNode>)
    requires Line(line)
    ensures line != []
  {
  }

  lemma {:induction false} LinksLength(line: seq<VisualFrameNode>)
    requires forall n <- line :: n.source.Call?
    ensures |LinksOf(line)| == |line|
  {
    if line != [] {
      LinksLength(line[1..]);
    }
  }

  lemma {:induction false} LinksAt(line: seq<VisualFrameNode>, i: nat)
    requires i < |line| && forall n <- line :: n.source.Call?
    ensures |LinksOf(line)| == |line|
    ensures LinksOf(line)[i] == Link(line[i].y, line[i].count, line[i].source.cf)
  {
    if i > 0 {
      LinksAt(line[1..], i - 1);
    } else if |line| > 1 {
      LinksAt(line[1..], 0);
    }
  }

  /** Fixes the ghost view of a finished chain, from the inside out. */
  ghost method CloseChain(chain: seq<VisualFrameNode>, cells: seq<Frame>)
    requires |chain| == |cells| > 0 && chain[|chain| - 1].Valid()
    requires forall i :: 0 <= i < |chain| - 1 ==> Zooming(chain[i], cells[i], chain[i + 1])
    requires forall i :: 0 <= i < |chain| - 1 ==> chain[i] !in chain[|chain| - 1].Repr
    requires forall i, j :: 0 <= i < j < |chain| ==> chain[i] != chain[j]
    modifies chain[..|chain| - 1]`Repr, chain[..|chain| - 1]`Model
    ensures chain[0].Valid() && chain[0].Model == Nested(cells, old(chain[|chain| - 1].Model))
    ensures forall n <- chain[0].Repr :: n in old(chain[|chain| - 1].Repr) || n in chain
    ensures chain[|chain| - 1] in chain[0].Repr && chain[|chain| - 1].Valid()
    decreases |chain|
  {
    if |chain| > 1 {
      var rest := chain[1..];
      assert rest[..|rest| - 1] == chain[1..|chain| - 1];
      CloseChain(rest, cells[1..]);
      chain[0].Repr := {chain[0]} + rest[0].Repr;
      chain[0].Model := cells[0].(frames := [rest[0].Model]);
    }
  }

  /** Each frame among the children of the one before. */
  ghost predicate ChainOfFrames(chain: seq<VisualFrameNode>)
    reads chain
  {
    forall i :: 0 < i < |chain| ==> chain[i] in chain[i - 1].frames
  }

  lemma {:induction false} ChainHasFrames(chain: seq<VisualFrameNode>, cells: seq<Frame>)
    requires Chain(chain, cells)
    ensures ChainOfFrames(chain) && forall i :: 0 <= i < |chain| - 1 ==> chain[i] != chain[|chain| - 1]
  {
    forall i | 0 < i < |chain|
      ensures chain[i] in chain[i - 1].frames
    {
      assert Zooming(chain[i - 1], cells[i - 1], chain[i]);
    }
  }

  /** Children for the last frame of a chain. */
  twostate lemma {:induction false} FramesKept(chain: seq<VisualFrameNode>)
    requires old(ChainOfFrames(chain)) && forall i :: 0 <= i < |chain| - 1 ==> chain[i].frames == old(chain[i].frames)
    ensures ChainOfFrames(chain)
  {
  }

  /** The children of the start frame, seen from the head of its chain. */
  method FillChain(start: VisualFrameNode, ghost chain: seq<VisualFrameNode>, ghost cells: seq<Frame>, on: Settings)
    requires Chain(chain, cells) && chain[|chain| - 1] == start && start.Valid() && start.source.Call?
    requires forall n <- chain :: n.leftVf == null && n.rightVf == null
    modifies start`frames, chain`Repr, chain`Model
    ensures chain[0].Valid() && chain[0].Model == Nested(cells, Layout(cells[|cells| - 1], start.source.cf, on))
    ensures start.Valid() && start.Model == Layout(cells[|cells| - 1], start.source.cf, on)
    ensures start in chain[0].Repr && Unlinked(chain[0].Repr)
    ensures forall n <- chain[0].Repr :: (fresh(n) && !n.zoomed) || n in chain
  {
    hide Layout, Nested, VisualFrameNode.Valid;
    CreateVfChildren(start, start.source.cf, on);
    CloseChain(chain, cells);
  }

  /** rebuild_tree: the head, the zoomed line below it when there is a target, and the children. */
  method RebuildTree(tree: Tree, x: int, width: int, target: VisualFrameNode?, ghost line: seq<VisualFrameNode>,
                     on: Settings)
    returns (head: VisualFrameNode, start: VisualFrameNode, ghost chain: seq<VisualFrameNode>)
    requires Aimed(target, line)
    ensures head.Valid() && fresh(head.Repr) && Unlinked(head.Repr) && head.parentVf == null
    ensures start in head.Repr && (target == null ==> start == head)
    ensures chain != [] && chain[0] == head && chain[|chain| - 1] == start && ChainOfFrames(chain)
    ensures forall n <- head.Repr :: n.zoomed <==> n in chain
    ensures head.Model == Rebuilt(tree, x, width, old(ZoomLinks(target, line)), on)
    ensures start.Valid() && start.Model == StartLayout(tree, x, width, old(ZoomLinks(target, line)), on)
  {
    hide FitString, Chain, ChainOfFrames, Zoomed, Layout, Aimed, ZoomLinks, ZoomCells, Nested, VisualFrameNode.Valid;
    ghost var links := ZoomLinks(target, line);
    head := new VisualFrameNode(x, 0, tree.count, width, FitString(tree.name, width, on.filler), null, Call(tree));
    head.zoomed := true;
    ghost var p := head.Model;
    ghost var cells := ZoomCells(p, links, on);
    start, chain := CreateStartVf(head, target, line, on);
    ZoomedIsNested(p, links, on);
    ChainEnds(chain, cells);
    ChainHasFrames(chain, cells);
    label filling:
    FillChain(start, chain, cells, on);
    FramesKept@filling(chain);
  }

  lemma {:induction false} ChainEnds(chain: seq<VisualFrameNode>, cells: seq<Frame>)
    requires Chain(chain, cells)
    ensures |chain| == |cells| > 0 && cells[|cells| - 1].source == chain[|chain| - 1].source
  {
  }
}
