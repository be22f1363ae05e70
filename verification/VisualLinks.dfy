/** Traversing and linking a visual tree on the heap (tfg/browser/visualtree.py). */
module VisualLinks {
  import opened CallTree
  import opened VisualTree
  import opened VisualFits
  import VisualConserves
  import opened VisualRows
  import opened VisualHeap
  import opened VisualLabels
  import opened VisualExact

  ghost function ModelsOf(nodes: seq<VisualFrameNode>): (models: seq<Frame>)
    reads nodes`Model
    ensures |models| == |nodes| && forall i :: 0 <= i < |nodes| ==> models[i] == nodes[i].Model
  {
    if nodes == [] then [] else [nodes[0].Model] + ModelsOf(nodes[1..])
  }

  lemma {:induction false} ModelsAppend(a: seq<VisualFrameNode>, b: seq<VisualFrameNode>)
    ensures ModelsOf(a + b) == ModelsOf(a) + ModelsOf(b)
  {
  }

  /** Frames still to be visited: separate subtrees of one tree. */
  ghost predicate Queued(queue: seq<VisualFrameNode>, within: set<VisualFrameNode>)
    reads within
  {
    && (forall i :: 0 <= i < |queue| ==> queue[i] in within && queue[i].Repr <= within && queue[i].Valid())
    && forall i, j :: 0 <= i < j < |queue| ==> queue[i].Repr !! queue[j].Repr
  }

  /** Frames already visited: each once, none of them still below a queued frame. */
  ghost predicate Visited(order: seq<VisualFrameNode>, queue: seq<VisualFrameNode>, within: set<VisualFrameNode>)
    reads within, queue`Repr
  {
    && (forall i :: 0 <= i < |order| ==> order[i] in within)
    && (forall i, j :: 0 <= i < j < |order| ==> order[i] != order[j])
    && (forall i, j :: 0 <= i < |order| && 0 <= j < |queue| ==> order[i] !in queue[j].Repr)
  }

  /** Every child of a visited frame is visited or queued. */
  ghost predicate ChildrenSeen(order: seq<VisualFrameNode>, queue: seq<VisualFrameNode>)
    reads order`frames
  {
    forall n, c :: n in order && c in n.frames ==> c in order || c in queue
  }

  /** One turn of the queue. */
  lemma {:induction false} Turn(order: seq<VisualFrameNode>, queue: seq<VisualFrameNode>, within: set<VisualFrameNode>)
    requires queue != [] && Queued(queue, within) && Visited(order, queue, within) && ChildrenSeen(order, queue)
    ensures var next := queue[1..] + queue[0].frames;
      && Queued(next, within) && Visited(order + [queue[0]], next, within) && ChildrenSeen(order + [queue[0]], next)
  {
    var vf := queue[0];
    var next := queue[1..] + vf.frames;
    QueueTurn(queue, within);
    forall j | 0 <= j < |next|
      ensures vf !in next[j].Repr && forall i :: 0 <= i < |order| ==> order[i] !in next[j].Repr
    {
    }
  }

  lemma {:induction false} QueueTurn(queue: seq<VisualFrameNode>, within: set<VisualFrameNode>)
    requires queue != [] && Queued(queue, within)
    ensures Queued(queue[1..] + queue[0].frames, within)
  {
  }

  lemma {:induction false} ModelsOfChildren(vf: VisualFrameNode)
    requires vf.Valid()
    ensures ModelsOf(vf.frames) == vf.Model.frames
  {
  }

  lemma {:induction false} BfsTurn(queue: seq<Frame>)
    requires queue != []
    ensures var next := queue[1..] + queue[0].frames;
      Bfs(queue) == [queue[0]] + Bfs(next) && SizeAll(next) < SizeAll(queue)
  {
    SizeAppends(queue[1..], queue[0].frames);
  }

  /** One turn, seen on the values. */
  lemma {:induction false} ModelsTurn(queue: seq<VisualFrameNode>)
    requires queue != [] && queue[0].Valid()
    ensures var next := queue[1..] + queue[0].frames;
      && Bfs(ModelsOf(queue)) == [queue[0].Model] + Bfs(ModelsOf(next))
      && SizeAll(ModelsOf(next)) < SizeAll(ModelsOf(queue))
  {
    hide Bfs, SizeAll, VisualFrameNode.Valid;
    var models, next := ModelsOf(queue), queue[1..] + queue[0].frames;
    ModelsOfChildren(queue[0]);
    assert ModelsOf(next) == models[1..] + models[0].frames;
    BfsTurn(models);
  }

  /** bfs_traversal: the frames reached from the head, each once, as the queue of values gives them. */
  method BfsTraversal(head: VisualFrameNode) returns (order: seq<VisualFrameNode>)
    requires head.Valid()
    ensures ModelsOf(order) == Bfs([head.Model])
    ensures order != [] && order[0] == head && Visited(order, [], head.Repr) && ChildrenSeen(order, [])
  {
    hide Bfs, SizeAll, ModelsOf, Visited, ChildrenSeen, VisualFrameNode.Valid;
    var queue := [head];
    order := [];
    BfsStarts(head);
    while queue != []
      invariant Queued(queue, head.Repr) && Visited(order, queue, head.Repr) && ChildrenSeen(order, queue)
      invariant if order == [] then queue == [head] else order[0] == head
      invariant Bfs([head.Model]) == ModelsOf(order) + Bfs(ModelsOf(queue))
      decreases SizeAll(ModelsOf(queue))
    {
      Turn(order, queue, head.Repr);
      ModelsTurn(queue);
      ModelsAppend(order, [queue[0]]);
      var vf := queue[0];
      queue := queue[1..];
      order := order + [vf];
      queue := queue + vf.frames;
    }
  }

  lemma {:induction false} BfsStarts(head: VisualFrameNode)
    requires head.Valid()
    ensures Queued([head], head.Repr) && Visited([], [head], head.Repr) && ChildrenSeen([], [head])
    ensures Bfs([head.Model]) == ModelsOf([]) + Bfs(ModelsOf([head])) && ModelsOf([]) == [] && Bfs([]) == []
  {
    assert ModelsOf([head]) == [head.Model];
  }

  // ---------------------------------------------------------------- link_frames

  /** Neighbours in the order point at each other, and nothing lies beyond its ends. */
  ghost predicate Linked(order: seq<VisualFrameNode>)
    reads order`leftVf, order`rightVf
  {
    && (forall i :: 0 <= i < |order| ==> order[i].leftVf == if i + 1 < |order| then order[i + 1] else null)
    && (forall i :: 0 <= i < |order| ==> order[i].rightVf == if i > 0 then order[i - 1] else null)
  }

  /** link_frames: the pairs of neighbours in breadth-first order. */
  method LinkFrames(head: VisualFrameNode) returns (ghost order: seq<VisualFrameNode>)
    requires head.Valid() && Unlinked(head.Repr)
    modifies head.Repr`leftVf, head.Repr`rightVf
    ensures head.Valid() && head.Repr == old(head.Repr) && head.Model == old(head.Model)
    ensures ModelsOf(order) == Bfs([head.Model]) && Linked(order)
    ensures order != [] && order[0] == head && Visited(order, [], head.Repr) && ChildrenSeen(order, [])
  {
    hide Bfs, ModelsOf, ChildrenSeen, VisualFrameNode.Valid;
    var bfs := BfsTraversal(head);
    order := bfs;
    for i := 0 to |bfs| - 1
      invariant forall k :: 0 <= k < i ==> bfs[k].leftVf == bfs[k + 1] && bfs[k + 1].rightVf == bfs[k]
      invariant bfs[0].rightVf == null && forall k :: i <= k < |bfs| ==> bfs[k].leftVf == null
    {
      var lvf, rvf := bfs[i], bfs[i + 1];
      lvf.leftVf := rvf;
      rvf.rightVf := lvf;
    }
  }

  // ---------------------------------------------------------------- showing and zooming

  /** A tree as it stands on the screen, any number of zooms after the first layout. */
  ghost predicate Shown(head: VisualFrameNode)
    reads head, head.Repr
  {
    && head.Valid() && head.parentVf == null && head.Model.y == 0 && head.Model.source.Call?
    && Truthful(head.Model)
  }

  /** Frames the user can walk through: each among the children of the one before, or among the small frames
      under its '+'. */
  ghost predicate Path(line: seq<VisualFrameNode>)
    reads line, set n, m | n in line && m in n.frames :: m
  {
    && line != []
    && forall i :: 0 < i < |line| ==>
         line[i].source.Call? && (line[i] in line[i - 1].frames || InPlus(line[i], line[i - 1]))
  }

  ghost predicate InPlus(vf: VisualFrameNode, parent: VisualFrameNode)
    reads parent, set m | m in parent.frames
  {
    exists plus :: plus in parent.frames && vf in plus.combinedFrames
  }

  /** A step down the tree keeps what holds of every subtree, and goes one row down. */
  lemma {:induction false} StepDown(parent: VisualFrameNode, vf: VisualFrameNode)
    requires parent.Valid() && Truthful(parent.Model)
    requires vf in parent.frames || InPlus(vf, parent)
    ensures vf.Valid() && Truthful(vf.Model) && vf.parentVf == parent && vf.y == parent.y + 1
  {
    if vf in parent.frames {
      var k :| 0 <= k < |parent.frames| && parent.frames[k] == vf;
      assert parent.Model.frames[k] == vf.Model;
    } else {
      var plus :| plus in parent.frames && vf in plus.combinedFrames;
      var k :| 0 <= k < |parent.frames| && parent.frames[k] == plus;
      assert parent.Model.frames[k] == plus.Model;
      var j :| 0 <= j < |plus.combinedFrames| && plus.combinedFrames[j] == vf;
      assert plus.Model.combined[j] == vf.Model;
    }
  }

  lemma {:induction false} DownTheLine(line: seq<VisualFrameNode>, i: nat)
    requires i < |line| && Shown(line[0]) && Path(line)
    ensures line[i].Valid() && Truthful(line[i].Model) && line[i].y == i
    ensures i > 0 ==> line[i].parentVf == line[i - 1]
  {
    hide Truthful, VisualFrameNode.Valid;
    if i == 0 {
      ShownHead(line[0]);
    } else {
      DownTheLine(line, i - 1);
      StepDown(line[i - 1], line[i]);
    }
  }

  lemma {:induction false} ShownHead(head: VisualFrameNode)
    requires Shown(head)
    ensures head.y == 0 == head.Model.y && head.source.Call? && Truthful(head.Model)
  {
  }

  /** Every frame on the screen can be zoomed: the parent links lead to the head, with row numbers, sample
      counts and call frames as the zoom needs them. */
  lemma {:induction false} EveryFrameCanBeZoomed(line: seq<VisualFrameNode>)
    requires line != [] && Shown(line[0]) && Path(line)
    ensures Line(line) && ChainFrom(LinksOf(line[1..]), 0)
  {
    hide Truthful, VisualFrameNode.Valid;
    forall i | 0 < i < |line|
      ensures line[i].parentVf == line[i - 1] && line[i].source.Call?
      ensures line[i].y == i && line[i].count == line[i].source.cf.count
    {
      DownTheLine(line, i);
      CountShown(line[i]);
    }
    var rest := line[1..];
    LinksLength(rest);
    forall i | 0 <= i < |rest|
      ensures LinksOf(rest)[i] == Link(line[i + 1].y, line[i + 1].count, line[i + 1].source.cf)
    {
      LinksAt(rest, i);
    }
  }

  lemma {:induction false} CountShown(vf: VisualFrameNode)
    requires vf.Valid() && Truthful(vf.Model) && vf.source.Call?
    ensures vf.count == vf.source.cf.count
  {
  }

  /** The first layout (no target), or a zoom into any frame of the tree shown before: rebuild_tree followed by
      link_frames gives a tree of which every frame can be zoomed again, its frames linked in breadth-first order. Its
      levels are its rows. Every frame shows its own name. The frames from the head down to the target are as wide as
      the screen, and below the target every row holds exactly the children with a column of their own, and '+'. It is
      well placed, its rows run right to left and without gaps below the target, if the target's subtree fits, and with
      combining on it shows every call frame of that subtree once if no child there counts against its parent's sign. */
  method Show(tree: Tree, x: int, width: int, target: VisualFrameNode?, ghost line: seq<VisualFrameNode>, on: Settings)
    returns (head: VisualFrameNode, start: VisualFrameNode, ghost order: seq<VisualFrameNode>,
             ghost chain: seq<VisualFrameNode>)
    requires width >= 1
    requires target != null ==> line != [] && Shown(line[0]) && Path(line) && line[|line| - 1] == target
    ensures Shown(head) && fresh(head.Repr)
    ensures old(Aimed(target, line)) && ChainFrom(old(ZoomLinks(target, line)), 0)
    ensures var links := old(ZoomLinks(target, line));
      && head.Model == Rebuilt(tree, x, width, links, on) && start.Model == StartLayout(tree, x, width, links, on)
      && Labelled(head.Model, on.filler)
      && head.x == x && head.width == width && head.count == tree.count && head.source == Call(tree)
      && FullWidth(head.Model, links)
      && start.x == x && start.width == width && start.y == |links|
      && start.count == Target(tree, links).count && start.source == Call(Target(tree, links))
      && RowsAre(start.Model, on)
      && (Fits(Target(tree, links)) ==>
            WellPlaced(head.Model) && AllRightToLeft(Rows([head.Model])) && Packed(start.Model))
      && (on.withCombined && VisualConserves.SameSigns(Target(tree, links)) ==>
            VisualConserves.Conserves(start.Model))
    ensures start.Valid() && start in head.Repr
    ensures chain != [] && chain[0] == head && chain[|chain| - 1] == start && ChainOfFrames(chain)
    ensures forall n <- head.Repr :: n.zoomed <==> n in chain
    ensures Groups(ModelsOf(order)) == Rows([head.Model]) && RowsFrom(Rows([head.Model]), 0)
    ensures ModelsOf(order) == Bfs([head.Model]) && Linked(order)
    ensures order != [] && order[0] == head && Visited(order, [], head.Repr) && ChildrenSeen(order, [])
  {
    hide Shown, Path, Rebuilt, StartLayout, Truthful, WellPlaced, Fits, Labelled, FullWidth, RowsAre, Packed, ChainFrom,
         Line, LinksOf, Bfs, ModelsOf, Linked, Groups, Rows, AllRightToLeft, VisualConserves.Conserves,
         VisualConserves.SameSigns, VisualFrameNode.Valid;
    if target != null {
      EveryFrameCanBeZoomed(line);
    }
    ghost var links := ZoomLinks(target, line);
    NoLinks();
    head, start, chain := RebuildTree(tree, x, width, target, line, on);
    order := LinkFrames(head);
    RebuiltIsShown(tree, x, width, links, on, head);
    WhenItFits(tree, x, width, links, on);
    RebuiltIsLabelled(tree, x, width, links, on);
    RebuiltIsFullWidth(tree, x, width, links, on);
    StartRows(tree, x, width, links, on);
    SameFields(head, start);
    ShownHead(head);
    TruthfulIsStepped(head.Model);
    LevelsAreRows(head.Model);
    assert RowsFrom(Rows([head.Model]), 0);
  }

  lemma {:induction false} SameFields(head: VisualFrameNode, start: VisualFrameNode)
    requires head.Valid() && start.Valid()
    ensures head.x == head.Model.x && head.width == head.Model.width
    ensures head.count == head.Model.count && head.source == head.Model.source
    ensures start.x == start.Model.x && start.y == start.Model.y && start.width == start.Model.width
    ensures start.count == start.Model.count && start.source == start.Model.source
  {
  }

  lemma {:induction false} NoLinks()
    ensures ChainFrom([], 0)
  {
  }

  lemma {:induction false} RebuiltIsShown(tree: Tree, x: int, width: int, links: seq<Link>, on: Settings,
                                          head: VisualFrameNode)
    requires ChainFrom(links, 0)
    requires head.Valid() && head.parentVf == null && head.Model == Rebuilt(tree, x, width, links, on)
    ensures Shown(head)
  {
    ZoomedIsTruthful(Head(tree, x, width, on), links, on);
    ZoomedKeepsFields(Head(tree, x, width, on), links, on);
  }

  lemma {:induction false} WhenItFits(tree: Tree, x: int, width: int, links: seq<Link>, on: Settings)
    requires width >= 1 && ChainFrom(links, 0)
    ensures var head := Rebuilt(tree, x, width, links, on);
      Fits(Target(tree, links)) ==> WellPlaced(head) && AllRightToLeft(Rows([head]))
    ensures on.withCombined && VisualConserves.SameSigns(Target(tree, links)) ==>
      VisualConserves.Conserves(StartLayout(tree, x, width, links, on))
  {
    hide Fits, WellPlaced, Zoomed, Rows, StartLayout, VisualConserves.Conserves, VisualConserves.SameSigns;
    if Fits(Target(tree, links)) {
      RebuiltIsWellPlaced(tree, x, width, links, on);
      ZoomedKeepsFields(Head(tree, x, width, on), links, on);
      RowsAreOrdered(Rebuilt(tree, x, width, links, on));
    }
    if on.withCombined && VisualConserves.SameSigns(Target(tree, links)) {
      StartConserves(tree, x, width, links, on);
    }
  }
}
