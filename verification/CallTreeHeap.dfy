/** The mutable tree of tfg/calltree/calltree.py: nodes updated in place, proved against the trie as a
    value (module CallTree) and against the dumped text (module Collapsed). */
module CallTreeHeap {
  import opened CallTree
  import Collapsed

  class CallFrameNode {
    const name: string
    var frames: seq<CallFrameNode>
    var baseCount: int
    var count: int
    var parent: CallFrameNode?
    ghost var Repr: set<CallFrameNode>   // the nodes of this subtree
    ghost var Model: Tree                // the subtree as a value

    ghost predicate Valid()
      reads this, Repr
      decreases Repr
    {
      && this in Repr
      && (forall i :: 0 <= i < |frames| ==>
            && frames[i] in Repr && frames[i].Repr <= Repr && this !in frames[i].Repr
            && frames[i].Valid())
      && FieldsModelled()
    }

    /** The fields show the model; children know their parent, and no node is in two of their subtrees. */
    ghost predicate FieldsModelled()
      reads this, frames
    {
      && Model == Node(name, baseCount, count, Model.frames)
      && |Model.frames| == |frames|
      && (forall i :: 0 <= i < |frames| ==> frames[i].Model == Model.frames[i] && frames[i].parent == this)
      && (forall i, j :: 0 <= i < j < |frames| ==> frames[i].Repr !! frames[j].Repr)
    }

    constructor (name: string, parent: CallFrameNode?)
      ensures Valid() && fresh(Repr) && Repr == {this}
      ensures this.name == name && this.parent == parent && Model == Node(name, 0, 0, [])
    {
      this.name := name;
      this.frames := [];
      this.baseCount := 0;
      this.count := 0;
      this.parent := parent;
      this.Repr := {this};
      this.Model := Node(name, 0, 0, []);
    }
  }

  /** _get_or_create_frame: the first frame of that name, or a new one behind the others. */
  method GetOrCreateFrame(start: CallFrameNode, name: string) returns (frame: CallFrameNode, ghost i: nat)
    requires start.Valid()
    modifies start
    ensures start.Valid() && i < |start.frames| && frame == start.frames[i]
    ensures i == Find(old(start.Model).frames, name) && frame.Model == ChildOrNew(old(start.Model), name)
    ensures start.Model == if i < |old(start.Model).frames| then old(start.Model)
                           else old(start.Model).(frames := old(start.Model).frames + [frame.Model])
    ensures old(start.Repr) <= start.Repr && fresh(start.Repr - old(start.Repr))
    ensures start.parent == old(start.parent)
  {
    i := 0;
    for k := 0 to |start.frames|
      invariant forall j :: 0 <= j < k ==> start.Model.frames[j].name != name
    {
      if start.frames[k].name == name {
        assert start.frames[k].Valid();
        i := k;
        frame := start.frames[k];
        return;
      }
    }
    i := |start.frames|;
    frame := new CallFrameNode(name, start);
    start.frames := start.frames + [frame];
    start.Repr := start.Repr + {frame};
    start.Model := start.Model.(frames := start.Model.frames + [frame.Model]);
  }

  /** _insert_frame: walks down the path, creating missing frames, adding to the counts on the way. */
  method InsertFrame(start: CallFrameNode, path: seq<string>, n: int)
    requires start.Valid()
    modifies start.Repr
    ensures start.Valid() && start.Model == Insert(old(start.Model), path, n)
    ensures fresh(start.Repr - old(start.Repr)) && old(start.Repr) <= start.Repr
    ensures start.parent == old(start.parent)
    decreases |path|, 0
  {
    if path == [] {
      return;
    }
    hide CallFrameNode.Valid, CallFrameNode.FieldsModelled, Absorb, ChildOrNew, Find;
    var frame, i := GetOrCreateFrame(start, path[0]);
    Kids(start);
    GrowChild(start, frame, i, path[1..], n);
  }

  /** The walk goes on below child `i`. */
  method GrowChild(start: CallFrameNode, frame: CallFrameNode, ghost i: nat, path: seq<string>, n: int)
    requires start.Valid() && i < |start.frames| == |start.Model.frames| && frame == start.frames[i]
    modifies start.Repr
    ensures start.Valid()
    ensures start.Model == old(start.Model).(frames := old(start.Model).frames[i := Absorb(old(frame.Model), path, n)])
    ensures fresh(start.Repr - old(start.Repr)) && old(start.Repr) <= start.Repr
    ensures start.parent == old(start.parent)
    decreases |path|, 2
  {
    hide CallFrameNode.Valid, CallFrameNode.FieldsModelled, Absorb;
    Kids(start);
    ghost var kids := start.frames;
    assert forall j :: 0 <= j < |kids| && j != i ==> kids[j].Repr !! frame.Repr;
    AddToFrame(frame, path, n);
    Relink(start, i);
  }

  /** What a valid node knows of its children. */
  lemma {:induction false} Kids(start: CallFrameNode)
    requires start.Valid()
    ensures |start.frames| == |start.Model.frames| && start in start.Repr
    ensures start.Model == Node(start.name, start.baseCount, start.count, start.Model.frames)
    ensures forall j :: 0 <= j < |start.frames| ==>
      && start.frames[j].Valid() && start.frames[j].parent == start && start !in start.frames[j].Repr
      && start.frames[j] in start.Repr && start.frames[j].Repr <= start.Repr && start.frames[j] in start.frames[j].Repr
      && start.frames[j].Model == start.Model.frames[j]
    ensures forall j, k :: 0 <= j < k < |start.frames| ==> start.frames[j].Repr !! start.frames[k].Repr
  {
    forall j | 0 <= j < |start.frames|
      ensures start.frames[j] in start.frames[j].Repr
    {
    }
  }

  /** After one child has grown: the ghost fields of its parent follow. */
  ghost method Relink(start: CallFrameNode, i: nat)
    requires i < |start.frames| == |start.Model.frames| && start in start.Repr
    requires start.Model == Node(start.name, start.baseCount, start.count, start.Model.frames)
    requires forall j :: 0 <= j < |start.frames| ==>
      && start.frames[j].Valid() && start.frames[j].parent == start && start !in start.frames[j].Repr
      && (j != i ==> start.frames[j] in start.Repr && start.frames[j].Repr <= start.Repr
                     && start.frames[j].Model == start.Model.frames[j])
    requires forall j, k :: 0 <= j < k < |start.frames| ==> start.frames[j].Repr !! start.frames[k].Repr
    modifies start`Repr, start`Model
    ensures start.Valid() && start.Repr == old(start.Repr) + start.frames[i].Repr
    ensures start.Model == old(start.Model).(frames := old(start.Model).frames[i := start.frames[i].Model])
  {
    start.Repr := start.Repr + start.frames[i].Repr;
    start.Model := start.Model.(frames := start.Model.frames[i := start.frames[i].Model]);
  }

  /** The part of _insert_frame that follows one frame of the path. */
  method AddToFrame(frame: CallFrameNode, path: seq<string>, n: int)
    requires frame.Valid()
    modifies frame.Repr
    ensures frame.Valid() && frame.Model == Absorb(old(frame.Model), path, n)
    ensures fresh(frame.Repr - old(frame.Repr)) && old(frame.Repr) <= frame.Repr
    ensures frame.parent == old(frame.parent)
    decreases |path|, 1
  {
    frame.count := frame.count + n;
    if path == [] {
      frame.baseCount := frame.baseCount + n;
    }
    frame.Model := frame.Model.(count := frame.count, base := frame.baseCount);
    InsertFrame(frame, path, n);
  }

  class CallFrameTree {
    const head: CallFrameNode

    constructor ()
      ensures fresh(head) && head.Valid() && fresh(head.Repr) && head.Model == EMPTY
    {
      head := new CallFrameNode("all", null);
    }

    method AddStack(path: seq<string>, n: int)
      requires head.Valid()
      modifies head.Repr
      ensures head.Valid() && fresh(head.Repr - old(head.Repr))
      ensures head.Model == CallTree.AddStack(old(head.Model), Stack(path, n))
    {
      head.count := head.count + n;
      head.Model := head.Model.(count := head.count);
      InsertFrame(head, path, n);
    }

    /** dump(): the text is the printed dump of the tree. */
    method Dump() returns (text: string)
      requires head.Valid()
      ensures text == Collapsed.Printed(Collapsed.Dump(head.Model))
    {
      var out := new Printer();
      DumpFrame(head, out);
      NothingAbove(Collapsed.Dump(head.Model));
      text := out.output;
    }
  }

  /** The loop of tfg/main.py: one add_stack for each parsed entry. */
  method BuildTree(stacks: seq<Stack>) returns (tree: CallFrameTree)
    ensures tree.head.Valid() && tree.head.Model == Build(stacks)
  {
    tree := new CallFrameTree();
    for i := 0 to |stacks|
      invariant tree.head.Valid() && fresh(tree.head.Repr)
      invariant tree.head.Model == Build(stacks[..i])
    {
      tree.AddStack(stacks[i].path, stacks[i].count);
      assert stacks[..i + 1][..i] == stacks[..i];
    }
    assert stacks[..|stacks|] == stacks;
  }

  // ---------------------------------------------------------------- _dump

  /** The shared call stack that _dump pushes to and pops from, and the text printed so far. */
  class Printer {
    var callstack: seq<CallFrameNode>
    var output: string

    constructor ()
      ensures callstack == [] && output == ""
    {
      callstack := [];
      output := "";
    }
  }

  function PathOf(callstack: seq<CallFrameNode>): (names: seq<string>)
    ensures |names| == |callstack|
  {
    seq(|callstack|, i requires 0 <= i < |callstack| => callstack[i].name)
  }

  /** Entries below the frames of `path`. */
  function Below(path: seq<string>, stacks: seq<Stack>): (r: seq<Stack>)
    ensures |r| == |stacks|
  {
    seq(|stacks|, i requires 0 <= i < |stacks| => stacks[i].(path := path + stacks[i].path))
  }

  lemma {:induction false} NothingAbove(stacks: seq<Stack>)
    ensures Below([], stacks) == stacks
  {
    forall i | 0 <= i < |stacks|
      ensures Below([], stacks)[i] == stacks[i]
    {
      assert [] + stacks[i].path == stacks[i].path;
    }
  }

  lemma {:induction false} BelowChild(path: seq<string>, name: string, stacks: seq<Stack>)
    ensures Below(path, Collapsed.Under(name, stacks)) == Below(path + [name], stacks)
  {
    forall i | 0 <= i < |stacks|
      ensures Below(path, Collapsed.Under(name, stacks))[i] == Below(path + [name], stacks)[i]
    {
      assert path + ([name] + stacks[i].path) == path + [name] + stacks[i].path;
    }
  }

  /** The text of entries below a call stack. */
  function Text(path: seq<string>, stacks: seq<Stack>): string {
    Collapsed.Printed(Below(path, stacks))
  }

  lemma {:induction false} TextAppends(path: seq<string>, a: seq<Stack>, b: seq<Stack>)
    ensures Text(path, a + b) == Text(path, a) + Text(path, b)
    decreases |a|
  {
    if a == [] {
      assert a + b == b;
    } else {
      assert Below(path, a + b)[1..] == Below(path, a[1..] + b);
      assert Below(path, a)[1..] == Below(path, a[1..]);
      TextAppends(path, a[1..], b);
    }
  }

  lemma {:induction false} PrintedOne(s: Stack)
    ensures Collapsed.Printed([s]) == Collapsed.Line(s) + "\n"
  {
    assert [s][1..] == [];
  }

  lemma {:induction false} ConcatAssociates(a: string, b: string, c: string)
    ensures a + b + c == a + (b + c)
  {
  }

  /** A frame's own line: only frames that were on top of a stack have one. */
  method PrintOwn(cf: CallFrameNode, out: Printer)
    requires cf.Valid()
    modifies out`output
    ensures out.output == old(out.output) + Text(PathOf(out.callstack), Collapsed.Own(cf.Model))
  {
    if cf.baseCount > 0 {
      ghost var path := PathOf(out.callstack);
      out.output := out.output + (Collapsed.Line(Stack(PathOf(out.callstack), cf.baseCount)) + "\n");
      assert path + [] == path;
      assert Below(path, Collapsed.Own(cf.Model)) == [Stack(path, cf.baseCount)];
      PrintedOne(Stack(path, cf.baseCount));
    }
  }

  /** _dump(cf, callstack): prints the subtree's entries below the call stack, and leaves the call stack
      as it found it. */
  method DumpFrame(cf: CallFrameNode, out: Printer)
    requires cf.Valid()
    modifies out
    ensures out.callstack == old(out.callstack)
    ensures out.output == old(out.output) + Text(PathOf(out.callstack), Collapsed.Dump(cf.Model))
    decreases cf.Repr, 0
  {
    ghost var path := PathOf(out.callstack);
    PrintOwn(cf, out);
    ghost var printed := out.output;
    for i := 0 to |cf.frames|
      invariant out.callstack == old(out.callstack)
      invariant out.output == printed + Text(path, Collapsed.DumpAll(cf.Model.frames[..i]))
    {
      var child := cf.frames[i];
      assert child.Valid() && child.Model == cf.Model.frames[i];
      PushAndDump(child, out);
      DumpOneMore(path, cf.Model.frames, i);
      ConcatAssociates(printed, Text(path, Collapsed.DumpAll(cf.Model.frames[..i])),
                       Text(path + [child.name], Collapsed.Dump(child.Model)));
    }
    assert cf.Model.frames[..|cf.frames|] == cf.Model.frames;
    TextAppends(path, Collapsed.Own(cf.Model), Collapsed.DumpAll(cf.Model.frames));
    ConcatAssociates(old(out.output), Text(path, Collapsed.Own(cf.Model)),
                     Text(path, Collapsed.DumpAll(cf.Model.frames)));
  }

  /** callstack.append(child_cf); self._dump(child_cf, callstack); callstack.pop() */
  method PushAndDump(child: CallFrameNode, out: Printer)
    requires child.Valid()
    modifies out
    ensures out.callstack == old(out.callstack)
    ensures out.output == old(out.output) + Text(PathOf(out.callstack) + [child.name], Collapsed.Dump(child.Model))
    decreases child.Repr, 1
  {
    out.callstack := out.callstack + [child];
    assert PathOf(out.callstack) == PathOf(old(out.callstack)) + [child.name];
    DumpFrame(child, out);
    out.callstack := out.callstack[..|out.callstack| - 1];
  }

  lemma {:induction false} DumpOneMore(path: seq<string>, frames: seq<Tree>, i: nat)
    requires i < |frames|
    ensures Text(path, Collapsed.DumpAll(frames[..i + 1])) ==
            Text(path, Collapsed.DumpAll(frames[..i])) + Text(path + [frames[i].name], Collapsed.Dump(frames[i]))
  {
    assert frames[..i + 1][..i] == frames[..i];
    BelowChild(path, frames[i].name, Collapsed.Dump(frames[i]));
    TextAppends(path, Collapsed.DumpAll(frames[..i]), Collapsed.Under(frames[i].name, Collapsed.Dump(frames[i])));
  }

  /** tfg --dump, then tfg on the dumped file: the reloaded tree is the dumped one if the stacks are dumpable, and only
      then. */
  method DumpAndReload(stacks: seq<Stack>) returns (dumped: CallFrameTree, reloaded: CallFrameTree)
    requires Collapsed.CleanStacks(stacks)
    ensures dumped.head.Valid() && dumped.head.Model == Build(stacks)
    ensures reloaded.head.Valid() && (reloaded.head.Model == dumped.head.Model <==> Collapsed.Dumpable(stacks))
  {
    hide CallFrameNode.Valid, Collapsed.Dump, Collapsed.Printed, Collapsed.Lines, Collapsed.ParseAll, Build,
         Collapsed.CleanStacks, Collapsed.Dumpable;
    dumped := BuildTree(stacks);
    var text := dumped.Dump();
    Collapsed.TextRoundTripIff(stacks);
    var parsed := Collapsed.Parse(Collapsed.Lines(text));
    reloaded := BuildTree(parsed.value);
  }
}
