/** The call-frame trie of tfg/calltree/calltree.py as a value: what add_stack builds, and what a tree
    built by any sequence of calls says about the plain list of stacks. */
module CallTree {
  import opened Text

  datatype Tree = Node(name: string, base: int, count: int, frames: seq<Tree>)

  /** A recorded stack, outermost frame first, with its sample count. */
  datatype Stack = Stack(path: seq<string>, count: int)

  const EMPTY := Node("all", 0, 0, [])

  /** Index of the first frame with that name, or the number of frames. */
  function Find(frames: seq<Tree>, name: string): (i: nat)
    ensures i <= |frames|
    ensures i < |frames| ==> frames[i].name == name
    ensures forall j :: 0 <= j < i ==> frames[j].name != name
  {
    if frames == [] || frames[0].name == name then 0 else 1 + Find(frames[1..], name)
  }

  /** _get_or_create_frame: the child of that name, or a new one with no samples. */
  function ChildOrNew(t: Tree, name: string): (c: Tree)
    ensures c.name == name
  {
    var i := Find(t.frames, name);
    if i < |t.frames| then t.frames[i] else Node(name, 0, 0, [])
  }

  /** The tree with that child in place of the one of the same name, or behind the others. */
  function PutChild(t: Tree, c: Tree): Tree {
    var i := Find(t.frames, c.name);
    t.(frames := if i < |t.frames| then t.frames[i := c] else t.frames + [c])
  }

  /** _insert_frame(t, path, n): changes only the frames below `t`. */
  function Insert(t: Tree, path: seq<string>, n: int): (r: Tree)
    ensures r.name == t.name && r.base == t.base && r.count == t.count
    decreases |path|, 0
  {
    if path == [] then t else PutChild(t, Absorb(ChildOrNew(t, path[0]), path[1..], n))
  }

  /** One frame on the path: it gains `n`, as its own samples too when the path ends here. */
  function Absorb(t: Tree, path: seq<string>, n: int): (r: Tree)
    ensures r.name == t.name
    ensures r.base == t.base + (if path == [] then n else 0) && r.count == t.count + n
    decreases |path|, 1
  {
    Insert(t.(count := t.count + n, base := if path == [] then t.base + n else t.base), path, n)
  }

  function AddStack(head: Tree, s: Stack): Tree {
    Insert(head.(count := head.count + s.count), s.path, s.count)
  }

  function Build(stacks: seq<Stack>): Tree {
    if stacks == [] then EMPTY else AddStack(Build(stacks[..|stacks| - 1]), stacks[|stacks| - 1])
  }

  // ---------------------------------------------------------------- lookup by path

  function At(t: Tree, path: seq<string>): Option<Tree> {
    if path == [] then Some(t)
    else
      var i := Find(t.frames, path[0]);
      if i < |t.frames| then At(t.frames[i], path[1..]) else None
  }

  /** The counts at a path; a missing node has none. */
  function BaseAt(t: Tree, path: seq<string>): int {
    var n := At(t, path);
    if n.Some? then n.value.base else 0
  }

  function CountAt(t: Tree, path: seq<string>): int {
    var n := At(t, path);
    if n.Some? then n.value.count else 0
  }

  lemma {:induction false} FindAfterPut(t: Tree, c: Tree, name: string)
    ensures var t' := PutChild(t, c);
      && (name == c.name ==> Find(t'.frames, name) < |t'.frames| && t'.frames[Find(t'.frames, name)] == c)
      && (name != c.name ==>
            if Find(t.frames, name) < |t.frames|
            then Find(t'.frames, name) < |t'.frames| && t'.frames[Find(t'.frames, name)]
                == t.frames[Find(t.frames, name)]
            else Find(t'.frames, name) == |t'.frames|)
  {
    var t' := PutChild(t, c);
    var k, i, j := Find(t'.frames, name), Find(t.frames, name), Find(t.frames, c.name);
    if name == c.name {
      assert j < |t'.frames| && t'.frames[j] == c;
    } else if i < |t.frames| {
      assert t'.frames[i] == t.frames[i];
    }
  }

  lemma {:induction false} TailsCompare(p: seq<string>, q: seq<string>)
    requires p != [] && q != [] && p[0] == q[0]
    ensures p == q <==> p[1..] == q[1..]
    ensures p <= q <==> p[1..] <= q[1..]
    ensures p < q <==> p[1..] < q[1..]
  {
    assert p == [p[0]] + p[1..] && q == [q[0]] + q[1..];
  }

  /** What one insertion changes: exactly the frames on the path. */
  lemma {:induction false} InsertAt(t: Tree, path: seq<string>, n: int, q: seq<string>)
    requires q != []
    ensures At(Insert(t, path, n), q).Some? <==> q <= path || At(t, q).Some?
    ensures BaseAt(Insert(t, path, n), q) == BaseAt(t, q) + (if q == path then n else 0)
    ensures CountAt(Insert(t, path, n), q) == CountAt(t, q) + (if q <= path then n else 0)
    decreases |path|, 0
  {
    if path != [] {
      var child := ChildOrNew(t, path[0]);
      FindAfterPut(t, Absorb(child, path[1..], n), q[0]);
      if q[0] == path[0] {
        TailsCompare(q, path);
        AbsorbAt(child, path[1..], n, q[1..]);
        CountsBelowChild(t, q);
      }
    }
  }

  lemma {:induction false} AbsorbAt(t: Tree, path: seq<string>, n: int, q: seq<string>)
    ensures At(Absorb(t, path, n), q).Some? <==> q <= path || At(t, q).Some?
    ensures BaseAt(Absorb(t, path, n), q) == BaseAt(t, q) + (if q == path then n else 0)
    ensures CountAt(Absorb(t, path, n), q) == CountAt(t, q) + (if q <= path then n else 0)
    decreases |path|, 1
  {
    if q != [] {
      var t' := t.(count := t.count + n, base := if path == [] then t.base + n else t.base);
      InsertAt(t', path, n, q);
      AtIgnoresCounts(t, t', q);
    }
  }

  lemma {:induction false} CountsBelowChild(t: Tree, q: seq<string>)
    requires q != []
    ensures BaseAt(t, q) == BaseAt(ChildOrNew(t, q[0]), q[1..])
    ensures CountAt(t, q) == CountAt(ChildOrNew(t, q[0]), q[1..])
    ensures At(t, q).Some? ==> At(ChildOrNew(t, q[0]), q[1..]).Some?
    ensures At(ChildOrNew(t, q[0]), q[1..]).Some? ==> At(t, q).Some? || q[1..] == []
  {
  }

  lemma {:induction false} AtIgnoresCounts(t: Tree, t': Tree, q: seq<string>)
    requires t.frames == t'.frames && q != []
    ensures At(t, q) == At(t', q)
  {
  }

  // ---------------------------------------------------------------- the multiset of stacks

  function SumEqual(stacks: seq<Stack>, p: seq<string>): int {
    if stacks == [] then 0
    else SumEqual(stacks[..|stacks| - 1], p)
         + (if stacks[|stacks| - 1].path == p then stacks[|stacks| - 1].count else 0)
  }

  function SumPrefix(stacks: seq<Stack>, p: seq<string>): int {
    if stacks == [] then 0
    else SumPrefix(stacks[..|stacks| - 1], p)
         + (if p <= stacks[|stacks| - 1].path then stacks[|stacks| - 1].count else 0)
  }

  predicate SomePrefix(stacks: seq<Stack>, p: seq<string>) {
    exists k :: 0 <= k < |stacks| && p <= stacks[k].path
  }

  lemma {:induction false} SomePrefixOfLast(stacks: seq<Stack>, p: seq<string>)
    requires stacks != []
    ensures SomePrefix(stacks, p) <==> SomePrefix(stacks[..|stacks| - 1], p) || p <= stacks[|stacks| - 1].path
  {
    var init := stacks[..|stacks| - 1];
    if SomePrefix(init, p) {
      var k :| 0 <= k < |init| && p <= init[k].path;
      assert stacks[k] == init[k];
    }
  }

  /** After any sequence of add_stack calls, with any counts: there is a node at a path exactly when the
      path is a prefix of some stack; its base_count sums the stacks equal to the path and its count sums
      the stacks the path is a prefix of. */
  lemma {:induction false} TrieIsMultiset(stacks: seq<Stack>, p: seq<string>)
    requires p != []
    ensures At(Build(stacks), p).Some? <==> SomePrefix(stacks, p)
    ensures BaseAt(Build(stacks), p) == SumEqual(stacks, p)
    ensures CountAt(Build(stacks), p) == SumPrefix(stacks, p)
  {
    if stacks != [] {
      var init, last := stacks[..|stacks| - 1], stacks[|stacks| - 1];
      TrieIsMultiset(init, p);
      var head := Build(init).(count := Build(init).count + last.count);
      InsertAt(head, last.path, last.count, p);
      AtIgnoresCounts(Build(init), head, p);
      SomePrefixOfLast(stacks, p);
    }
  }

  /** The head is called "all", counts every stack, empty ones included, and has no samples of its own. */
  lemma {:induction false} HeadCountsAll(stacks: seq<Stack>)
    ensures Build(stacks).name == "all" && Build(stacks).base == 0
    ensures Build(stacks).count == SumPrefix(stacks, [])
  {
    if stacks != [] {
      HeadCountsAll(stacks[..|stacks| - 1]);
    }
  }

  // ---------------------------------------------------------------- order and distinctness of siblings

  function Names(frames: seq<Tree>): seq<string> {
    seq(|frames|, i requires 0 <= i < |frames| => frames[i].name)
  }

  /** The names that follow `p` in some stack, in the order in which stacks first show them. */
  function FirstSeen(stacks: seq<Stack>, p: seq<string>): seq<string> {
    if stacks == [] then []
    else
      var before, s := FirstSeen(stacks[..|stacks| - 1], p), stacks[|stacks| - 1].path;
      Extended(before, s, p)
  }

  function NamesAt(t: Tree, path: seq<string>): seq<string> {
    var n := At(t, path);
    if n.Some? then Names(n.value.frames) else []
  }

  lemma {:induction false} NamesAfterPut(t: Tree, c: Tree)
    ensures Names(PutChild(t, c).frames) ==
            Names(t.frames) + (if c.name in Names(t.frames) then [] else [c.name])
  {
    var i := Find(t.frames, c.name);
    if i < |t.frames| {
      assert Names(t.frames)[i] == c.name;
    }
  }

  /** The names after one more stack. */
  function Extended(before: seq<string>, path: seq<string>, q: seq<string>): seq<string> {
    if q < path && path[|q|] !in before then before + [path[|q|]] else before
  }

  /** The names below `q` when its first frame has been replaced. */
  lemma {:induction false} NamesBelowPut(t: Tree, c: Tree, q: seq<string>)
    requires q != []
    ensures NamesAt(PutChild(t, c), q) == if q[0] == c.name then NamesAt(c, q[1..]) else NamesAt(t, q)
  {
    FindAfterPut(t, c, q[0]);
  }

  lemma {:induction false} NamesBelowChild(t: Tree, q: seq<string>)
    requires q != []
    ensures NamesAt(t, q) == NamesAt(ChildOrNew(t, q[0]), q[1..])
  {
    if Find(t.frames, q[0]) == |t.frames| {
      if q[1..] == [] {
        assert Names([]) == [];
      }
    }
  }

  lemma {:induction false} InsertNames(t: Tree, path: seq<string>, n: int, q: seq<string>)
    ensures NamesAt(Insert(t, path, n), q) == Extended(NamesAt(t, q), path, q)
    decreases |path|, 0
  {
    if path != [] {
      var child := ChildOrNew(t, path[0]);
      var child2 := Absorb(child, path[1..], n);
      if q == [] {
        NamesAfterPut(t, child2);
      } else {
        NamesBelowPut(t, child2, q);
        if q[0] == path[0] {
          TailsCompare(q, path);
          AbsorbNames(child, path[1..], n, q[1..]);
          NamesBelowChild(t, q);
        }
      }
    }
  }

  lemma {:induction false} AbsorbNames(t: Tree, path: seq<string>, n: int, q: seq<string>)
    ensures NamesAt(Absorb(t, path, n), q) == Extended(NamesAt(t, q), path, q)
    decreases |path|, 1
  {
    var t' := t.(count := t.count + n, base := if path == [] then t.base + n else t.base);
    InsertNames(t', path, n, q);
    if q != [] {
      AtIgnoresCounts(t, t', q);
    }
  }

  lemma {:induction false} AddStackNames(head: Tree, s: Stack, q: seq<string>)
    ensures NamesAt(AddStack(head, s), q) == Extended(NamesAt(head, q), s.path, q)
  {
    var head' := head.(count := head.count + s.count);
    InsertNames(head', s.path, s.count, q);
    if q != [] {
      AtIgnoresCounts(head, head', q);
    }
  }

  /** Below every node the children are the names that continue its path, each once, in the order in which
      the stacks first showed them. With TrieIsMultiset this determines the tree. */
  lemma {:induction false} SiblingsInFirstSeenOrder(stacks: seq<Stack>, p: seq<string>)
    ensures NamesAt(Build(stacks), p) == FirstSeen(stacks, p)
    ensures forall i, j :: 0 <= i < j < |FirstSeen(stacks, p)| ==> FirstSeen(stacks, p)[i] != FirstSeen(stacks, p)[j]
  {
    if stacks != [] {
      var init, last := stacks[..|stacks| - 1], stacks[|stacks| - 1];
      SiblingsInFirstSeenOrder(init, p);
      AddStackNames(Build(init), last, p);
    } else if p != [] {
      assert At(EMPTY, p).None?;
    }
  }

  // ---------------------------------------------------------------- counts add up

  function SumCounts(frames: seq<Tree>): int {
    if frames == [] then 0 else SumCounts(frames[..|frames| - 1]) + frames[|frames| - 1].count
  }

  predicate DistinctNames(frames: seq<Tree>) {
    forall i, j :: 0 <= i < j < |frames| ==> frames[i].name != frames[j].name
  }

  /** In a whole subtree: siblings have distinct names, and a node counts its own samples and its children's. */
  predicate Consistent(t: Tree) {
    && t.count == t.base + SumCounts(t.frames)
    && DistinctNames(t.frames)
    && forall c <- t.frames :: Consistent(c)
  }

  /** The head may count more: stacks without frames. */
  predicate ConsistentHead(t: Tree) {
    && DistinctNames(t.frames)
    && forall c <- t.frames :: Consistent(c)
  }

  lemma {:induction false} SumAfterUpdate(frames: seq<Tree>, i: nat, c: Tree)
    requires i < |frames|
    ensures SumCounts(frames[i := c]) == SumCounts(frames) - frames[i].count + c.count
  {
    var n := |frames| - 1;
    if i < n {
      SumAfterUpdate(frames[..n], i, c);
      assert frames[i := c][..n] == frames[..n][i := c];
    } else {
      assert frames[i := c][..n] == frames[..n];
    }
  }

  lemma {:induction false} SumAfterPut(t: Tree, c: Tree)
    ensures SumCounts(PutChild(t, c).frames) == SumCounts(t.frames) + c.count - ChildOrNew(t, c.name).count
  {
    var i := Find(t.frames, c.name);
    if i < |t.frames| {
      SumAfterUpdate(t.frames, i, c);
    } else {
      assert (t.frames + [c])[..|t.frames|] == t.frames;
    }
  }

  lemma {:induction false} InsertKeepsConsistent(t: Tree, path: seq<string>, n: int)
    requires ConsistentHead(t)
    ensures ConsistentHead(Insert(t, path, n))
    ensures path != [] ==> SumCounts(Insert(t, path, n).frames) == SumCounts(t.frames) + n
    decreases |path|
  {
    if path != [] {
      var child := ChildOrNew(t, path[0]);
      assert Consistent(child);
      var child1 := child.(count := child.count + n, base := if path[1..] == [] then child.base + n else child.base);
      var child2 := Absorb(child, path[1..], n);
      InsertKeepsConsistent(child1, path[1..], n);
      assert Consistent(child2);
      SumAfterPut(t, child2);
    }
  }

  /** Every reachable tree: distinct siblings everywhere, and below the head every count is the node's own
      samples plus its children's counts. */
  lemma {:induction false} BuiltIsConsistent(stacks: seq<Stack>)
    ensures ConsistentHead(Build(stacks))
  {
    if stacks != [] {
      var init, last := stacks[..|stacks| - 1], stacks[|stacks| - 1];
      BuiltIsConsistent(init);
      InsertKeepsConsistent(Build(init).(count := Build(init).count + last.count), last.path, last.count);
    }
  }
}
