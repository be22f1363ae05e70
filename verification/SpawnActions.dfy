/** The spawn file-action list of glibc-compatibility/glibc-compatibility.c: nodes on the heap, added in front, freed
    by destroy. */
module SpawnActions {

  const FDOP_CLOSE := 1
  const FDOP_DUP2 := 2
  const FDOP_OPEN := 3
  const FDOP_CHDIR := 4
  const FDOP_FCHDIR := 5

  const OK := 0
  const EBADF := 9
  const ENOMEM := 12

  /** What a node asks for. */
  datatype Action =
    | Close(fd: int)
    | Dup2(srcfd: int, fd: int)
    | Open(fd: int, path: string, oflag: int, mode: int)
    | Chdir(path: string)
    | Fchdir(fd: int)
    | Unknown

  class Fdop {
    var next: Fdop?
    var prev: Fdop?
    var cmd: int
    var fd: int
    var srcfd: int
    var oflag: int
    var mode: int
    var path: string
    ghost var freed: bool

    ghost function Means(): Action
      reads this`cmd, this`fd, this`srcfd, this`oflag, this`mode, this`path
    {
      if cmd == FDOP_CLOSE then Close(fd)
      else if cmd == FDOP_DUP2 then Dup2(srcfd, fd)
      else if cmd == FDOP_OPEN then Open(fd, path, oflag, mode)
      else if cmd == FDOP_CHDIR then Chdir(path)
      else if cmd == FDOP_FCHDIR then Fchdir(fd)
      else Unknown
    }

    /** malloc: the fields hold anything. */
    constructor ()
      ensures !freed
    {
      freed := false;
    }

    /** Reading a field of a node is allowed only until it is freed. */
    method Next() returns (n: Fdop?)
      requires !freed
      ensures n == next
    {
      n := next;
    }

    method Free()
      requires !freed
      modifies this`freed
      ensures freed
    {
      freed := true;
    }
  }

  /** From `first` the links lead through the nodes to null, each node's prev being the node before. */
  ghost predicate Chained(nodes: seq<Fdop>, first: Fdop?, before: Fdop?)
    reads nodes`next, nodes`prev, nodes`freed
  {
    if nodes == [] then first == null
    else
      && first == nodes[0] && !nodes[0].freed && nodes[0].prev == before
      && Chained(nodes[1..], nodes[0].next, nodes[0])
  }

  class FileActions {
    var actions: Fdop?
    ghost var nodes: seq<Fdop>

    /** The list from `actions` is acyclic, ends in null both ways, and prev undoes next; no node of it is freed. */
    ghost predicate Valid()
      reads this, nodes`next, nodes`prev, nodes`freed
    {
      && Chained(nodes, actions, null)
      && forall i, j :: 0 <= i < j < |nodes| ==> nodes[i] != nodes[j]
    }

    /** The actions the list holds, in list order. */
    ghost function Contents(): (s: seq<Action>)
      reads this`nodes, nodes`cmd, nodes`fd, nodes`srcfd, nodes`oflag, nodes`mode, nodes`path
    {
      MeaningsOf(nodes)
    }

    /** posix_spawn_file_actions_init */
    constructor ()
      ensures Valid() && Contents() == []
    {
      actions, nodes := null, [];
    }
  }

  ghost function MeaningsOf(nodes: seq<Fdop>): (s: seq<Action>)
    reads nodes`cmd, nodes`fd, nodes`srcfd, nodes`oflag, nodes`mode, nodes`path
    ensures |s| == |nodes| && forall i :: 0 <= i < |s| ==> s[i] == nodes[i].Means()
  {
    if nodes == [] then [] else [nodes[0].Means()] + MeaningsOf(nodes[1..])
  }

  lemma {:induction false} Unfold(nodes: seq<Fdop>, first: Fdop?)
    requires Chained(nodes, first, null) && forall i, j :: 0 <= i < j < |nodes| ==> nodes[i] != nodes[j]
    ensures if nodes == [] then first == null
            else first == nodes[0] && !nodes[0].freed && nodes[0] !in nodes[1..]
                 && Chained(nodes[1..], nodes[0].next, nodes[0])
  {
  }

  lemma {:induction false} Fold(nodes: seq<Fdop>, before: Fdop?)
    requires nodes != [] && !nodes[0].freed && nodes[0].prev == before && Chained(nodes[1..], nodes[0].next, nodes[0])
    ensures Chained(nodes, nodes[0], before)
  {
  }

  lemma {:induction false} NothingChained(before: Fdop?)
    ensures Chained([], null, before)
  {
  }

  lemma {:induction false} MeaningsOfMore(op: Fdop, nodes: seq<Fdop>)
    ensures MeaningsOf([op] + nodes) == [op.Means()] + MeaningsOf(nodes)
  {
  }

  /** The lines every add function ends with: the filled-in node goes to the front. */
  method PushFront(fa: FileActions, op: Fdop)
    requires fa.Valid() && op !in fa.nodes && !op.freed
    modifies fa, op`next, op`prev, fa.nodes`prev
    ensures fa.Valid() && fa.nodes == [op] + old(fa.nodes)
    ensures fa.Contents() == [old(op.Means())] + old(fa.Contents())
  {
    hide Fdop.Means, Chained, MeaningsOf;
    ghost var was := fa.nodes;
    Unfold(was, fa.actions);
    op.next := fa.actions;
    if op.next != null {
      op.next.prev := op;
    }
    op.prev := null;
    fa.actions := op;
    fa.nodes := [op] + fa.nodes;
    if was == [] {
      NothingChained(op);
    } else {
      Fold(was, op);
    }
    assert fa.nodes[1..] == was;
    Fold(fa.nodes, null);
    MeaningsOfMore(op, was);
  }

  /** posix_spawn_file_actions_addchdir_np; `memory` tells whether malloc finds any. */
  method AddChdir(fa: FileActions, path: string, memory: bool) returns (code: int)
    requires fa.Valid()
    modifies fa, fa.nodes`prev
    ensures fa.Valid() && code == if !memory then 12 else 0
    ensures code != 0 ==> fa.nodes == old(fa.nodes) && fa.Contents() == old(fa.Contents())
    ensures code == 0 ==>
      && fa.nodes != [] && fresh(fa.nodes[0]) && fa.nodes[1..] == old(fa.nodes)
      && fa.Contents() == [Chdir(path)] + old(fa.Contents())
      && fa.nodes[0].cmd == 4 && fa.nodes[0].fd == -1 && fa.nodes[0].path == path
  {
    hide FileActions.Valid, FileActions.Contents;
    if !memory {
      return ENOMEM;
    }
    var op := new Fdop();
    op.cmd := FDOP_CHDIR;
    op.fd := -1;
    op.path := path;
    PushFront(fa, op);
    return OK;
  }

  /** posix_spawn_file_actions_addclose */
  method AddClose(fa: FileActions, fd: int, memory: bool) returns (code: int)
    requires fa.Valid()
    modifies fa, fa.nodes`prev
    ensures fa.Valid() && code == if fd < 0 then 9 else if !memory then 12 else 0
    ensures code != 0 ==> fa.nodes == old(fa.nodes) && fa.Contents() == old(fa.Contents())
    ensures code == 0 ==>
      && fa.nodes != [] && fresh(fa.nodes[0]) && fa.nodes[1..] == old(fa.nodes)
      && fa.Contents() == [Close(fd)] + old(fa.Contents())
      && fa.nodes[0].cmd == 1 && fa.nodes[0].fd == fd
  {
    hide FileActions.Valid, FileActions.Contents;
    if fd < 0 {
      return EBADF;
    }
    if !memory {
      return ENOMEM;
    }
    var op := new Fdop();
    op.cmd := FDOP_CLOSE;
    op.fd := fd;
    PushFront(fa, op);
    return OK;
  }

  /** posix_spawn_file_actions_adddup2 */
  method AddDup2(fa: FileActions, srcfd: int, fd: int, memory: bool) returns (code: int)
    requires fa.Valid()
    modifies fa, fa.nodes`prev
    ensures fa.Valid() && code == if srcfd < 0 || fd < 0 then 9 else if !memory then 12 else 0
    ensures code != 0 ==> fa.nodes == old(fa.nodes) && fa.Contents() == old(fa.Contents())
    ensures code == 0 ==>
      && fa.nodes != [] && fresh(fa.nodes[0]) && fa.nodes[1..] == old(fa.nodes)
      && fa.Contents() == [Dup2(srcfd, fd)] + old(fa.Contents())
      && fa.nodes[0].cmd == 2 && fa.nodes[0].srcfd == srcfd && fa.nodes[0].fd == fd
  {
    hide FileActions.Valid, FileActions.Contents;
    if srcfd < 0 || fd < 0 {
      return EBADF;
    }
    if !memory {
      return ENOMEM;
    }
    var op := new Fdop();
    op.cmd := FDOP_DUP2;
    op.srcfd := srcfd;
    op.fd := fd;
    PushFront(fa, op);
    return OK;
  }

  /** posix_spawn_file_actions_addfchdir_np */
  method AddFchdir(fa: FileActions, fd: int, memory: bool) returns (code: int)
    requires fa.Valid()
    modifies fa, fa.nodes`prev
    ensures fa.Valid() && code == if fd < 0 then 9 else if !memory then 12 else 0
    ensures code != 0 ==> fa.nodes == old(fa.nodes) && fa.Contents() == old(fa.Contents())
    ensures code == 0 ==>
      && fa.nodes != [] && fresh(fa.nodes[0]) && fa.nodes[1..] == old(fa.nodes)
      && fa.Contents() == [Fchdir(fd)] + old(fa.Contents())
      && fa.nodes[0].cmd == 5 && fa.nodes[0].fd == fd
  {
    hide FileActions.Valid, FileActions.Contents;
    if fd < 0 {
      return EBADF;
    }
    if !memory {
      return ENOMEM;
    }
    var op := new Fdop();
    op.cmd := FDOP_FCHDIR;
    op.fd := fd;
    PushFront(fa, op);
    return OK;
  }

  /** posix_spawn_file_actions_addopen */
  method AddOpen(fa: FileActions, fd: int, path: string, flags: int, mode: int, memory: bool) returns (code: int)
    requires fa.Valid()
    modifies fa, fa.nodes`prev
    ensures fa.Valid() && code == if fd < 0 then 9 else if !memory then 12 else 0
    ensures code != 0 ==> fa.nodes == old(fa.nodes) && fa.Contents() == old(fa.Contents())
    ensures code == 0 ==>
      && fa.nodes != [] && fresh(fa.nodes[0]) && fa.nodes[1..] == old(fa.nodes)
      && fa.Contents() == [Open(fd, path, flags, mode)] + old(fa.Contents())
      && fa.nodes[0].cmd == 3 && fa.nodes[0].fd == fd && fa.nodes[0].path == path
      && fa.nodes[0].oflag == flags && fa.nodes[0].mode == mode
  {
    hide FileActions.Valid, FileActions.Contents;
    if fd < 0 {
      return EBADF;
    }
    if !memory {
      return ENOMEM;
    }
    var op := new Fdop();
    op.cmd := FDOP_OPEN;
    op.fd := fd;
    op.oflag := flags;
    op.mode := mode;
    op.path := path;
    PushFront(fa, op);
    return OK;
  }

  /** posix_spawn_file_actions_destroy: every node is freed, each once and none read after that; the pointer in the
      structure is left as it is. */
  method Destroy(fa: FileActions)
    requires fa.Valid()
    modifies fa.nodes`freed
    ensures forall n <- fa.nodes :: n.freed
    ensures fa.actions == old(fa.actions)
  {
    var op := fa.actions;
    ghost var k, before: Fdop? := 0, null;
    assert fa.nodes[0..] == fa.nodes;
    while op != null
      invariant k <= |fa.nodes| && Chained(fa.nodes[k..], op, before)
      invariant forall i :: 0 <= i < k ==> fa.nodes[i].freed
      decreases |fa.nodes| - k
    {
      assert fa.nodes[k..][1..] == fa.nodes[k + 1..] && op == fa.nodes[k] && op !in fa.nodes[k + 1..];
      var next := op.Next();
      op.Free();
      before := op;
      op := next;
      k := k + 1;
    }
  }

  // ---------------------------------------------------------------- what the list looks like

  /** The links: following next from the front goes through the nodes one by one and ends, prev undoes next, and the
      first node has no prev. */
  lemma {:induction false} LinksAt(nodes: seq<Fdop>, first: Fdop?, before: Fdop?, i: nat)
    requires Chained(nodes, first, before) && i < |nodes|
    ensures nodes[i].next == if i + 1 < |nodes| then nodes[i + 1] else null
    ensures nodes[i].prev == if i > 0 then nodes[i - 1] else before
  {
    if i > 0 {
      LinksAt(nodes[1..], nodes[0].next, nodes[0], i - 1);
    }
  }

  /** The result of an add function: descriptors must not be negative, and malloc must find memory. */
  function Code(a: Action, memory: bool): int {
    if Refused(a) then EBADF else if memory then OK else ENOMEM
  }

  predicate Refused(a: Action) {
    match a
    case Close(fd) => fd < 0
    case Dup2(srcfd, fd) => srcfd < 0 || fd < 0
    case Open(fd, _, _, _) => fd < 0
    case Chdir(_) => false
    case Fchdir(fd) => fd < 0
    case Unknown => true
  }

  function After(list: seq<Action>, a: Action, memory: bool): seq<Action> {
    if Code(a, memory) == OK then [a] + list else list
  }

  /** One call of an add function. */
  datatype Call = Call(action: Action, memory: bool)

  /** The actions of the calls that returned 0, in the order of the calls. */
  function Accepted(calls: seq<Call>): seq<Action> {
    if calls == [] then []
    else Accepted(calls[..|calls| - 1])
         + (var last := calls[|calls| - 1]; if Code(last.action, last.memory) == OK then [last.action] else [])
  }

  function Reversed(s: seq<Action>): (r: seq<Action>)
    ensures |r| == |s| && forall i :: 0 <= i < |s| ==> r[i] == s[|s| - 1 - i]
  {
    if s == [] then [] else [s[|s| - 1]] + Reversed(s[..|s| - 1])
  }

  /** Any sequence of calls of the five functions on a new list: it ends up valid, holding exactly the accepted actions,
      the latest first. */
  method AddAll(fa: FileActions, calls: seq<Call>)
    requires fa.Valid() && fa.nodes == [] && forall c <- calls :: !c.action.Unknown?
    modifies fa
    ensures fa.Valid() && fa.Contents() == Reversed(Accepted(calls))
    ensures forall n <- fa.nodes :: fresh(n)
  {
    hide FileActions.Valid, FileActions.Contents;
    EmptyHoldsNothing(fa);
    for k := 0 to |calls|
      invariant fa.Valid() && fa.Contents() == Reversed(Accepted(calls[..k]))
      invariant forall i :: 0 <= i < |fa.nodes| ==> fresh(fa.nodes[i])
    {
      AcceptedStep(calls, k);
      Add(fa, calls[k]);
    }
    assert calls[..|calls|] == calls;
  }

  lemma {:induction false} EmptyHoldsNothing(fa: FileActions)
    requires fa.nodes == []
    ensures fa.Contents() == []
  {
  }

  lemma {:induction false} AcceptedStep(calls: seq<Call>, k: nat)
    requires k < |calls|
    ensures Reversed(Accepted(calls[..k + 1]))
         == After(Reversed(Accepted(calls[..k])), calls[k].action, calls[k].memory)
  {
    assert calls[..k + 1][..k] == calls[..k];
    var before := Accepted(calls[..k]);
    assert (before + [calls[k].action])[..|before|] == before;
  }

  method Add(fa: FileActions, call: Call)
    requires fa.Valid() && !call.action.Unknown?
    modifies fa, fa.nodes`prev
    ensures fa.Valid() && fa.Contents() == After(old(fa.Contents()), call.action, call.memory)
    ensures fa.nodes == old(fa.nodes) || (fa.nodes != [] && fresh(fa.nodes[0]) && fa.nodes[1..] == old(fa.nodes))
  {
    hide FileActions.Valid, FileActions.Contents;
    var code;
    match call.action
    case Close(fd) => code := AddClose(fa, fd, call.memory);
    case Dup2(srcfd, fd) => code := AddDup2(fa, srcfd, fd, call.memory);
    case Open(fd, path, oflag, mode) => code := AddOpen(fa, fd, path, oflag, mode, call.memory);
    case Chdir(path) => code := AddChdir(fa, path, call.memory);
    case Fchdir(fd) => code := AddFchdir(fa, fd, call.memory);
  }
}
