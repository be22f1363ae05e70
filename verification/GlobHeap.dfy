/** glob and match_in_dir of glibc-compatibility/musl/glob.c in place: the list of matches that grows at its tail,
    errno, and the result vector. */
module GlobHeap {
  import opened Text
  import opened Glob

  class Match {
    var next: Match?
    const name: string

    constructor (name: string)
      ensures this.name == name && next == null
    {
      this.name := name;
      next := null;
    }
  }

  class Errno {
    var errno: int
  }

  /** The list behind `head`, and its tail pointer. */
  class MatchList {
    var head: Match
    var tail: Match
    ghost var nodes: seq<Match>
    ghost var names: seq<string>   // in list order, the head itself holding none

    ghost predicate Valid()
      reads this, nodes
    {
      && nodes != [] && names == NamesOf(nodes[1..]) && head == nodes[0] && tail == nodes[|nodes| - 1]
          && tail.next == null
      && (forall i :: 0 <= i < |nodes| - 1 ==> nodes[i].next == nodes[i + 1])
      && (forall i, j :: 0 <= i < j < |nodes| ==> nodes[i] != nodes[j])
    }

    constructor ()
      ensures Valid() && names == [] && fresh(nodes[0]) && |nodes| == 1
    {
      var m := new Match("");
      head, tail, nodes, names := m, m, [m], [];
    }
  }

  function NamesOf(nodes: seq<Match>): (names: seq<string>)
    ensures |names| == |nodes| && forall i :: 0 <= i < |names| ==> names[i] == nodes[i].name
  {
    seq(|nodes|, i requires 0 <= i < |nodes| => nodes[i].name)
  }

  /** append */
  method Append(list: MatchList, name: string, mark: bool)
    requires list.Valid()
    modifies list, list.tail`next
    ensures list.Valid() && list.names == old(list.names) + [if mark then name + "/" else name]
    ensures list.head == old(list.head) && |list.nodes| == old(|list.nodes|) + 1 && fresh(list.nodes[|list.nodes| - 1])
    ensures list.nodes[..|list.nodes| - 1] == old(list.nodes)
  {
    var m := new Match(if mark then name + "/" else name);
    list.tail.next := m;
    list.tail := m;
    list.nodes, list.names := list.nodes + [m], list.names + [m.name];
  }

  /** The list after a walk: what it held, and what the walk found; errno as the walk leaves it. */
  twostate predicate Walked(list: MatchList, env: Errno, code: int, w: Walk)
    reads list, list.nodes, env
  {
    && list.Valid() && list.head == old(list.head)
    && (list.tail == old(list.tail) || fresh(list.tail))
    && code == w.code && list.names == old(list.names) + w.out && env.errno == w.errno
  }

  /** stat(name, &st); S_ISDIR(st.st_mode): the result of stat is not looked at. */
  method StatIsDir(fs: Fs, name: string, env: Errno) returns (dir: bool)
    modifies env
    ensures dir == IsDir(fs.stat(name)) && env.errno == AfterStat(fs.stat(name), old(env.errno))
  {
    match fs.stat(name)
    case Gone(errno, left) =>
      env.errno := errno;
      dir := left;
    case Found(d) =>
      dir := d;
  }

  /** !stat(d, &st) && S_ISDIR(st.st_mode) */
  method StatFinds(fs: Fs, d: string, env: Errno) returns (dir: bool)
    modifies env
    ensures dir == (fs.stat(d) == Found(true)) && env.errno == AfterStat(fs.stat(d), old(env.errno))
  {
    match fs.stat(d)
    case Gone(errno, _) =>
      env.errno := errno;
      dir := false;
    case Found(found) =>
      dir := found;
  }

  /** One turn of the readdir loop. `error` is the variable of match_in_dir, in which a recursive call leaves its
      result. */
  method TakeEntry(fs: Fs, on: Options, d: string, pat: string, p2: Option<string>, e: Entry, list: MatchList,
                   env: Errno, error0: int)
    returns (code: int, error: int)
    requires list.Valid() && (p2.Some? ==> Rest(p2.value))
    modifies list, list.tail`next, env
    ensures var comps := [pat] + if p2.None? then [] else Components(p2.value);
      && Walked(list, env, code, MatchEntry(fs, on, d, comps, e, old(env.errno)))
      && error == if ErrnoKept(on, comps, [e]) then error0 else code
    decreases (if p2.None? then 0 else |p2.value| + 1), 1
  {
    ghost var comps := [pat] + if p2.None? then [] else Components(p2.value);
    assert e in [e];
    error := error0;
    if !Matches(on, pat, e.name) {
      return 0, error;
    }
    if p2.Some? && e.kind.OtherKind? {
      return 0, error;
    }
    if p2.Some? && on.period && (e.name == "." || e.name == "..") && !on.fnMatch(pat, e.name, true) {
      return 0, error;
    }
    var name := Child(d, e.name);
    if p2.Some? {
      assert comps[1..] == Components(p2.value);
      error := MatchInDir(fs, on, name, p2.value, list, env);
      code := error;
    } else {
      var mark := false;
      if on.mark {
        if e.kind.Unknown? || e.kind.Link? {
          mark := StatIsDir(fs, name, env);
        } else {
          mark := e.kind.Directory?;
        }
      }
      Append(list, name, mark);
      code := 0;
    }
  }

  /** match_in_dir, on a pattern whose leading slashes have been passed over. */
  method MatchInDir(fs: Fs, on: Options, d: string, p: string, list: MatchList, env: Errno) returns (code: int)
    requires list.Valid() && Rest(p)
    modifies list, list.tail`next, env
    ensures Walked(list, env, code, MatchDir(fs, on, d, Components(p), old(env.errno)))
    decreases |p|, 3
  {
    hide Takes, MatchList.Valid, MatchEntries;
    var pat, p2 := UpToSlash(p), None;
    if |pat| < |p| {
      p2 := Some(SkipSlashes(p[|pat|..]));
    }
    ghost var comps := Components(p);
    assert p[..|p|] == p;
    assert comps == [pat] + if p2.None? then [] else Components(p2.value);
    assert list.names + [] == list.names;
    var mark := d != "" && d != "/";
    var dir := Open(fs, d);
    if dir.Failed? {
      env.errno := dir.errno;
      if dir.errno == ENOTDIR {
        return 0;
      }
      if dir.errno == EACCES && p == "" {
        var found := StatFinds(fs, d, env);
        if found {
          Append(list, d, mark);
          return 0;
        }
      }
      return if on.errFunc(d, dir.errno) || on.err then GLOB_ABORTED else 0;
    }
    var error := env.errno;
    if p == "" {
      Append(list, d, mark);
      return 0;
    }
    code, error := TakeEntries(fs, on, d, pat, p2, dir.es, list, env, error);
    if code == 0 && error != 0 && (on.errFunc(d, error) || on.err) {
      code := GLOB_ABORTED;
    }
  }

  /** The readdir loop. */
  method TakeEntries(fs: Fs, on: Options, d: string, pat: string, p2: Option<string>, es: seq<Entry>,
                     list: MatchList, env: Errno, error0: int)
    returns (code: int, error: int)
    requires list.Valid() && (p2.Some? ==> Rest(p2.value))
    modifies list, list.tail`next, env
    ensures var comps := [pat] + if p2.None? then [] else Components(p2.value);
      && Walked(list, env, code, MatchEntries(fs, on, d, comps, es, old(env.errno)))
      && (code == 0 ==> error == if ErrnoKept(on, comps, es) then error0 else 0)
    decreases (if p2.None? then 0 else |p2.value| + 1), 2
  {
    hide MatchEntry, MatchEntries, Components, Takes, MatchList.Valid;
    ghost var comps := [pat] + if p2.None? then [] else Components(p2.value);
    ghost var all := MatchEntries(fs, on, d, comps, es, env.errno);
    ghost var names := list.names + all.out;
    assert es[0..] == es;
    code, error := 0, error0;
    for k := 0 to |es|
      invariant error == if ErrnoKept(on, comps, es[..k]) then error0 else 0
      invariant list.Valid() && list.head == old(list.head) && (list.tail == old(list.tail) || fresh(list.tail))
      invariant var rest := MatchEntries(fs, on, d, comps, es[k..], env.errno);
        code == 0 && all.code == rest.code && all.errno == rest.errno && list.names + rest.out == names
    {
      OneEntry(fs, on, d, comps, es, k, env.errno, list.names);
      KeptSoFar(on, comps, es, k);
      code, error := TakeEntry(fs, on, d, pat, p2, es[k], list, env, error);
      if code != 0 {
        return;
      }
    }
    assert es[|es|..] == [] && es[..|es|] == es && list.names + [] == list.names;
    NoEntries(fs, on, d, comps, env.errno);
  }

  lemma {:induction false} KeptSoFar(on: Options, comps: seq<string>, es: seq<Entry>, k: nat)
    requires comps != [] && k < |es|
    ensures ErrnoKept(on, comps, es[..k + 1]) <==> ErrnoKept(on, comps, es[..k]) && ErrnoKept(on, comps, [es[k]])
  {
    hide Takes;
    assert es[..k + 1] == es[..k] + [es[k]];
  }

  lemma {:induction false} NoEntries(fs: Fs, on: Options, d: string, comps: seq<string>, errno: int)
    requires comps != []
    ensures MatchEntries(fs, on, d, comps, [], errno) == Walk(0, [], errno)
  {
  }

  /** What entry `k` adds to what the earlier ones gave. */
  lemma {:induction false} OneEntry(fs: Fs, on: Options, d: string, comps: seq<string>, es: seq<Entry>, k: nat,
                                    errno: int, out: seq<string>)
    requires comps != [] && k < |es|
    ensures var first := MatchEntry(fs, on, d, comps, es[k], errno);
      var here := MatchEntries(fs, on, d, comps, es[k..], errno);
      var rest := MatchEntries(fs, on, d, comps, es[k + 1..], first.errno);
      if first.code != 0 then here == first
      else here.code == rest.code && here.errno == rest.errno && out + here.out == out + first.out + rest.out
  {
    assert es[k..][1..] == es[k + 1..] && es[k..][0] == es[k];
  }

  // ---------------------------------------------------------------- the result vector

  /** A slot of gl_pathv. */
  datatype Slot = Null | Name(name: string)

  datatype Flags = Flags(doOffs: bool, append: bool, noCheck: bool, noSort: bool)

  const PATH_MAX := 4096

  class GlobT {
    var offs: nat
    var pathc: nat
    var pathv: array?<Slot>
  }

  function Nulls(n: nat): (s: seq<Slot>)
    ensures |s| == n && forall i :: 0 <= i < n ==> s[i] == Null
  {
    seq(n, i => Null)
  }

  function Named(names: seq<string>): (s: seq<Slot>)
    ensures |s| == |names| && forall i :: 0 <= i < |names| ==> s[i] == Name(names[i])
  {
    seq(|names|, i requires 0 <= i < |names| => Name(names[i]))
  }

  /** The first `n` slots after realloc: what the old block held, then whatever the memory contains. */
  function Kept(block: seq<Slot>, n: nat, memory: nat -> Slot): (s: seq<Slot>)
    ensures |s| == n
  {
    seq(n, i requires 0 <= i < n => if i < |block| then block[i] else memory(i))
  }

  /** The names stand in ascending order. */
  predicate Ascending(names: seq<string>) {
    forall i, j :: 0 <= i < j < |names| ==> !NameLess(names[j], names[i])
  }

  function InsertAscending(sorted: seq<string>, name: string): (r: seq<string>)
    ensures multiset(r) == multiset(sorted) + multiset{name}
  {
    if sorted == [] then [name]
    else if NameLess(name, sorted[|sorted| - 1]) then
      assert sorted == sorted[..|sorted| - 1] + [sorted[|sorted| - 1]];
      InsertAscending(sorted[..|sorted| - 1], name) + [sorted[|sorted| - 1]]
    else sorted + [name]
  }

  /** What qsort with strcmp makes of the names. */
  function Sorted(names: seq<string>): (r: seq<string>)
    ensures multiset(r) == multiset(names)
  {
    if names == [] then []
    else
      assert names == names[..|names| - 1] + [names[|names| - 1]];
      InsertAscending(Sorted(names[..|names| - 1]), names[|names| - 1])
  }

  predicate NoneAbove(names: seq<string>, top: string) {
    forall i :: 0 <= i < |names| ==> !NameLess(top, names[i])
  }

  lemma {:induction false} InsertBelow(sorted: seq<string>, name: string, top: string)
    requires NoneAbove(sorted, top) && !NameLess(top, name)
    ensures NoneAbove(InsertAscending(sorted, name), top)
  {
    if sorted != [] && NameLess(name, sorted[|sorted| - 1]) {
      InsertBelow(sorted[..|sorted| - 1], name, top);
    }
  }

  lemma {:induction false} InsertKeepsOrder(sorted: seq<string>, name: string)
    requires Ascending(sorted)
    ensures Ascending(InsertAscending(sorted, name))
  {
    if sorted != [] {
      var init, last := sorted[..|sorted| - 1], sorted[|sorted| - 1];
      if NameLess(name, last) {
        InsertKeepsOrder(init, name);
        NameLessIsOrder(name, last, name);
        InsertBelow(init, name, last);
      } else {
        forall i | 0 <= i < |sorted|
          ensures !NameLess(name, sorted[i])
        {
          NameLessIsOrder(last, name, sorted[i]);
          NameLessIsOrder(name, sorted[i], last);
        }
      }
    }
  }

  lemma {:induction false} SortedIsAscending(names: seq<string>)
    ensures Ascending(Sorted(names)) && |Sorted(names)| == |names|
  {
    if names != [] {
      SortedIsAscending(names[..|names| - 1]);
      InsertKeepsOrder(Sorted(names[..|names| - 1]), names[|names| - 1]);
    }
    assert |multiset(Sorted(names))| == |multiset(names)|;
  }

  /** for (cnt=0, tail=head.next; tail; tail=tail->next, cnt++); */
  method Count(list: MatchList) returns (cnt: nat)
    requires list.Valid()
    ensures cnt == |list.names|
  {
    cnt := 0;
    var tail := list.head.next;
    while tail != null
      invariant cnt < |list.nodes| && tail == (if cnt + 1 < |list.nodes| then list.nodes[cnt + 1] else null)
      decreases |list.nodes| - cnt
    {
      tail := tail.next;
      cnt := cnt + 1;
    }
  }

  /** Node `i` of the list, the head being node 0. */
  lemma {:induction false} NodeAt(list: MatchList, i: nat)
    requires list.Valid() && i <= |list.names|
    ensures |list.nodes| == |list.names| + 1 && list.head == list.nodes[0]
    ensures list.nodes[i].next == if i + 1 < |list.nodes| then list.nodes[i + 1] else null
    ensures i > 0 ==> list.names[i - 1] == list.nodes[i].name
  {
  }

  /** The names go into the vector behind its first `offs` slots, and a null pointer behind them. */
  method Fill(list: MatchList, pathv: array<Slot>, offs: nat, cnt: nat)
    requires list.Valid() && cnt == |list.names| && pathv.Length == offs + cnt + 1
    modifies pathv
    ensures pathv[..] == old(pathv[..offs]) + Named(list.names) + [Null]
  {
    hide MatchList.Valid, NamesOf;
    NodeAt(list, 0);
    var tail := list.head.next;
    for i := 0 to cnt
      invariant |list.nodes| == cnt + 1 && tail == (if i < cnt then list.nodes[i + 1] else null)
      invariant forall j :: 0 <= j < offs ==> pathv[j] == old(pathv[j])
      invariant forall k :: offs <= k < offs + i ==> pathv[k] == Name(list.names[k - offs])
    {
      NodeAt(list, i + 1);
      pathv[offs + i] := Name(tail.name);
      tail := tail.next;
    }
    pathv[offs + cnt] := Null;
  }

  function NamesIn(slots: seq<Slot>): (names: seq<string>)
    ensures |names| == |slots|
    ensures forall i :: 0 <= i < |slots| ==> names[i] == if slots[i].Name? then slots[i].name else ""
  {
    seq(|slots|, i requires 0 <= i < |slots| => if slots[i].Name? then slots[i].name else "")
  }

  lemma {:induction false} NamesInNamed(names: seq<string>)
    ensures NamesIn(Named(names)) == names
  {
  }

  method WriteAt(pathv: array<Slot>, offs: nat, slots: seq<Slot>)
    requires offs + |slots| <= pathv.Length
    modifies pathv
    ensures pathv[..] == old(pathv[..offs]) + slots + old(pathv[offs + |slots|..])
  {
    forall i | 0 <= i < |slots| {
      pathv[offs + i] := slots[i];
    }
  }

  /** qsort(pathv + offs, cnt, ...) */
  method QSort(pathv: array<Slot>, offs: nat, cnt: nat)
    requires pathv.Length == offs + cnt + 1
    modifies pathv
    ensures var names := NamesIn(old(pathv[offs..offs + cnt]));
      pathv[..] == old(pathv[..offs]) + Named(Sorted(names)) + old(pathv[offs + cnt..])
  {
    hide Sorted, Ascending;
    var names := NamesIn(pathv[offs..offs + cnt]);
    SortedIsAscending(names);
    WriteAt(pathv, offs, Named(Sorted(names)));
  }

  /** realloc, or malloc with the first slots set to null. */
  method Allocate(block: array?<Slot>, fl: Flags, n: nat, cnt: nat, memory: nat -> Slot) returns (pathv: array<Slot>)
    ensures fresh(pathv) && pathv.Length == n + cnt + 1
    ensures pathv[..n] == if fl.append then Kept(if block == null then [] else block[..], n, memory) else Nulls(n)
  {
    pathv := new Slot[n + cnt + 1](i => memory(i));
    if fl.append {
      if block != null {
        forall i | 0 <= i < block.Length && i < pathv.Length {
          pathv[i] := block[i];
        }
      }
    } else {
      forall i | 0 <= i < n {
        pathv[i] := Null;
      }
    }
  }

  /** The names a call delivers: sorted unless GLOB_NOSORT is set. */
  function Delivered(names: seq<string>, fl: Flags): (r: seq<string>)
    ensures |r| == |names|
  {
    SortedIsAscending(names);
    if fl.noSort then names else Sorted(names)
  }

  /** Filling the vector behind its first slots, and sorting. */
  method FillVector(list: MatchList, fl: Flags, pathv: array<Slot>, offs: nat, cnt: nat)
    requires list.Valid() && cnt == |list.names| && pathv.Length == offs + cnt + 1
    modifies pathv
    ensures pathv[..] == old(pathv[..offs]) + Named(Delivered(list.names, fl)) + [Null]
  {
    hide Sorted, MatchList.Valid;
    ghost var before := pathv[..offs];
    Fill(list, pathv, offs, cnt);
    if !fl.noSort {
      assert pathv[..offs] == before && pathv[offs..offs + cnt] == Named(list.names) && pathv[offs + cnt..] == [Null];
      NamesInNamed(list.names);
      QSort(pathv, offs, cnt);
    }
  }

  /** The end of glob: the vector with what stands before the results, the results and a null pointer. */
  method Deliver(list: MatchList, fl: Flags, g: GlobT, offs0: nat, cnt: nat, memory: nat -> Slot)
    requires list.Valid() && cnt == |list.names| && (!fl.append ==> g.pathc == 0)
    modifies g`pathv, g`pathc
    ensures g.pathv != null && fresh(g.pathv) && g.pathc == old(g.pathc) + cnt
    ensures var n := offs0 + old(g.pathc);
      var block := if old(g.pathv) == null then [] else old(g.pathv[..]);
      var before := if fl.append then Kept(block, n, memory) else Nulls(n);
      g.pathv[..] == before + Named(Delivered(list.names, fl)) + [Null]
  {
    hide Kept, Delivered, MatchList.Valid;
    var offs := offs0 + g.pathc;
    var pathv := Allocate(g.pathv, fl, offs, cnt, memory);
    FillVector(list, fl, pathv, offs, cnt);
    g.pathv := pathv;
    g.pathc := g.pathc + cnt;
  }

  /** The paths a call is to deliver: those found, or the pattern itself when there are none and GLOB_NOCHECK is set. */
  function Results(out: seq<string>, pat: string, fl: Flags): seq<string> {
    if out == [] && fl.noCheck then [pat] else out
  }

  /** The directory walk of a call. */
  function Search(fs: Fs, on: Options, pat: string, errno: int): Walk {
    if pat == "" then Walk(0, [], errno)
    else MatchDir(fs, on, if pat[0] == '/' then "/" else "", Components(SkipSlashes(pat)), errno)
  }

  /** The walk of glob: the list it leaves. */
  method WalkForCall(fs: Fs, on: Options, pat: string, env: Errno) returns (code: int, list: MatchList)
    modifies env
    ensures fresh(list) && list.Valid() && var w := Search(fs, on, pat, old(env.errno));
      code == w.code && list.names == w.out && env.errno == w.errno && fresh(list.tail)
  {
    hide MatchDir, Components, SkipSlashes;
    list := new MatchList();
    code := 0;
    if pat != "" {
      code := MatchInDir(fs, on, if pat[0] == '/' then "/" else "", SkipSlashes(pat), list, env);
    }
  }

  /** What a call returns and delivers, and the errno it leaves: a pattern of more than PATH_MAX characters and an
      empty search deliver nothing. */
  function Outcome(fs: Fs, on: Options, fl: Flags, pat: string, errno: int): Walk {
    if |SkipSlashes(pat)| > PATH_MAX then Walk(GLOB_NOSPACE, [], errno)
    else
      var w := Search(fs, on, pat, errno);
      var results := Results(w.out, pat, fl);
      if results == [] then Walk(GLOB_NOMATCH, [], w.errno) else Walk(w.code, Delivered(results, fl), w.errno)
  }

  /** The fields of glob_t. */
  datatype State = State(offs: nat, pathc: nat, pathv: Option<seq<Slot>>)

  function StateOf(g: GlobT): State
    reads g, if g.pathv == null then {} else {g.pathv}
  {
    State(g.offs, g.pathc, if g.pathv == null then None else Some(g.pathv[..]))
  }

  /** The slots that stand before the results of a call: null pointers, or under GLOB_APPEND what realloc keeps of the
      old vector. */
  function Before(st: State, fl: Flags, memory: nat -> Slot): seq<Slot> {
    if !fl.append then Nulls(if fl.doOffs then st.offs else 0)
    else
      var n := (if fl.doOffs then st.offs else 0) + st.pathc;
      Kept(if st.pathv.None? then [] else st.pathv.value, n, memory)
  }

  /** The fields after a call that delivers `names`. Without GLOB_APPEND the old vector is forgotten, also by a call
      that delivers nothing. */
  function AfterCall(st: State, fl: Flags, names: seq<string>, memory: nat -> Slot): State {
    var was := if fl.append then st else State(if fl.doOffs then st.offs else 0, 0, None);
    if names == [] then was
    else was.(pathc := was.pathc + |names|, pathv := Some(Before(st, fl, memory) + Named(names) + [Null]))
  }

  /** glob. `memory` is what unused memory happens to hold. */
  method GlobCall(fs: Fs, on: Options, fl: Flags, pat: string, g: GlobT, env: Errno, memory: nat -> Slot)
    returns (code: int)
    modifies g, env
    ensures var w := Outcome(fs, on, fl, pat, old(env.errno));
      && code == w.code && env.errno == w.errno && StateOf(g) == AfterCall(old(StateOf(g)), fl, w.out, memory)
      && if w.out == [] then g.pathv == (if fl.append then old(g.pathv) else null) else fresh(g.pathv)
  {
    hide Search, SkipSlashes, Kept, Delivered, Named, Nulls, MatchList.Valid;
    var offs := if fl.doOffs then g.offs else 0;
    if !fl.append {
      g.offs, g.pathc, g.pathv := offs, 0, null;
    }
    if |SkipSlashes(pat)| > PATH_MAX {
      return GLOB_NOSPACE;
    }
    var error, list := WalkForCall(fs, on, pat, env);
    var cnt := Count(list);
    if cnt == 0 {
      if !fl.noCheck {
        return GLOB_NOMATCH;
      }
      Append(list, pat, false);
      cnt := cnt + 1;
    }
    assert list.names == Results(Search(fs, on, pat, old(env.errno)).out, pat, fl);
    Deliver(list, fl, g, offs, cnt, memory);
    return error;
  }

  // ---------------------------------------------------------------- calls after one another

  datatype Call = Call(fs: Fs, on: Options, fl: Flags, pat: string)

  /** errno after the calls. */
  function ErrnoAfterCalls(calls: seq<Call>, errno: int): int {
    if calls == [] then errno
    else
      var k := |calls| - 1;
      Outcome(calls[k].fs, calls[k].on, calls[k].fl, calls[k].pat, ErrnoAfterCalls(calls[..k], errno)).errno
  }

  /** What call `k` returns and delivers. */
  function OutcomeOf(calls: seq<Call>, k: nat, errno: int): Walk
    requires k < |calls|
  {
    var c := calls[k];
    Outcome(c.fs, c.on, c.fl, c.pat, ErrnoAfterCalls(calls[..k], errno))
  }

  /** The names that the calls deliver, in the order of the calls. */
  function AllDelivered(calls: seq<Call>, errno: int): seq<string> {
    if calls == [] then []
    else AllDelivered(calls[..|calls| - 1], errno) + OutcomeOf(calls, |calls| - 1, errno).out
  }

  /** The fields of glob_t after the calls. */
  function AfterCalls(st: State, calls: seq<Call>, errno: int, memories: nat -> nat -> Slot): State {
    if calls == [] then st
    else
      var k := |calls| - 1;
      AfterCall(AfterCalls(st, calls[..k], errno, memories), calls[k].fl, OutcomeOf(calls, k, errno).out, memories(k))
  }

  /** Calls on the same glob_t after one another. */
  method GlobCalls(calls: seq<Call>, g: GlobT, env: Errno, memories: nat -> nat -> Slot) returns (codes: seq<int>)
    modifies g, env
    ensures StateOf(g) == AfterCalls(old(StateOf(g)), calls, old(env.errno), memories)
    ensures env.errno == ErrnoAfterCalls(calls, old(env.errno)) && |codes| == |calls|
    ensures forall k :: 0 <= k < |calls| ==> codes[k] == OutcomeOf(calls, k, old(env.errno)).code
  {
    hide Outcome, AfterCall, StateOf;
    codes := [];
    for k := 0 to |calls|
      invariant StateOf(g) == AfterCalls(old(StateOf(g)), calls[..k], old(env.errno), memories)
      invariant env.errno == ErrnoAfterCalls(calls[..k], old(env.errno)) && |codes| == k
      invariant forall i :: 0 <= i < k ==> codes[i] == OutcomeOf(calls, i, old(env.errno)).code
    {
      assert calls[..k + 1][..k] == calls[..k];
      var code := GlobCall(calls[k].fs, calls[k].on, calls[k].fl, calls[k].pat, g, env, memories(k));
      codes := codes + [code];
    }
    assert calls[..|calls|] == calls;
  }

  /** As POSIX asks of callers: the first call is made without GLOB_APPEND and the later ones with it, and all or none
      with GLOB_DOOFFS. */
  predicate Session(calls: seq<Call>, doOffs: bool) {
    && calls != [] && !calls[0].fl.append
    && forall k :: 0 <= k < |calls| ==> calls[k].fl.doOffs == doOffs && (k > 0 ==> calls[k].fl.append)
  }

  /** A vector as a caller may use it: null pointers, the names, a null pointer. */
  predicate Layout(slots: seq<Slot>, offs: nat, names: seq<string>) {
    slots == Nulls(offs) + Named(names) + [Null]
  }

  /** The fields as a caller may use them: no vector while there are no names. */
  predicate Usable(st: State, offs: nat, names: seq<string>) {
    && st.offs == offs && st.pathc == |names|
    && if names == [] then st.pathv.None? else st.pathv.Some? && Layout(st.pathv.value, offs, names)
  }

  /** Call `k` hands a null gl_pathv to realloc. */
  predicate ReallocsNull(st: State, calls: seq<Call>, k: nat, errno: int, memories: nat -> nat -> Slot)
    requires k < |calls|
  {
    && calls[k].fl.append && AfterCalls(st, calls[..k], errno, memories).pathv.None?
    && OutcomeOf(calls, k, errno).out != []
  }

  /** What the first slots hold: null pointers from the first call, or the memory that the first call to deliver
      something was given. */
  function FirstSlots(calls: seq<Call>, offs: nat, errno: int, memories: nat -> nat -> Slot): (first: seq<Slot>)
    requires calls != []
    ensures |first| == offs
    decreases |calls|
  {
    var k := |calls| - 1;
    if k == 0 then Nulls(offs)
    else if AllDelivered(calls[..k], errno) == [] then Kept([], offs, memories(k))
    else FirstSlots(calls[..k], offs, errno, memories)
  }

  /** An appending call keeps the slots of the vector that it finds. */
  lemma {:induction false} KeptSlots(first: seq<Slot>, names: seq<string>, results: seq<string>, memory: nat -> Slot)
    ensures Kept(first + Named(names) + [Null], |first| + |names|, memory) + Named(results) + [Null]
         == first + Named(names + results) + [Null]
  {
    var kept := Kept(first + Named(names) + [Null], |first| + |names|, memory);
    assert kept == first + Named(names);
    assert Named(names + results) == Named(names) + Named(results);
  }

  /** The vector after calls that follow the rules, with whatever memory held in its first slots. */
  lemma {:induction false} SessionVector(st: State, calls: seq<Call>, doOffs: bool, errno: int,
                                         memories: nat -> nat -> Slot)
    requires Session(calls, doOffs)
    ensures var offs, all := if doOffs then st.offs else 0, AllDelivered(calls, errno);
      var after := AfterCalls(st, calls, errno, memories);
      && after.offs == offs && after.pathc == |all| && (after.pathv.None? <==> all == [])
      && (all != [] ==> after.pathv == Some(FirstSlots(calls, offs, errno, memories) + Named(all) + [Null]))
    decreases |calls|
  {
    hide Outcome, Kept;
    var k, offs := |calls| - 1, if doOffs then st.offs else 0;
    var results := OutcomeOf(calls, k, errno).out;
    assert calls[..k] == [] || calls[..k][0] == calls[0];
    if k == 0 {
      assert [] + results == results;
    } else {
      SessionVector(st, calls[..k], doOffs, errno, memories);
      NextVector(AfterCalls(st, calls[..k], errno, memories), calls[k].fl, offs,
                 FirstSlots(calls[..k], offs, errno, memories), AllDelivered(calls[..k], errno), results, memories(k));
    }
  }

  /** One more appending call. */
  lemma {:induction false} NextVector(st: State, fl: Flags, offs: nat, first: seq<Slot>, names: seq<string>,
                                      results: seq<string>, memory: nat -> Slot)
    requires fl.append && offs == (if fl.doOffs then st.offs else 0) && |first| == offs
    requires st.pathc == |names| && (st.pathv.None? <==> names == [])
    requires names != [] ==> st.pathv == Some(first + Named(names) + [Null])
    ensures var after, all := AfterCall(st, fl, results, memory), names + results;
      && after.offs == st.offs && after.pathc == |all| && (after.pathv.None? <==> all == [])
      && (all != [] ==>
            var slots := if names == [] then Kept([], offs, memory) else first;
            after.pathv == Some(slots + Named(all) + [Null]))
  {
    hide Kept, Named;
    assert names + [] == names && [] + results == results;
    if names != [] {
      KeptSlots(first, names, results, memory);
    }
  }

  /** Once the first call has delivered something, the first slots are null pointers for good. */
  lemma {:induction false} FirstSlotsNull(calls: seq<Call>, offs: nat, errno: int, memories: nat -> nat -> Slot)
    requires calls != [] && OutcomeOf(calls, 0, errno).out != []
    ensures AllDelivered(calls, errno) != [] && FirstSlots(calls, offs, errno, memories) == Nulls(offs)
    decreases |calls|
  {
    hide Outcome;
    assert calls[..0] == [];
    if |calls| > 1 {
      var init := calls[..|calls| - 1];
      assert init[..0] == [] && init[0] == calls[0];
      FirstSlotsNull(init, offs, errno, memories);
    }
  }

  /** When the first call delivers nothing, the first slots of the vector hold what the memory held. */
  lemma {:induction false} FirstSlotsUnset(calls: seq<Call>, offs: nat, errno: int, slot: Slot)
    requires calls != [] && OutcomeOf(calls, 0, errno).out == [] && AllDelivered(calls, errno) != [] && offs > 0
    ensures FirstSlots(calls, offs, errno, k => i => slot)[0] == slot
    decreases |calls|
  {
    hide Outcome;
    var init := calls[..|calls| - 1];
    assert calls[..0] == [];
    assert |calls| == 1 ==> init == [];
    if |calls| > 1 && AllDelivered(init, errno) != [] {
      assert init[..0] == [] && init[0] == calls[0];
      FirstSlotsUnset(init, offs, errno, slot);
    }
  }

  /** Earlier calls have delivered a first part of what all have delivered. */
  lemma {:induction false} DeliveredSoFar(calls: seq<Call>, k: nat, errno: int)
    requires k <= |calls|
    ensures AllDelivered(calls[..k], errno) <= AllDelivered(calls, errno)
    ensures k < |calls| ==>
      AllDelivered(calls[..k], errno) + OutcomeOf(calls, k, errno).out <= AllDelivered(calls, errno)
    decreases |calls|
  {
    hide Outcome;
    if k == |calls| {
      assert calls[..k] == calls;
    } else {
      var init := calls[..|calls| - 1];
      assert init[..k] == calls[..k];
      DeliveredSoFar(init, k, errno);
    }
  }

  /** Some call hands a null gl_pathv to realloc exactly when the first call delivers nothing and a later one does. */
  lemma {:induction false} WhenReallocsNull(st: State, calls: seq<Call>, doOffs: bool, errno: int,
                                            memories: nat -> nat -> Slot)
    requires Session(calls, doOffs)
    ensures (exists k :: 0 <= k < |calls| && ReallocsNull(st, calls, k, errno, memories))
        <==> OutcomeOf(calls, 0, errno).out == [] && AllDelivered(calls, errno) != []
    decreases |calls|
  {
    hide Outcome, AfterCalls;
    forall k | 0 <= k < |calls| && ReallocsNull(st, calls, k, errno, memories)
      ensures OutcomeOf(calls, 0, errno).out == [] && AllDelivered(calls, errno) != []
    {
      assert k > 0 && calls[..k][0] == calls[0] && calls[..k][..0] == calls[..0];
      SessionVector(st, calls[..k], doOffs, errno, memories);
      DeliveredSoFar(calls, k, errno);
      DeliveredSoFar(calls[..k], 0, errno);
    }
    if OutcomeOf(calls, 0, errno).out == [] && AllDelivered(calls, errno) != [] {
      var k := FirstToDeliver(calls, errno);
      assert calls[..k][0] == calls[0];
      SessionVector(st, calls[..k], doOffs, errno, memories);
      assert ReallocsNull(st, calls, k, errno, memories);
    }
  }

  lemma {:induction false} FirstToDeliver(calls: seq<Call>, errno: int) returns (k: nat)
    requires calls != [] && OutcomeOf(calls, 0, errno).out == [] && AllDelivered(calls, errno) != []
    ensures 0 < k < |calls| && OutcomeOf(calls, k, errno).out != [] && AllDelivered(calls[..k], errno) == []
    decreases |calls|
  {
    hide Outcome;
    var init := calls[..|calls| - 1];
    assert calls[..0] == [];
    assert |calls| == 1 ==> init == [];
    if AllDelivered(init, errno) == [] {
      k := |calls| - 1;
    } else {
      assert init[..0] == [] && init[0] == calls[0];
      k := FirstToDeliver(init, errno);
      assert init[..k] == calls[..k] && init[k] == calls[k];
    }
  }

  /** What the vector is worth after any calls that follow the rules, whatever unused memory holds: it is the null
      pointers asked for, all names delivered in the order of the calls, and a null pointer, exactly when no null
      pointers are asked for or no call hands a null gl_pathv to realloc, which sets no slots. */
  lemma {:induction false} UsableIff(st: State, calls: seq<Call>, doOffs: bool, errno: int,
                                     any: nat -> nat -> Slot)
    requires Session(calls, doOffs)
    ensures var offs, all := if doOffs then st.offs else 0, AllDelivered(calls, errno);
      (forall memories: nat -> nat -> Slot :: Usable(AfterCalls(st, calls, errno, memories), offs, all))
      <==> offs == 0 || forall k :: 0 <= k < |calls| ==> !ReallocsNull(st, calls, k, errno, any)
  {
    hide Outcome, AfterCalls, ReallocsNull, FirstSlots;
    var offs, all := if doOffs then st.offs else 0, AllDelivered(calls, errno);
    WhenReallocsNull(st, calls, doOffs, errno, any);
    if offs > 0 && OutcomeOf(calls, 0, errno).out == [] && all != [] {
      var junk: nat -> nat -> Slot := k => i => Name("");
      SessionVector(st, calls, doOffs, errno, junk);
      FirstSlotsUnset(calls, offs, errno, Name(""));
      var after := AfterCalls(st, calls, errno, junk);
      assert after.pathv.value[0] == Name("") && (Nulls(offs) + Named(all) + [Null])[0] == Null;
      assert !Usable(after, offs, all);
    } else {
      forall memories: nat -> nat -> Slot
        ensures Usable(AfterCalls(st, calls, errno, memories), offs, all)
      {
        SessionVector(st, calls, doOffs, errno, memories);
        if all != [] && offs > 0 {
          FirstSlotsNull(calls, offs, errno, memories);
        }
      }
    }
  }

  /** A file system of one file, searched without flags. */
  function OneFile(): Fs {
    Fs(path => Entries([Entry("a", OtherKind)]), path => Found(false))
  }

  function NoFlags(): Options {
    Options(false, false, false, false, (path, e) => false, (p, name, period) => false)
  }

  lemma {:induction false} SearchOneFile(pat: string, errno: int)
    requires pat == "a" || pat == "b"
    ensures Search(OneFile(), NoFlags(), pat, errno) == Walk(0, if pat == "a" then ["a"] else [], errno)
    ensures SkipSlashes(pat) == pat
  {
    var fs, on, es := OneFile(), NoFlags(), [Entry("a", OtherKind)];
    assert UpToSlash(pat) == pat by {
      assert pat[1..] == "" && [pat[0]] + "" == pat;
    }
    assert Components(pat) == [pat];
    assert IsLiteral(pat, true, false) by {
      assert pat[1..] == "";
    }
    assert es[1..] == [];
    assert MatchEntries(fs, on, "", [pat], es, errno) == Walk(0, if pat == "a" then ["a"] else [], errno);
    assert Open(fs, "") == Entries(es);
  }

  function Miss(): Call {
    Call(OneFile(), NoFlags(), Flags(true, false, false, false), "b")
  }

  function Hit(): Call {
    Call(OneFile(), NoFlags(), Flags(true, true, false, false), "a")
  }

  lemma {:induction false} MissThenHit()
    ensures OutcomeOf([Miss(), Hit()], 0, 0) == Walk(GLOB_NOMATCH, [], 0)
    ensures OutcomeOf([Miss(), Hit()], 1, 0) == Walk(0, ["a"], 0)
    ensures [Miss(), Hit()][..1] == [Miss()]
    ensures AllDelivered([Miss()], 0) == [] && AllDelivered([Miss(), Hit()], 0) == ["a"]
  {
    hide Search, SkipSlashes;
    var calls := [Miss(), Hit()];
    SearchOneFile("b", 0);
    SearchOneFile("a", 0);
    assert Sorted(["a"]) == ["a"] by {
      assert ["a"][..0] == [];
    }
    assert calls[..1] == [Miss()] && [Miss()][..0] == [] && calls[..0] == [];
    assert ErrnoAfterCalls([Miss()], 0) == 0;
  }

  /** The input that fails: one slot asked for, a call that finds nothing and then an appending call that finds the
      file. The slot that the caller was promised as a null pointer holds whatever the memory held. */
  lemma {:induction false} SlotNeverSet(memories: nat -> nat -> Slot)
    ensures Session([Miss(), Hit()], true) && OutcomeOf([Miss(), Hit()], 0, 0).code == GLOB_NOMATCH
    ensures AfterCalls(State(1, 0, None), [Miss(), Hit()], 0, memories)
         == State(1, 1, Some([memories(1)(0), Name("a"), Null]))
  {
    hide Outcome, AfterCalls, AllDelivered;
    var calls := [Miss(), Hit()];
    MissThenHit();
    SessionVector(State(1, 0, None), calls, true, 0, memories);
    assert FirstSlots(calls, 1, 0, memories) == [memories(1)(0)];
    assert [memories(1)(0)] + Named(["a"]) + [Null] == [memories(1)(0), Name("a"), Null];
  }

  /** Without GLOB_ERR and with the default error function, a call delivers exactly the paths that the pattern
      selects. */
  lemma {:induction false} SearchFindsPaths(fs: Fs, on: Options, pat: string, errno: int)
    requires pat != "" && !on.err && forall path, e :: !on.errFunc(path, e)
    ensures var w := Search(fs, on, pat, errno);
      w.code == 0 && w.out == Paths(fs, on, if pat[0] == '/' then "/" else "", Components(SkipSlashes(pat)))
  {
    var d, comps := if pat[0] == '/' then "/" else "", Components(SkipSlashes(pat));
    WalkFinds(fs, on, d, comps, errno);
    NeverAborted(fs, on, d, comps, errno);
  }
}
