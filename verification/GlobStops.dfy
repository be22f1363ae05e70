/** Where a walk of glob stops (glibc-compatibility/musl/glob.c): the walk that never gives up, with every question
    whether to give up on its way, and the proof that a walk is that one cut at the first question answered with yes. */
module GlobStops {
  import opened Text
  import opened Glob
  import opened GlobLaws

  /** What a walk comes to: a name that it delivers, or an error at a directory that GLOB_ERR and the caller's function
      are asked about. */
  datatype Item = Delivers(path: string) | Asks(dir: string, error: int)

  /** The items in order, and errno at the end. */
  datatype Log = Log(items: seq<Item>, errno: int)

  function WithSlash(d: string): string {
    if d == "" || d == "/" then d else d + "/"
  }

  /** The walk below `d` that never gives up. errno is asked about when the directory has been read, as it was when the
      directory was opened, but only where no recursive call has overwritten it. */
  function Full(fs: Fs, on: Options, d: string, comps: seq<string>, errno: int): Log
    requires comps != []
    decreases |comps|, 1, 0
  {
    match fs.openDir(if d == "" then "." else d)
    case Failed(e) =>
      if e == 20 then Log([], e)
      else if e == 13 && comps == [""] then
        match fs.stat(d) {
          case Found(true) => Log([Delivers(WithSlash(d))], e)
          case Found(false) => Log([Asks(d, e)], e)
          case Gone(error, _) => Log([Asks(d, e)], error)
        }
      else Log([Asks(d, e)], e)
    case Entries(es) =>
      if comps == [""] then Log([Delivers(WithSlash(d))], errno)
      else
        var log := FullEntries(fs, on, d, comps, es, errno);
        var kept := |comps| == 1 || forall e <- es :: !Accepts(on, comps[0], e, true);
        if kept && errno != 0 then log.(items := log.items + [Asks(d, errno)]) else log
  }

  function FullEntries(fs: Fs, on: Options, d: string, comps: seq<string>, es: seq<Entry>, errno: int): Log
    requires comps != []
    decreases |comps|, 0, |es|
  {
    if es == [] then Log([], errno)
    else
      var first := FullEntry(fs, on, d, comps, es[0], errno);
      var rest := FullEntries(fs, on, d, comps, es[1..], first.errno);
      Log(first.items + rest.items, rest.errno)
  }

  function FullEntry(fs: Fs, on: Options, d: string, comps: seq<string>, e: Entry, errno: int): Log
    requires comps != []
    decreases |comps|, 0, 0
  {
    var path := WithSlash(d) + e.name;
    if !Accepts(on, comps[0], e, |comps| > 1) then Log([], errno)
    else if |comps| > 1 then Full(fs, on, path, comps[1..], errno)
    else if !on.mark then Log([Delivers(path)], errno)
    else
      match e.kind
      case Directory => Log([Delivers(path + "/")], errno)
      case OtherKind => Log([Delivers(path)], errno)
      case _ =>
        match fs.stat(path)
        case Found(dir) => Log([Delivers(if dir then path + "/" else path)], errno)
        case Gone(error, left) => Log([Delivers(if left then path + "/" else path)], error)
  }

  // ---------------------------------------------------------------- cut at the first question answered with yes

  predicate SaysYes(on: Options, item: Item) {
    item.Asks? && (on.err || on.errFunc(item.dir, item.error))
  }

  /** The names among the items. */
  function PathsIn(items: seq<Item>): seq<string> {
    if items == [] then []
    else
      var last := items[|items| - 1];
      PathsIn(items[..|items| - 1]) + if last.Delivers? then [last.path] else []
  }

  predicate NoYes(on: Options, items: seq<Item>) {
    forall item <- items :: !SaysYes(on, item)
  }

  /** The walk gets through all items, or up to item `k`, which is the first to make it give up. */
  predicate StopsAt(on: Options, w: Walk, log: Log, k: nat) {
    && k <= |log.items| && NoYes(on, log.items[..k]) && w.out == PathsIn(log.items[..k])
    && if k == |log.items| then w.code == 0 && w.errno == log.errno
       else w.code == 2 && SaysYes(on, log.items[k])
  }

  lemma {:induction false} PathsAppend(a: seq<Item>, b: seq<Item>)
    ensures PathsIn(a + b) == PathsIn(a) + PathsIn(b)
    decreases |b|
  {
    if b == [] {
      assert a + b == a;
    } else {
      assert (a + b)[..|a + b| - 1] == a + b[..|b| - 1];
      PathsAppend(a, b[..|b| - 1]);
    }
  }

  /** A walk that gives up in the first part does so in the whole. */
  lemma {:induction false} StopsEarly(on: Options, w: Walk, first: Log, rest: Log, k: nat)
    requires StopsAt(on, w, first, k) && w.code != 0
    ensures StopsAt(on, w, Log(first.items + rest.items, rest.errno), k)
  {
    assert (first.items + rest.items)[..k] == first.items[..k];
  }

  lemma {:induction false} StopsLater(on: Options, w: Walk, first: Log, k: nat, v: Walk, rest: Log, j: nat)
    requires StopsAt(on, w, first, k) && w.code == 0 && StopsAt(on, v, rest, j)
    ensures StopsAt(on, v.(out := w.out + v.out), Log(first.items + rest.items, rest.errno), |first.items| + j)
  {
    assert first.items[..k] == first.items;
    assert (first.items + rest.items)[..|first.items| + j] == first.items + rest.items[..j];
    PathsAppend(first.items, rest.items[..j]);
  }

  lemma {:induction false} OneItem(on: Options, item: Item, errno: int)
    ensures item.Delivers? ==> StopsAt(on, Walk(0, [item.path], errno), Log([item], errno), 1)
    ensures SaysYes(on, item) ==> forall e :: StopsAt(on, Walk(2, [], e), Log([item], errno), 0)
    ensures item.Asks? && !SaysYes(on, item) ==> StopsAt(on, Walk(0, [], errno), Log([item], errno), 1)
  {
    assert [item][..1] == [item] && [item][..0] == [];
  }

  lemma {:induction false} NoItem(on: Options, errno: int)
    ensures StopsAt(on, Walk(0, [], errno), Log([], errno), 0)
  {
  }

  /** For every file system, pattern, errno on entry, flags and error function: a walk delivers what the walk that never
      gives up comes to before the first question answered with yes, and it ends there with GLOB_ABORTED; when there is
      no such question it delivers everything and returns 0, with errno as at the end. */
  lemma {:induction false} WalkStops(fs: Fs, on: Options, d: string, comps: seq<string>, errno: int) returns (k: nat)
    requires comps != []
    ensures StopsAt(on, MatchDir(fs, on, d, comps, errno), Full(fs, on, d, comps, errno), k)
    decreases |comps|, 1, 0
  {
    hide StopsAt, Takes, Accepts;
    match Open(fs, d)
    case Failed(e) =>
      NoItem(on, e);
      k := DirFails(fs, on, d, comps, errno, e);
    case Entries(es) =>
      if comps == [""] {
        OneItem(on, Delivers(WithSlash(d)), errno);
        k := 1;
      } else {
        k := EntriesStop(fs, on, d, comps, es, errno);
        KeptIs(on, comps, es);
        k := DirDone(on, MatchEntries(fs, on, d, comps, es, errno), FullEntries(fs, on, d, comps, es, errno), k, d,
                     if ErrnoKept(on, comps, es) then errno else 0);
      }
  }

  lemma {:induction false} DirFails(fs: Fs, on: Options, d: string, comps: seq<string>, errno: int, e: int)
    returns (k: nat)
    requires comps != [] && Open(fs, d) == Failed(e)
    ensures StopsAt(on, MatchDir(fs, on, d, comps, errno), Full(fs, on, d, comps, errno), k)
  {
    hide StopsAt;
    NoItem(on, e);
    OneItem(on, Delivers(WithSlash(d)), e);
    OneItem(on, Asks(d, e), e);
    OneItem(on, Asks(d, e), AfterStat(fs.stat(d), e));
    var directory := e == 13 && comps == [""] && fs.stat(d) == Found(true);
    k := if e == 20 || (SaysYes(on, Asks(d, e)) && !directory) then 0 else 1;
  }

  lemma {:induction false} KeptIs(on: Options, comps: seq<string>, es: seq<Entry>)
    requires comps != []
    ensures ErrnoKept(on, comps, es) <==> |comps| == 1 || forall e <- es :: !Accepts(on, comps[0], e, true)
  {
    hide Takes, Accepts;
    forall e | e in es
      ensures Takes(on, comps, e) <==> Accepts(on, comps[0], e, |comps| > 1)
    {
      AcceptsIsTakes(on, comps, e);
    }
  }

  /** The question at the end of a directory. */
  lemma {:induction false} DirDone(on: Options, w: Walk, log: Log, k: nat, d: string, error: int) returns (j: nat)
    requires StopsAt(on, w, log, k)
    ensures StopsAt(on, if w.code == 0 && error != 0 && Gives(on, d, error) then w.(code := GLOB_ABORTED) else w,
                    if error != 0 then log.(items := log.items + [Asks(d, error)]) else log, j)
  {
    j := k;
    if error != 0 {
      var item := Asks(d, error);
      OneItem(on, item, log.errno);
      if w.code != 0 {
        StopsEarly(on, w, log, Log([item], log.errno), k);
      } else {
        j := if SaysYes(on, item) then k else k + 1;
        assert w.out + [] == w.out;
        StopsLater(on, w, log, k, Walk(if SaysYes(on, item) then 2 else 0, [], log.errno), Log([item], log.errno),
                   j - k);
      }
    }
  }

  lemma {:induction false} EntriesStop(fs: Fs, on: Options, d: string, comps: seq<string>, es: seq<Entry>, errno: int)
    returns (k: nat)
    requires comps != []
    ensures StopsAt(on, MatchEntries(fs, on, d, comps, es, errno), FullEntries(fs, on, d, comps, es, errno), k)
    decreases |comps|, 0, |es|
  {
    hide StopsAt, MatchEntry, FullEntry;
    if es == [] {
      NoItem(on, errno);
      k := 0;
    } else {
      k := EntryStops(fs, on, d, comps, es[0], errno);
      var w, first := MatchEntry(fs, on, d, comps, es[0], errno), FullEntry(fs, on, d, comps, es[0], errno);
      var rest := FullEntries(fs, on, d, comps, es[1..], first.errno);
      if w.code != 0 {
        StopsEarly(on, w, first, rest, k);
      } else {
        CompletedErrno(on, w, first, k);
        var j := EntriesStop(fs, on, d, comps, es[1..], w.errno);
        StopsLater(on, w, first, k, MatchEntries(fs, on, d, comps, es[1..], w.errno), rest, j);
        k := |first.items| + j;
      }
    }
  }

  lemma {:induction false} CompletedErrno(on: Options, w: Walk, log: Log, k: nat)
    requires StopsAt(on, w, log, k) && w.code == 0
    ensures w.errno == log.errno
  {
  }

  lemma {:induction false} EntryStops(fs: Fs, on: Options, d: string, comps: seq<string>, e: Entry, errno: int)
    returns (k: nat)
    requires comps != []
    ensures StopsAt(on, MatchEntry(fs, on, d, comps, e, errno), FullEntry(fs, on, d, comps, e, errno), k)
    decreases |comps|, 0, 0
  {
    hide StopsAt, Takes, Accepts;
    AcceptsIsTakes(on, comps, e);
    var path := WithSlash(d) + e.name;
    assert Child(d, e.name) == path;
    if !Takes(on, comps, e) {
      NoItem(on, errno);
      k := 0;
    } else if |comps| > 1 {
      k := WalkStops(fs, on, path, comps[1..], errno);
    } else {
      var after := if LooksUp(on, e.kind) then AfterStat(fs.stat(path), errno) else errno;
      OneItem(on, Delivers(Marked(fs, on, path, e.kind)), after);
      k := 1;
    }
  }
}
