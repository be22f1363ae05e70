/** The directory walk of glibc-compatibility/musl/glob.c as a function of the file system, and what it finds. */
module Glob {
  import opened Text

  const ENOTDIR := 20
  const EACCES := 13

  const GLOB_NOSPACE := 1
  const GLOB_ABORTED := 2
  const GLOB_NOMATCH := 3

  /** d_type: what readdir tells about an entry. */
  datatype Kind = Unknown | Directory | Link | OtherKind

  datatype Entry = Entry(name: string, kind: Kind)

  datatype Opened = Failed(errno: int) | Entries(es: seq<Entry>)

  /** stat: whether the path is a directory, or an error. `left` is what S_ISDIR makes of the structure that a failing
      call leaves unset. */
  datatype Stat = Gone(errno: int, left: bool) | Found(dir: bool)

  /** What the calls on a path answer; nothing changes during a walk. */
  datatype Fs = Fs(openDir: string -> Opened, stat: string -> Stat)

  /** Flags, the error function, and fnmatch, whose last argument is whether a leading period must be matched
      explicitly. */
  datatype Options = Options(err: bool, mark: bool, noEscape: bool, period: bool, errFunc: (string, int) -> bool,
                             fnMatch: (string, string, bool) -> bool)

  /** A return code, the names appended, and errno. */
  datatype Walk = Walk(code: int, out: seq<string>, errno: int)

  // ---------------------------------------------------------------- patterns

  function SkipSlashes(p: string): (r: string)
    ensures |r| <= |p| && Rest(r)
  {
    if p != "" && p[0] == '/' then SkipSlashes(p[1..]) else p
  }

  /** Up to the first slash. */
  function UpToSlash(p: string): (r: string)
    ensures |r| <= |p| && r == p[..|r|] && '/' !in r && (|r| < |p| ==> p[|r|] == '/')
  {
    if p == "" || p[0] == '/' then "" else [p[0]] + UpToSlash(p[1..])
  }

  /** A pattern, or what is left of one: glob and match_in_dir have passed over its leading slashes. */
  predicate Rest(p: string) {
    p == "" || p[0] != '/'
  }

  /** The components of a pattern; a slash at its end leaves an empty one. */
  function Components(p: string): (c: seq<string>)
    requires Rest(p)
    ensures c != [] && (c == [""] <==> p == "")
    decreases |p|
  {
    var first := UpToSlash(p);
    if |first| == |p| then [p] else [first] + Components(SkipSlashes(p[|first|..]))
  }

  /** Components hold no slash, and only the last can be empty. */
  lemma {:induction false} ComponentsAreNames(p: string, i: nat)
    requires Rest(p) && i < |Components(p)|
    ensures '/' !in Components(p)[i] && (i + 1 < |Components(p)| ==> Components(p)[i] != "")
    decreases |p|
  {
    var first := UpToSlash(p);
    if |first| < |p| && i > 0 {
      ComponentsAreNames(SkipSlashes(p[|first|..]), i - 1);
    }
  }

  /** is_literal */
  function IsLiteral(p: string, useEsc: bool, bracket: bool): bool {
    if p == "" then true
    else if p[0] == '?' || p[0] == '*' || (p[0] == '\\' && useEsc) then false
    else if p[0] == '[' then IsLiteral(p[1..], useEsc, true)
    else if p[0] == ']' && bracket then false
    else IsLiteral(p[1..], useEsc, bracket)
  }

  /** Literal patterns are those without a wildcard: no question mark or star, no backslash that escapes, and no closing
      bracket after an opening one. */
  lemma {:induction false} LiteralMeans(p: string, useEsc: bool, bracket: bool)
    ensures IsLiteral(p, useEsc, bracket)
        <==> && '?' !in p && '*' !in p && (useEsc ==> '\\' !in p)
             && (bracket ==> ']' !in p) && forall i, j :: 0 <= i < j < |p| ==> !(p[i] == '[' && p[j] == ']')
  {
    if p != "" {
      LiteralMeans(p[1..], useEsc, bracket || p[0] == '[');
      assert p == [p[0]] + p[1..];
      assert forall j :: 1 <= j < |p| ==> p[j] == p[1..][j - 1];
    }
  }

  predicate Matches(on: Options, p: string, name: string) {
    if IsLiteral(p, !on.noEscape, false) then p == name else on.fnMatch(p, name, !on.period)
  }

  /** The tests an entry passes before it is taken: the pattern, and on the way down also its kind and the rule for
      `.` and `..` under GLOB_PERIOD. */
  predicate Takes(on: Options, comps: seq<string>, e: Entry)
    requires comps != []
  {
    && Matches(on, comps[0], e.name)
    && (|comps| > 1 ==>
          && !e.kind.OtherKind?
          && (on.period && (e.name == "." || e.name == "..") ==> on.fnMatch(comps[0], e.name, true)))
  }

  // ---------------------------------------------------------------- the walk

  function Child(d: string, name: string): string {
    if d == "" then name else if d == "/" then "/" + name else d + "/" + name
  }

  /** append(tail, d, l, l): a directory with a slash, which the root and the empty path do not get. */
  function Slashed(d: string): string {
    if d == "" then "" else if d == "/" then "/" else d + "/"
  }

  /** With GLOB_MARK, entries whose kind readdir does not settle are looked up. */
  predicate LooksUp(on: Options, kind: Kind) {
    on.mark && (kind.Unknown? || kind.Link?)
  }

  /** What S_ISDIR makes of the structure after stat, which the code does not check for failure. */
  function IsDir(st: Stat): bool {
    if st.Found? then st.dir else st.left
  }

  function Marked(fs: Fs, on: Options, name: string, kind: Kind): string {
    if on.mark && (if LooksUp(on, kind) then IsDir(fs.stat(name)) else kind.Directory?) then name + "/" else name
  }

  /** errno after stat: a failing call sets it, a successful one leaves it alone. */
  function AfterStat(st: Stat, errno: int): int {
    if st.Gone? then st.errno else errno
  }

  function Open(fs: Fs, d: string): Opened {
    fs.openDir(if d == "" then "." else d)
  }

  predicate Gives(on: Options, d: string, e: int) {
    on.errFunc(d, e) || on.err
  }

  /** The code keeps the errno that a directory was opened with and judges it after the readdir loop, but the result of
      every recursive call overwrites it: it is judged only where the last component is matched or no entry is taken. */
  predicate ErrnoKept(on: Options, comps: seq<string>, es: seq<Entry>)
    requires comps != []
  {
    |comps| == 1 || forall e <- es :: !Takes(on, comps, e)
  }

  /** match_in_dir */
  function MatchDir(fs: Fs, on: Options, d: string, comps: seq<string>, errno: int): Walk
    requires comps != []
    decreases |comps|, 1, 0
  {
    match Open(fs, d)
    case Failed(e) =>
      if e == ENOTDIR then Walk(0, [], e)
      else if e == EACCES && comps == [""] then
        var st := fs.stat(d);
        if st == Found(true) then Walk(0, [Slashed(d)], e)
        else Walk(if Gives(on, d, e) then GLOB_ABORTED else 0, [], AfterStat(st, e))
      else Walk(if Gives(on, d, e) then GLOB_ABORTED else 0, [], e)
    case Entries(es) =>
      if comps == [""] then Walk(0, [Slashed(d)], errno)
      else
        var w := MatchEntries(fs, on, d, comps, es, errno);
        var error := if ErrnoKept(on, comps, es) then errno else 0;
        if w.code == 0 && error != 0 && Gives(on, d, error) then w.(code := GLOB_ABORTED) else w
  }

  /** One taken entry. */
  function MatchEntry(fs: Fs, on: Options, d: string, comps: seq<string>, e: Entry, errno: int): Walk
    requires comps != []
    decreases |comps|, 0, 0
  {
    if !Takes(on, comps, e) then Walk(0, [], errno)
    else if |comps| > 1 then MatchDir(fs, on, Child(d, e.name), comps[1..], errno)
    else
      var name := Child(d, e.name);
      Walk(0, [Marked(fs, on, name, e.kind)], if LooksUp(on, e.kind) then AfterStat(fs.stat(name), errno) else errno)
  }

  /** The readdir loop over the entries still to come. */
  function MatchEntries(fs: Fs, on: Options, d: string, comps: seq<string>, es: seq<Entry>, errno: int): Walk
    requires comps != []
    decreases |comps|, 0, 1 + |es|
  {
    if es == [] then Walk(0, [], errno)
    else
      var first := MatchEntry(fs, on, d, comps, es[0], errno);
      if first.code != 0 then first
      else
        var rest := MatchEntries(fs, on, d, comps, es[1..], first.errno);
        rest.(out := first.out + rest.out)
  }

  // ---------------------------------------------------------------- what is to be found

  /** One way down the tree, as positions in the directories passed: entry v[0] of `d`, entry v[1] of that
      directory, and so on, each entry taken by its component. A pattern ending in a slash asks for a directory at the
      end. */
  predicate Chosen(fs: Fs, on: Options, d: string, comps: seq<string>, v: seq<nat>)
    requires comps != []
    decreases |comps|
  {
    if comps == [""] then
      v == [] && (Open(fs, d).Entries? || (Open(fs, d).errno == EACCES && fs.stat(d) == Found(true)))
    else
      && v != [] && Open(fs, d).Entries? && v[0] < |Open(fs, d).es|
      && var e := Open(fs, d).es[v[0]];
         && Takes(on, comps, e)
         && if |comps| > 1 then Chosen(fs, on, Child(d, e.name), comps[1..], v[1..]) else |v| == 1
  }

  /** The path a way leads to. */
  function PathOf(fs: Fs, on: Options, d: string, comps: seq<string>, v: seq<nat>): string
    requires comps != [] && Chosen(fs, on, d, comps, v)
    decreases |comps|
  {
    if comps == [""] then Slashed(d)
    else
      var e := Open(fs, d).es[v[0]];
      if |comps| > 1 then PathOf(fs, on, Child(d, e.name), comps[1..], v[1..])
      else Marked(fs, on, Child(d, e.name), e.kind)
  }

  /** Readdir order: by position, directory by directory. */
  predicate Before(v: seq<nat>, w: seq<nat>) {
    v != [] && w != [] && (v[0] < w[0] || (v[0] == w[0] && Before(v[1..], w[1..])))
  }

  // ---------------------------------------------------------------- all ways, in order

  function Prefixed(k: nat, vs: seq<seq<nat>>): (r: seq<seq<nat>>)
    ensures |r| == |vs| && forall i :: 0 <= i < |r| ==> r[i] == [k] + vs[i]
  {
    seq(|vs|, i requires 0 <= i < |vs| => [k] + vs[i])
  }

  /** Every way from `d`, listed by recursion. */
  function Ways(fs: Fs, on: Options, d: string, comps: seq<string>): seq<seq<nat>>
    requires comps != []
    decreases |comps|, 1, 0
  {
    if comps == [""] then if Chosen(fs, on, d, comps, []) then [[]] else []
    else if Open(fs, d).Failed? then []
    else WaysFrom(fs, on, d, comps, 0)
  }

  function WaysThrough(fs: Fs, on: Options, d: string, comps: seq<string>, k: nat): seq<seq<nat>>
    requires comps != [] && Open(fs, d).Entries? && k < |Open(fs, d).es|
    decreases |comps|, 0, 0
  {
    var e := Open(fs, d).es[k];
    if !Takes(on, comps, e) then []
    else Prefixed(k, if |comps| > 1 then Ways(fs, on, Child(d, e.name), comps[1..]) else [[]])
  }

  function WaysFrom(fs: Fs, on: Options, d: string, comps: seq<string>, k: nat): seq<seq<nat>>
    requires comps != [] && Open(fs, d).Entries? && k <= |Open(fs, d).es|
    decreases |comps|, 0, 1 + |Open(fs, d).es| - k
  {
    if k == |Open(fs, d).es| then []
    else WaysThrough(fs, on, d, comps, k) + WaysFrom(fs, on, d, comps, k + 1)
  }

  /** Exactly the chosen ways are listed. */
  lemma {:induction false} WaysAreChosen(fs: Fs, on: Options, d: string, comps: seq<string>, v: seq<nat>)
    requires comps != []
    ensures v in Ways(fs, on, d, comps) <==> Chosen(fs, on, d, comps, v)
    decreases |comps|, 1, 0
  {
    if comps != [""] && Open(fs, d).Entries? {
      WaysFromAreChosen(fs, on, d, comps, 0, v);
    }
  }

  lemma {:induction false} PrefixedHas(k: nat, vs: seq<seq<nat>>, v: seq<nat>)
    ensures v in Prefixed(k, vs) <==> v != [] && v[0] == k && v[1..] in vs
  {
    if v != [] && v[0] == k && v[1..] in vs {
      var i :| 0 <= i < |vs| && vs[i] == v[1..];
      assert Prefixed(k, vs)[i] == [k] + v[1..] == v;
    }
  }

  lemma {:induction false} WaysThroughAreChosen(fs: Fs, on: Options, d: string, comps: seq<string>, k: nat, v: seq<nat>)
    requires comps != [] && comps != [""] && Open(fs, d).Entries? && k < |Open(fs, d).es|
    ensures v in WaysThrough(fs, on, d, comps, k) <==> Chosen(fs, on, d, comps, v) && v[0] == k
    decreases |comps|, 0, 0
  {
    var e := Open(fs, d).es[k];
    if Takes(on, comps, e) {
      PrefixedHas(k, if |comps| > 1 then Ways(fs, on, Child(d, e.name), comps[1..]) else [[]], v);
      if |comps| > 1 && v != [] {
        WaysAreChosen(fs, on, Child(d, e.name), comps[1..], v[1..]);
      } else if |v| == 1 {
        assert v[1..] == [];
      }
    }
  }

  lemma {:induction false} WaysFromAreChosen(fs: Fs, on: Options, d: string, comps: seq<string>, k: nat, v: seq<nat>)
    requires comps != [] && comps != [""] && Open(fs, d).Entries? && k <= |Open(fs, d).es|
    ensures v in WaysFrom(fs, on, d, comps, k) <==> Chosen(fs, on, d, comps, v) && v[0] >= k
    decreases |comps|, 0, 1 + |Open(fs, d).es| - k
  {
    if k < |Open(fs, d).es| {
      WaysThroughAreChosen(fs, on, d, comps, k, v);
      WaysFromAreChosen(fs, on, d, comps, k + 1, v);
    }
  }

  predicate InOrder(vs: seq<seq<nat>>) {
    forall i, j :: 0 <= i < j < |vs| ==> Before(vs[i], vs[j])
  }

  /** They are listed in readdir order, so each once. */
  lemma {:induction false} WaysInOrder(fs: Fs, on: Options, d: string, comps: seq<string>)
    requires comps != []
    ensures InOrder(Ways(fs, on, d, comps))
    decreases |comps|, 1, 0
  {
    if comps != [""] && Open(fs, d).Entries? {
      WaysFromInOrder(fs, on, d, comps, 0);
    }
  }

  lemma {:induction false} WaysThroughInOrder(fs: Fs, on: Options, d: string, comps: seq<string>, k: nat)
    requires comps != [] && comps != [""] && Open(fs, d).Entries? && k < |Open(fs, d).es|
    ensures InOrder(WaysThrough(fs, on, d, comps, k))
    ensures forall v <- WaysThrough(fs, on, d, comps, k) :: v != [] && v[0] == k
    decreases |comps|, 0, 0
  {
    var e := Open(fs, d).es[k];
    if |comps| > 1 && Takes(on, comps, e) {
      WaysInOrder(fs, on, Child(d, e.name), comps[1..]);
      PrefixedInOrder(k, Ways(fs, on, Child(d, e.name), comps[1..]));
    }
  }

  lemma {:induction false} PrefixedInOrder(k: nat, vs: seq<seq<nat>>)
    requires InOrder(vs)
    ensures InOrder(Prefixed(k, vs))
  {
    var r := Prefixed(k, vs);
    forall i, j | 0 <= i < j < |r|
      ensures Before(r[i], r[j])
    {
      assert r[i][1..] == vs[i] && r[j][1..] == vs[j];
    }
  }

  lemma {:induction false} WaysFromInOrder(fs: Fs, on: Options, d: string, comps: seq<string>, k: nat)
    requires comps != [] && comps != [""] && Open(fs, d).Entries? && k <= |Open(fs, d).es|
    ensures InOrder(WaysFrom(fs, on, d, comps, k))
    ensures forall v <- WaysFrom(fs, on, d, comps, k) :: v != [] && v[0] >= k
    decreases |comps|, 0, 1 + |Open(fs, d).es| - k
  {
    if k < |Open(fs, d).es| {
      WaysThroughInOrder(fs, on, d, comps, k);
      WaysFromInOrder(fs, on, d, comps, k + 1);
      OrderAppends(WaysThrough(fs, on, d, comps, k), WaysFrom(fs, on, d, comps, k + 1), k);
    }
  }

  lemma {:induction false} OrderAppends(vs: seq<seq<nat>>, ws: seq<seq<nat>>, k: nat)
    requires InOrder(vs) && InOrder(ws)
    requires forall v <- vs :: v != [] && v[0] == k
    requires forall w <- ws :: w != [] && w[0] >= k + 1
    ensures InOrder(vs + ws)
  {
  }

  // ---------------------------------------------------------------- the walk finds them

  predicate AllChosen(fs: Fs, on: Options, d: string, comps: seq<string>, vs: seq<seq<nat>>)
    requires comps != []
  {
    forall i :: 0 <= i < |vs| ==> Chosen(fs, on, d, comps, vs[i])
  }

  function PathsOf(fs: Fs, on: Options, d: string, comps: seq<string>, vs: seq<seq<nat>>): seq<string>
    requires comps != [] && AllChosen(fs, on, d, comps, vs)
  {
    seq(|vs|, i requires 0 <= i < |vs| => PathOf(fs, on, d, comps, vs[i]))
  }

  /** The paths to be found below `d`, in readdir order. */
  function Paths(fs: Fs, on: Options, d: string, comps: seq<string>): seq<string>
    requires comps != []
  {
    EveryWayChosen(fs, on, d, comps);
    PathsOf(fs, on, d, comps, Ways(fs, on, d, comps))
  }

  lemma {:induction false} EveryWayChosen(fs: Fs, on: Options, d: string, comps: seq<string>)
    requires comps != []
    ensures AllChosen(fs, on, d, comps, Ways(fs, on, d, comps))
  {
    forall i | 0 <= i < |Ways(fs, on, d, comps)|
      ensures Chosen(fs, on, d, comps, Ways(fs, on, d, comps)[i])
    {
      WaysAreChosen(fs, on, d, comps, Ways(fs, on, d, comps)[i]);
    }
  }

  /** The walk appends the paths to be found: all of them when it returns 0, a first part of them when it is aborted. */
  predicate Finds(w: Walk, paths: seq<string>) {
    (w.code == 0 && w.out == paths) || (w.code == GLOB_ABORTED && w.out <= paths)
  }

  lemma {:induction false} WalkFinds(fs: Fs, on: Options, d: string, comps: seq<string>, errno: int)
    requires comps != []
    ensures Finds(MatchDir(fs, on, d, comps, errno), Paths(fs, on, d, comps))
    decreases |comps|, 1, 0
  {
    hide Takes, Slashed, Child, Marked, Gives;
    EveryWayChosen(fs, on, d, comps);
    if comps != [""] && Open(fs, d).Entries? {
      var es := Open(fs, d).es;
      EntriesFind(fs, on, d, comps, 0, errno);
      assert es[0..] == es;
    }
  }

  lemma {:induction false} EveryWayFromChosen(fs: Fs, on: Options, d: string, comps: seq<string>, k: nat)
    requires comps != [] && comps != [""] && Open(fs, d).Entries? && k <= |Open(fs, d).es|
    ensures AllChosen(fs, on, d, comps, WaysFrom(fs, on, d, comps, k))
    ensures k < |Open(fs, d).es| ==> AllChosen(fs, on, d, comps, WaysThrough(fs, on, d, comps, k))
  {
    var vs := WaysFrom(fs, on, d, comps, k);
    forall i | 0 <= i < |vs|
      ensures Chosen(fs, on, d, comps, vs[i])
    {
      WaysFromAreChosen(fs, on, d, comps, k, vs[i]);
    }
    if k < |Open(fs, d).es| {
      var ws := WaysThrough(fs, on, d, comps, k);
      forall i | 0 <= i < |ws|
        ensures Chosen(fs, on, d, comps, ws[i])
      {
        WaysThroughAreChosen(fs, on, d, comps, k, ws[i]);
      }
    }
  }

  lemma {:induction false} EntryFinds(fs: Fs, on: Options, d: string, comps: seq<string>, k: nat, errno: int)
    requires comps != [] && comps != [""] && Open(fs, d).Entries? && k < |Open(fs, d).es|
    ensures AllChosen(fs, on, d, comps, WaysThrough(fs, on, d, comps, k))
    ensures Finds(MatchEntry(fs, on, d, comps, Open(fs, d).es[k], errno),
                  PathsOf(fs, on, d, comps, WaysThrough(fs, on, d, comps, k)))
    decreases |comps|, 0, 0
  {
    hide Takes, Slashed, Marked, Gives;
    EveryWayFromChosen(fs, on, d, comps, k);
    var e, ways := Open(fs, d).es[k], WaysThrough(fs, on, d, comps, k);
    if Takes(on, comps, e) && |comps| > 1 {
      WalkFinds(fs, on, Child(d, e.name), comps[1..], errno);
      EveryWayChosen(fs, on, Child(d, e.name), comps[1..]);
      PathsBelow(fs, on, d, comps, k);
    }
  }

  /** The paths through one entry are those below it. */
  lemma {:induction false} PathsBelow(fs: Fs, on: Options, d: string, comps: seq<string>, k: nat)
    requires |comps| > 1 && Open(fs, d).Entries? && k < |Open(fs, d).es| && Takes(on, comps, Open(fs, d).es[k])
    requires AllChosen(fs, on, d, comps, WaysThrough(fs, on, d, comps, k))
    ensures PathsOf(fs, on, d, comps, WaysThrough(fs, on, d, comps, k))
         == Paths(fs, on, Child(d, Open(fs, d).es[k].name), comps[1..])
  {
    var e := Open(fs, d).es[k];
    var below, ways := Ways(fs, on, Child(d, e.name), comps[1..]), WaysThrough(fs, on, d, comps, k);
    EveryWayChosen(fs, on, Child(d, e.name), comps[1..]);
    forall i | 0 <= i < |ways|
      ensures PathOf(fs, on, d, comps, ways[i]) == PathOf(fs, on, Child(d, e.name), comps[1..], below[i])
    {
      assert ways[i][1..] == below[i];
    }
  }

  lemma {:induction false} EntriesFind(fs: Fs, on: Options, d: string, comps: seq<string>, k: nat, errno: int)
    requires comps != [] && comps != [""] && Open(fs, d).Entries? && k <= |Open(fs, d).es|
    ensures AllChosen(fs, on, d, comps, WaysFrom(fs, on, d, comps, k))
    ensures Finds(MatchEntries(fs, on, d, comps, Open(fs, d).es[k..], errno),
                  PathsOf(fs, on, d, comps, WaysFrom(fs, on, d, comps, k)))
    decreases |comps|, 0, 1 + |Open(fs, d).es| - k
  {
    hide Takes, Slashed, Marked, Gives, MatchEntry, WaysThrough, Chosen, PathOf;
    EveryWayFromChosen(fs, on, d, comps, k);
    if k < |Open(fs, d).es| {
      var es := Open(fs, d).es;
      assert es[k..][1..] == es[k + 1..] && es[k..][0] == es[k];
      EntryFinds(fs, on, d, comps, k, errno);
      EntriesFind(fs, on, d, comps, k + 1, MatchEntry(fs, on, d, comps, es[k], errno).errno);
      PathsAppend(fs, on, d, comps, WaysThrough(fs, on, d, comps, k), WaysFrom(fs, on, d, comps, k + 1));
    }
  }

  lemma {:induction false} PathsAppend(fs: Fs, on: Options, d: string, comps: seq<string>, vs: seq<seq<nat>>,
                                       ws: seq<seq<nat>>)
    requires comps != [] && AllChosen(fs, on, d, comps, vs) && AllChosen(fs, on, d, comps, ws)
    ensures AllChosen(fs, on, d, comps, vs + ws)
    ensures PathsOf(fs, on, d, comps, vs + ws) == PathsOf(fs, on, d, comps, vs) + PathsOf(fs, on, d, comps, ws)
  {
  }

  // ---------------------------------------------------------------- different ways, different paths

  /** Directories list plain names, each once. */
  predicate PlainNames(fs: Fs, d: string) {
    Open(fs, d).Entries? ==>
      var es := Open(fs, d).es;
      && (forall i :: 0 <= i < |es| ==> es[i].name != "" && '/' !in es[i].name)
      && (forall i, j :: 0 <= i < j < |es| ==> es[i].name != es[j].name)
  }

  /** What follows a name in a path: nothing, or a slash and more. */
  predicate Tail(t: string) {
    t == "" || t[0] == '/'
  }

  lemma {:induction false} NameEndsAtSlash(a: string, t: string)
    requires '/' !in a && Tail(t)
    ensures UpToSlash(a + t) == a
  {
    if a == "" {
      assert a + t == t;
    } else {
      assert (a + t)[1..] == a[1..] + t;
      NameEndsAtSlash(a[1..], t);
    }
  }

  /** A path found below a directory starts with the directory. */
  lemma {:induction false} PathExtends(fs: Fs, on: Options, d: string, comps: seq<string>, v: seq<nat>)
    returns (t: string)
    requires comps != [] && Chosen(fs, on, d, comps, v) && d != "" && d != "/"
    ensures Tail(t) && PathOf(fs, on, d, comps, v) == d + t
    decreases |comps|
  {
    if comps == [""] {
      t := "/";
    } else {
      var e := Open(fs, d).es[v[0]];
      var down := "";
      if |comps| > 1 {
        assert Child(d, e.name) == d + "/" + e.name;
        down := PathExtends(fs, on, Child(d, e.name), comps[1..], v[1..]);
      } else if Marked(fs, on, Child(d, e.name), e.kind) != Child(d, e.name) {
        down := "/";
      }
      t := "/" + e.name + down;
      assert d + "/" + e.name + down == d + t;
    }
  }

  /** What a path starts with, before the name of the first entry taken. */
  function Base(d: string): string {
    if d == "" || d == "/" then d else d + "/"
  }

  lemma {:induction false} PathThrough(fs: Fs, on: Options, d: string, comps: seq<string>, v: seq<nat>)
    returns (t: string)
    requires comps != [] && comps != [""] && Chosen(fs, on, d, comps, v) && PlainNames(fs, d)
    ensures Tail(t) && PathOf(fs, on, d, comps, v) == Base(d) + (Open(fs, d).es[v[0]].name + t)
  {
    var e := Open(fs, d).es[v[0]];
    var child := Child(d, e.name);
    assert child == Base(d) + e.name;
    t := "";
    if |comps| > 1 {
      t := PathExtends(fs, on, child, comps[1..], v[1..]);
    } else if Marked(fs, on, child, e.kind) != child {
      t := "/";
    }
    assert child + t == Base(d) + (e.name + t);
  }

  /** Different ways lead to different paths, so no path is found twice. */
  lemma {:induction false} DistinctPaths(fs: Fs, on: Options, d: string, comps: seq<string>, v: seq<nat>, w: seq<nat>)
    requires comps != [] && Chosen(fs, on, d, comps, v) && Chosen(fs, on, d, comps, w) && v != w
    requires forall dir: string :: PlainNames(fs, dir)
    ensures PathOf(fs, on, d, comps, v) != PathOf(fs, on, d, comps, w)
    decreases |comps|
  {
    if comps != [""] {
      if v[0] == w[0] {
        assert v == [v[0]] + v[1..] && w == [w[0]] + w[1..];
        if |comps| > 1 {
          DistinctPaths(fs, on, Child(d, Open(fs, d).es[v[0]].name), comps[1..], v[1..], w[1..]);
        }
      } else {
        var s := PathThrough(fs, on, d, comps, v);
        var t := PathThrough(fs, on, d, comps, w);
        var a, b := Open(fs, d).es[v[0]].name, Open(fs, d).es[w[0]].name;
        assert PlainNames(fs, d);
        NameEndsAtSlash(a, s);
        NameEndsAtSlash(b, t);
        assert (Base(d) + (a + s))[|Base(d)|..] == a + s && (Base(d) + (b + t))[|Base(d)|..] == b + t;
      }
    }
  }

  // ---------------------------------------------------------------- aborted walks

  /** With no GLOB_ERR and an error function that lets everything pass, no walk is aborted, whatever errno was. */
  lemma {:induction false} NeverAborted(fs: Fs, on: Options, d: string, comps: seq<string>, errno: int)
    requires comps != [] && !on.err && forall path, e :: !on.errFunc(path, e)
    ensures MatchDir(fs, on, d, comps, errno).code == 0
    decreases |comps|, 1, 0
  {
    if comps != [""] && Open(fs, d).Entries? {
      EntriesNeverAborted(fs, on, d, comps, Open(fs, d).es, errno);
    }
  }

  lemma {:induction false} EntriesNeverAborted(fs: Fs, on: Options, d: string, comps: seq<string>, es: seq<Entry>,
                                               errno: int)
    requires comps != [] && !on.err && forall path, e :: !on.errFunc(path, e)
    ensures MatchEntries(fs, on, d, comps, es, errno).code == 0
    decreases |comps|, 0, 1 + |es|
  {
    if es != [] {
      var e := es[0];
      if |comps| > 1 {
        NeverAborted(fs, on, Child(d, e.name), comps[1..], errno);
      }
      EntriesNeverAborted(fs, on, d, comps, es[1..], MatchEntry(fs, on, d, comps, e, errno).errno);
    }
  }

  // ---------------------------------------------------------------- errno and aborted walks

  /** The calls of a walk that matter to errno, in order: a directory is opened, which leaves errno alone, and what
      errno holds then will be judged when its entries have been read; a call fails and only sets errno; opendir fails
      with `judged` and the code has to decide, errno being `errno` afterwards. */
  datatype Event = Reads(dir: string) | Sets(errno: int) | Refused(dir: string, judged: int, errno: int)

  function StatEvents(st: Stat): seq<Event> {
    if st.Gone? then [Sets(st.errno)] else []
  }

  /** All such calls of a walk that is not aborted. */
  function Trace(fs: Fs, on: Options, d: string, comps: seq<string>): seq<Event>
    requires comps != []
    decreases |comps|, 1, 0
  {
    match Open(fs, d)
    case Failed(e) =>
      if e == ENOTDIR then [Sets(e)]
      else if e == EACCES && comps == [""] then
        if fs.stat(d) == Found(true) then [Sets(e)] else [Refused(d, e, AfterStat(fs.stat(d), e))]
      else [Refused(d, e, e)]
    case Entries(es) =>
      if comps == [""] then []
      else (if ErrnoKept(on, comps, es) then [Reads(d)] else []) + TraceEntries(fs, on, d, comps, es)
  }

  function TraceEntry(fs: Fs, on: Options, d: string, comps: seq<string>, e: Entry): seq<Event>
    requires comps != []
    decreases |comps|, 0, 0
  {
    if !Takes(on, comps, e) then []
    else if |comps| > 1 then Trace(fs, on, Child(d, e.name), comps[1..])
    else if LooksUp(on, e.kind) then StatEvents(fs.stat(Child(d, e.name))) else []
  }

  function TraceEntries(fs: Fs, on: Options, d: string, comps: seq<string>, es: seq<Entry>): seq<Event>
    requires comps != []
    decreases |comps|, 0, 1 + |es|
  {
    if es == [] then [] else TraceEntry(fs, on, d, comps, es[0]) + TraceEntries(fs, on, d, comps, es[1..])
  }

  /** errno after the events. */
  function ErrnoAfter(trace: seq<Event>, errno: int): int {
    if trace == [] then errno
    else
      var last := trace[|trace| - 1];
      if last.Reads? then ErrnoAfter(trace[..|trace| - 1], errno) else last.errno
  }

  /** The error that event `i` is judged by: for a directory read, whatever errno happens to hold when it is opened. */
  function Judged(trace: seq<Event>, errno: int, i: nat): int
    requires i < |trace|
  {
    match trace[i]
    case Reads(_) => ErrnoAfter(trace[..i], errno)
    case Sets(_) => 0
    case Refused(_, judged, _) => judged
  }

  /** Event `i` makes the walk give up. */
  predicate GivesUpAt(on: Options, trace: seq<Event>, errno: int, i: nat)
    requires i < |trace|
  {
    match trace[i]
    case Reads(dir) => Judged(trace, errno, i) != 0 && Gives(on, dir, Judged(trace, errno, i))
    case Sets(_) => false
    case Refused(dir, judged, _) => Gives(on, dir, judged)
  }

  predicate GivesUp(on: Options, trace: seq<Event>, errno: int) {
    exists i :: 0 <= i < |trace| && GivesUpAt(on, trace, errno, i)
  }

  lemma {:induction false} ErrnoAppends(a: seq<Event>, b: seq<Event>, errno: int)
    ensures ErrnoAfter(a + b, errno) == ErrnoAfter(b, ErrnoAfter(a, errno))
    decreases |b|
  {
    if b == [] {
      assert a + b == a;
    } else {
      assert (a + b)[..|a + b| - 1] == a + b[..|b| - 1];
      ErrnoAppends(a, b[..|b| - 1], errno);
    }
  }

  lemma {:induction false} GivesUpInFirst(on: Options, a: seq<Event>, b: seq<Event>, errno: int, i: nat)
    requires i < |a|
    ensures GivesUpAt(on, a + b, errno, i) == GivesUpAt(on, a, errno, i)
  {
    assert (a + b)[..i] == a[..i];
  }

  lemma {:induction false} GivesUpInSecond(on: Options, a: seq<Event>, b: seq<Event>, errno: int, i: nat)
    requires i < |b|
    ensures GivesUpAt(on, a + b, errno, |a| + i) == GivesUpAt(on, b, ErrnoAfter(a, errno), i)
  {
    assert (a + b)[..|a| + i] == a + b[..i];
    ErrnoAppends(a, b[..i], errno);
  }

  lemma {:induction false} GivesUpAppends(on: Options, a: seq<Event>, b: seq<Event>, errno: int)
    ensures GivesUp(on, a + b, errno) <==> GivesUp(on, a, errno) || GivesUp(on, b, ErrnoAfter(a, errno))
  {
    hide GivesUpAt;
    var e := ErrnoAfter(a, errno);
    if GivesUp(on, a, errno) {
      var i :| 0 <= i < |a| && GivesUpAt(on, a, errno, i);
      GivesUpInFirst(on, a, b, errno, i);
    }
    if GivesUp(on, b, e) {
      var i :| 0 <= i < |b| && GivesUpAt(on, b, e, i);
      GivesUpInSecond(on, a, b, errno, i);
    }
    if GivesUp(on, a + b, errno) {
      var i :| 0 <= i < |a + b| && GivesUpAt(on, a + b, errno, i);
      if i < |a| {
        GivesUpInFirst(on, a, b, errno, i);
      } else {
        GivesUpInSecond(on, a, b, errno, i - |a|);
      }
    }
  }

  /** A walk and its events: aborted or not, and errno when it is not. */
  predicate Agrees(on: Options, w: Walk, trace: seq<Event>, errno: int) {
    && (w.code == 0 <==> !GivesUp(on, trace, errno))
    && (w.code == 0 ==> w.errno == ErrnoAfter(trace, errno))
  }

  lemma {:induction false} NoEvents(on: Options, errno: int)
    ensures !GivesUp(on, [], errno) && ErrnoAfter([], errno) == errno
  {
  }

  lemma {:induction false} OneEvent(on: Options, e: Event, errno: int)
    ensures GivesUp(on, [e], errno) <==> GivesUpAt(on, [e], errno, 0)
    ensures e.Reads? ==> (GivesUp(on, [e], errno) <==> errno != 0 && Gives(on, e.dir, errno))
    ensures e.Sets? ==> !GivesUp(on, [e], errno)
    ensures e.Refused? ==> (GivesUp(on, [e], errno) <==> Gives(on, e.dir, e.judged))
    ensures ErrnoAfter([e], errno) == if e.Reads? then errno else e.errno
  {
    assert [e][..0] == [] && [e][0] == e;
    if GivesUpAt(on, [e], errno, 0) {
      assert GivesUp(on, [e], errno);
    }
  }

  /** For every file system, pattern, errno on entry, flags and error function: the walk is aborted if and only if some
      event gives it up, that is, some opendir fails and the error is not passed over, or some directory in which errno
      is kept is opened while errno holds an error, of whatever call, that is not passed over for that directory. */
  lemma {:induction false} AbortedIff(fs: Fs, on: Options, d: string, comps: seq<string>, errno: int)
    requires comps != []
    ensures Agrees(on, MatchDir(fs, on, d, comps, errno), Trace(fs, on, d, comps), errno)
    decreases |comps|, 1, 0
  {
    hide Takes, Child, GivesUp, ErrnoAfter, Slashed, Gives, LooksUp;
    match Open(fs, d)
    case Failed(e) =>
      OneEvent(on, Trace(fs, on, d, comps)[0], errno);
    case Entries(es) =>
      NoEvents(on, errno);
      if comps != [""] {
        assert es[0..] == es;
        EntriesAbortedIff(fs, on, d, comps, es, errno);
        var below := TraceEntries(fs, on, d, comps, es);
        assert [] + below == below;
        OneEvent(on, Reads(d), errno);
        GivesUpAppends(on, [Reads(d)], below, errno);
        ErrnoAppends([Reads(d)], below, errno);
      }
  }

  lemma {:induction false} EntryAbortedIff(fs: Fs, on: Options, d: string, comps: seq<string>, e: Entry, errno: int)
    requires comps != []
    ensures Agrees(on, MatchEntry(fs, on, d, comps, e, errno), TraceEntry(fs, on, d, comps, e), errno)
    decreases |comps|, 0, 0
  {
    hide Takes, Child, GivesUp, ErrnoAfter, Marked, LooksUp;
    NoEvents(on, errno);
    if Takes(on, comps, e) && |comps| > 1 {
      AbortedIff(fs, on, Child(d, e.name), comps[1..], errno);
    } else if Takes(on, comps, e) && LooksUp(on, e.kind) {
      var st := fs.stat(Child(d, e.name));
      if st.Gone? {
        OneEvent(on, Sets(st.errno), errno);
      }
    }
  }

  lemma {:induction false} EntriesAbortedIff(fs: Fs, on: Options, d: string, comps: seq<string>, es: seq<Entry>,
                                             errno: int)
    requires comps != []
    ensures Agrees(on, MatchEntries(fs, on, d, comps, es, errno), TraceEntries(fs, on, d, comps, es), errno)
    decreases |comps|, 0, 1 + |es|
  {
    hide GivesUp, ErrnoAfter, MatchEntry, TraceEntry;
    NoEvents(on, errno);
    if es != [] {
      var here, below := TraceEntry(fs, on, d, comps, es[0]), TraceEntries(fs, on, d, comps, es[1..]);
      EntryAbortedIff(fs, on, d, comps, es[0], errno);
      EntriesAbortedIff(fs, on, d, comps, es[1..], MatchEntry(fs, on, d, comps, es[0], errno).errno);
      GivesUpAppends(on, here, below, errno);
      ErrnoAppends(here, below, errno);
    }
  }

  /** No directory the walk comes to refuses to be opened. */
  predicate NoRefusals(trace: seq<Event>) {
    forall i :: 0 <= i < |trace| ==> !trace[i].Refused?
  }

  /** Some directory in which errno is kept is opened while errno holds an error, from before the call or from a call
      that failed on the way, and the error is not passed over. */
  predicate ReadAfterError(on: Options, trace: seq<Event>, errno: int) {
    exists i :: 0 <= i < |trace| && trace[i].Reads? && Judged(trace, errno, i) != 0
                && Gives(on, trace[i].dir, Judged(trace, errno, i))
  }

  /** When no directory refuses to be opened the walk should not be aborted. It is, exactly when some directory in which
      errno is kept is opened with errno already set to an error that GLOB_ERR or the caller's function does not pass
      over. */
  lemma {:induction false} AbortedByStaleErrno(fs: Fs, on: Options, d: string, comps: seq<string>, errno: int)
    requires comps != [] && NoRefusals(Trace(fs, on, d, comps))
    ensures MatchDir(fs, on, d, comps, errno).code != 0 <==> ReadAfterError(on, Trace(fs, on, d, comps), errno)
  {
    hide Judged, Gives, Trace, MatchDir;
    var trace := Trace(fs, on, d, comps);
    AbortedIff(fs, on, d, comps, errno);
    if GivesUp(on, trace, errno) {
      var i :| 0 <= i < |trace| && GivesUpAt(on, trace, errno, i);
      assert trace[i].Reads?;
    }
    if ReadAfterError(on, trace, errno) {
      var i :| 0 <= i < |trace| && trace[i].Reads? && Judged(trace, errno, i) != 0
               && Gives(on, trace[i].dir, Judged(trace, errno, i));
      assert GivesUpAt(on, trace, errno, i);
    }
  }

  /** A plain file whose kind readdir does not tell, and a directory behind it. */
  function FileThenDirectory(): Fs {
    Fs((p: string) =>
         if p == "." then Entries([Entry("f", Unknown), Entry("g", Directory)])
         else if p == "g" then Entries([Entry("x", OtherKind)])
         else Failed(ENOTDIR),
       (p: string) => Found(false))
  }

  const ENOENT := 2

  /** A directory with a dangling symbolic link in it, and a directory behind that one. */
  function LinkThenDirectory(): Fs {
    Fs((p: string) =>
         if p == "." then Entries([Entry("a", Directory), Entry("b", Directory)])
         else if p == "a" then Entries([Entry("x", Link)])
         else if p == "b" then Entries([])
         else Failed(ENOENT),
       (p: string) => Gone(ENOENT, false))
  }

  /** One readable directory. */
  function OneDirectory(): Fs {
    Fs((p: string) => if p == "." then Entries([Entry("g", Directory)]) else Entries([]), (p: string) => Found(true))
  }

  /** GLOB_ERR, with or without GLOB_MARK, and patterns that match every name. */
  function AnyName(mark: bool): Options {
    Options(true, mark, false, false, (p: string, e: int) => false,
            (pattern: string, name: string, period: bool) => true)
  }

  /** In the first tree the pattern of two stars is given up under GLOB_ERR although errno was 0 and every directory
      could be read: the file set errno. */
  lemma {:induction false} FileAbortsWalk()
    ensures var fs, on, comps := FileThenDirectory(), AnyName(false), ["*", "*"];
      && Trace(fs, on, "", comps) == [Sets(ENOTDIR), Reads("g")]
      && NoRefusals(Trace(fs, on, "", comps)) && MatchDir(fs, on, "", comps, 0).code == GLOB_ABORTED
  {
    var fs, on, comps := FileThenDirectory(), AnyName(false), ["*", "*"];
    var es := Open(fs, "").es;
    assert es == [Entry("f", Unknown), Entry("g", Directory)];
    assert comps[1..] == ["*"];
    assert Open(fs, "f") == Failed(ENOTDIR) && Open(fs, "g") == Entries([Entry("x", OtherKind)]);
    assert es[1..] == [es[1]] && es[1..][1..] == [];
    assert Trace(fs, on, "f", ["*"]) == [Sets(ENOTDIR)];
    assert TraceEntries(fs, on, "g", ["*"], Open(fs, "g").es) == [];
    assert Trace(fs, on, "g", ["*"]) == [Reads("g")];
    assert TraceEntries(fs, on, "", comps, es[1..]) == [Reads("g")];
    var trace := [Sets(ENOTDIR), Reads("g")];
    assert Trace(fs, on, "", comps) == trace;
    StaleAtLast(fs, on, comps, trace);
  }

  /** In the second tree it is given up under GLOB_ERR and GLOB_MARK: the failing stat set errno. */
  lemma {:induction false} LinkAbortsWalk()
    ensures var fs, on, comps := LinkThenDirectory(), AnyName(true), ["*", "*"];
      && Trace(fs, on, "", comps) == [Reads("a"), Sets(ENOENT), Reads("b")]
      && NoRefusals(Trace(fs, on, "", comps)) && MatchDir(fs, on, "", comps, 0).code == GLOB_ABORTED
  {
    var fs, on, comps := LinkThenDirectory(), AnyName(true), ["*", "*"];
    var es := Open(fs, "").es;
    assert es == [Entry("a", Directory), Entry("b", Directory)];
    assert comps[1..] == ["*"];
    assert Open(fs, "a") == Entries([Entry("x", Link)]) && Open(fs, "b") == Entries([]);
    assert es[1..] == [es[1]] && es[1..][1..] == [];
    assert [Entry("x", Link)][1..] == [];
    assert TraceEntry(fs, on, "a", ["*"], Entry("x", Link)) == [Sets(ENOENT)];
    assert TraceEntries(fs, on, "a", ["*"], [Entry("x", Link)]) == [Sets(ENOENT)];
    assert Trace(fs, on, "a", ["*"]) == [Reads("a"), Sets(ENOENT)];
    assert Trace(fs, on, "b", ["*"]) == [Reads("b")];
    assert TraceEntries(fs, on, "", comps, es[1..]) == [Reads("b")];
    var trace := [Reads("a"), Sets(ENOENT), Reads("b")];
    assert Trace(fs, on, "", comps) == trace;
    StaleAtLast(fs, on, comps, trace);
  }

  /** A recursive call overwrites the errno kept: in this tree of one directory the pattern of a star and a slash is
      never given up, whatever errno was. */
  lemma {:induction false} SlashOverwritesErrno(errno: int)
    ensures var fs, on, comps := OneDirectory(), AnyName(false), ["*", ""];
      && Trace(fs, on, "", comps) == [] && MatchDir(fs, on, "", comps, errno) == Walk(0, ["g/"], errno)
  {
    var fs, on, comps := OneDirectory(), AnyName(false), ["*", ""];
    var es := Open(fs, "").es;
    assert es == [Entry("g", Directory)] && es[1..] == [];
    assert comps[1..] == [""] && Child("", "g") == "g" && Open(fs, "g") == Entries([]) && Slashed("g") == "g/";
    assert MatchDir(fs, on, "g", [""], errno) == Walk(0, ["g/"], errno) && Trace(fs, on, "g", [""]) == [];
    assert Takes(on, comps, es[0]);
    assert MatchEntries(fs, on, "", comps, es, errno) == Walk(0, ["g/"], errno);
  }

  /** errno was 0, a call has just failed, and the last directory is read. */
  lemma {:induction false} StaleAtLast(fs: Fs, on: Options, comps: seq<string>, trace: seq<Event>)
    requires comps != [] && on.err && Trace(fs, on, "", comps) == trace && |trace| >= 2
    requires trace[|trace| - 1].Reads? && trace[|trace| - 2].Sets? && trace[|trace| - 2].errno != 0
    ensures MatchDir(fs, on, "", comps, 0).code == GLOB_ABORTED
  {
    hide Trace, MatchDir;
    var n := |trace| - 1;
    assert trace[..n][|trace[..n]| - 1] == trace[n - 1];
    assert Judged(trace, 0, n) == trace[n - 1].errno;
    assert GivesUpAt(on, trace, 0, n);
    AbortedIff(fs, on, "", comps, 0);
    WalkFinds(fs, on, "", comps, 0);
  }
}
