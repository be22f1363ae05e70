/** One call of glob (glibc-compatibility/musl/glob.c), from the pattern to the names delivered: every condition written
    out, none of it in terms of the walk. */
module GlobLaws {
  import opened Text
  import opened Glob
  import opened GlobHeap

  // ---------------------------------------------------------------- the order of strcmp

  /** The first character in which the strings differ decides; a string comes before its extensions. */
  predicate StrcmpLess(a: string, b: string) {
    exists k: nat :: k <= |a| && k < |b| && a[..k] == b[..k] && (k < |a| ==> a[k] < b[k])
  }

  lemma {:induction false} NameLessIsStrcmp(a: string, b: string)
    ensures NameLess(a, b) <==> StrcmpLess(a, b)
  {
    if a == [] || b == [] {
      assert b != [] ==> a[..0] == b[..0];
    } else {
      NameLessIsStrcmp(a[1..], b[1..]);
      if a[0] < b[0] {
        assert a[..0] == b[..0];
      }
      if a[0] == b[0] && NameLess(a[1..], b[1..]) {
        var k: nat :| k <= |a[1..]| && k < |b[1..]| && a[1..][..k] == b[1..][..k]
                      && (k < |a[1..]| ==> a[1..][k] < b[1..][k]);
        assert a[..k + 1] == [a[0]] + a[1..][..k] && b[..k + 1] == [b[0]] + b[1..][..k];
      }
      if StrcmpLess(a, b) {
        var k: nat :| k <= |a| && k < |b| && a[..k] == b[..k] && (k < |a| ==> a[k] < b[k]);
        if k > 0 {
          assert a[0] == a[..k][0] == b[..k][0] == b[0];
          assert a[1..][..k - 1] == a[..k][1..] == b[..k][1..] == b[1..][..k - 1];
        }
      }
    }
  }

  // ---------------------------------------------------------------- components of a pattern

  function NonEmpty(parts: seq<string>): seq<string> {
    if parts == [] then []
    else if parts[0] == "" then NonEmpty(parts[1..])
    else [parts[0]] + NonEmpty(parts[1..])
  }

  /** The parts of a pattern between its slashes. */
  function Parts(pat: string): seq<string> {
    NonEmpty(Split(pat, '/'))
  }

  predicate EndsInSlash(pat: string) {
    pat != "" && pat[|pat| - 1] == '/'
  }

  /** The first `n` characters are the slashes that the pattern starts with. */
  predicate LeadingSlashes(pat: string, n: nat) {
    n <= |pat| && (forall i :: 0 <= i < n ==> pat[i] == '/') && (n < |pat| ==> pat[n] != '/')
  }

  lemma {:induction false} SkipsLeading(pat: string, n: nat)
    requires LeadingSlashes(pat, n)
    ensures SkipSlashes(pat) == pat[n..]
  {
    if n > 0 {
      assert pat[1..][n - 1..] == pat[n..];
      SkipsLeading(pat[1..], n - 1);
    }
  }

  lemma {:induction false} SlashesAddNothing(pat: string)
    requires pat != "" && pat[0] == '/'
    ensures Parts(pat) == Parts(pat[1..])
  {
    assert Split(pat, '/')[1..] == Split(pat[1..], '/');
  }

  lemma {:induction false} SkippedAddNothing(pat: string)
    ensures Parts(SkipSlashes(pat)) == Parts(pat)
    ensures pat != "" && SkipSlashes(pat) != "" ==> EndsInSlash(SkipSlashes(pat)) == EndsInSlash(pat)
    ensures pat != "" && SkipSlashes(pat) == "" ==> EndsInSlash(pat)
  {
    if pat != "" && pat[0] == '/' {
      SkippedAddNothing(pat[1..]);
      SlashesAddNothing(pat);
    }
  }

  lemma {:induction false} FirstPart(a: string, rest: string)
    requires a != "" && '/' !in a && rest != "" && rest[0] == '/'
    ensures Parts(a + rest) == [a] + Parts(rest)
  {
    assert a + rest == a + ['/'] + rest[1..];
    SplitAtSep(a, rest[1..], '/');
    SlashesAddNothing(rest);
  }

  /** A pattern asks for its parts one after another, and for a directory at the end when it ends in a slash. */
  lemma {:induction false} ComponentsAreParts(p: string)
    requires p != "" && Rest(p)
    ensures Components(p) == Parts(p) + if EndsInSlash(p) then [""] else []
    decreases |p|
  {
    hide Parts;
    var first := UpToSlash(p);
    if |first| == |p| {
      OnePart(p);
    } else {
      var behind := p[|first|..];
      assert p == first + behind;
      FirstPart(first, behind);
      var rest := SkipSlashes(behind);
      SkippedAddNothing(behind);
      if rest == "" {
        NoParts();
      } else {
        ComponentsAreParts(rest);
      }
    }
  }

  lemma {:induction false} NoParts()
    ensures Parts("") == []
  {
  }

  lemma {:induction false} OnePart(p: string)
    requires p != "" && '/' !in p
    ensures Parts(p) == [p]
  {
    SplitOne(p, '/');
    assert [p][1..] == [] && NonEmpty([p]) == [p];
  }

  /** The walk of a call starts at the root or at the current directory, with the parts of the pattern. */
  lemma {:induction false} SearchStarts(fs: Fs, on: Options, pat: string, errno: int)
    requires pat != ""
    ensures Parts(pat) + (if EndsInSlash(pat) then [""] else []) != []
    ensures Search(fs, on, pat, errno)
         == MatchDir(fs, on, if pat[0] == '/' then "/" else "",
                     Parts(pat) + (if EndsInSlash(pat) then [""] else []), errno)
  {
    hide Parts, MatchDir;
    var p := SkipSlashes(pat);
    SkippedAddNothing(pat);
    if p == "" {
      NoParts();
      assert [] + [""] == [""];
    } else {
      ComponentsAreParts(p);
    }
    assert Components(p) == Parts(pat) + if EndsInSlash(pat) then [""] else [];
  }

  lemma {:induction false} PartsAreNames(pat: string)
    ensures forall p <- Parts(pat) :: p != "" && '/' !in p
  {
    forall k | 0 <= k < |Split(pat, '/')|
      ensures '/' !in Split(pat, '/')[k]
    {
      SplitHasNoSep(pat, '/', k);
    }
    NonEmptyAre(Split(pat, '/'));
  }

  lemma {:induction false} NonEmptyAre(parts: seq<string>)
    ensures forall p <- NonEmpty(parts) :: p != "" && p in parts
  {
    if parts != [] {
      NonEmptyAre(parts[1..]);
    }
  }

  // ---------------------------------------------------------------- what one call delivers

  /** One call: a pattern of more than 4096 characters behind its leading slashes delivers nothing. Otherwise the names
      that the walk finds are delivered in strcmp order, or with GLOB_NOSORT as found. When it finds none, the pattern
      itself is delivered under GLOB_NOCHECK, and nothing otherwise, which is no match. */
  lemma {:induction false} CallDelivers(fs: Fs, on: Options, fl: Flags, pat: string, errno: int, n: nat)
    requires LeadingSlashes(pat, n)
    ensures var w, walk := Outcome(fs, on, fl, pat, errno), Search(fs, on, pat, errno);
      if |pat| - n > 4096 then w == Walk(1, [], errno)
      else
        && w.errno == walk.errno
        && if walk.out == [] then
             if fl.noCheck then w.out == [pat] && w.code == walk.code else w.out == [] && w.code == 3
           else
             && w.code == walk.code && multiset(w.out) == multiset(walk.out)
             && if fl.noSort then w.out == walk.out
                else forall i, j :: 0 <= i < j < |w.out| ==> w.out[i] == w.out[j] || StrcmpLess(w.out[i], w.out[j])
  {
    hide Search, Sorted, StrcmpLess, SkipSlashes;
    SkipsLeading(pat, n);
    var w, walk := Outcome(fs, on, fl, pat, errno), Search(fs, on, pat, errno);
    if |pat| - n <= 4096 {
      if walk.out == [] {
        SortedOne(pat);
      } else if !fl.noSort {
        SortedIsAscending(walk.out);
        forall i, j | 0 <= i < j < |w.out|
          ensures w.out[i] == w.out[j] || StrcmpLess(w.out[i], w.out[j])
        {
          NameLessIsOrder(w.out[i], w.out[j], w.out[i]);
          NameLessIsStrcmp(w.out[i], w.out[j]);
        }
      }
    }
  }

  lemma {:induction false} SortedOne(name: string)
    ensures Sorted([name]) == [name]
  {
    assert [name][..0] == [];
  }

  // ---------------------------------------------------------------- routes through the file system

  /** No wildcard, no escape, no closing bracket behind an opening one. */
  predicate Plain(p: string, escapes: bool) {
    && '?' !in p && '*' !in p && (escapes ==> '\\' !in p)
    && forall i, j :: 0 <= i < j < |p| ==> !(p[i] == '[' && p[j] == ']')
  }

  /** The entry may stand for the part: a plain part is the name itself, another one is up to fnmatch. On the way down
      the entry must not be known to be neither a directory nor a link, and a star does not stand for `.` or `..`. */
  predicate Accepts(on: Options, p: string, e: Entry, down: bool) {
    && (if Plain(p, !on.noEscape) then e.name == p else on.fnMatch(p, e.name, !on.period))
    && (down ==> e.kind != OtherKind)
    && (down && on.period && (e.name == "." || e.name == "..") ==> on.fnMatch(p, e.name, true))
  }

  function Names(es: seq<Entry>): (names: seq<string>)
    ensures |names| == |es| && forall i :: 0 <= i < |es| ==> names[i] == es[i].name
  {
    seq(|es|, i requires 0 <= i < |es| => es[i].name)
  }

  /** The directory a route has come to after `es`, from the root or from the current directory. */
  function DirAfter(d: string, es: seq<Entry>): string {
    if es == [] then d
    else if d == "" || d == "/" then d + Join(Names(es), '/')
    else d + "/" + Join(Names(es), '/')
  }

  /** A route: for every part the `v[i]`th entry `es[i]` of the directory that the entries before lead to. A slash at
      the end asks for a directory there, one that can be opened or is known to be one. */
  predicate Route(fs: Fs, on: Options, d: string, parts: seq<string>, slash: bool, v: seq<nat>, es: seq<Entry>) {
    && |v| == |es| == |parts|
    && (forall i :: 0 <= i < |es| ==>
          && RouteStep(fs, DirAfter(d, es[..i]), v[i], es[i])
          && Accepts(on, parts[i], es[i], i + 1 < |parts| || slash))
    && (slash ==> IsDirectory(fs, DirAfter(d, es)))
  }

  predicate RouteStep(fs: Fs, d: string, k: nat, e: Entry) {
    var dir := fs.openDir(if d == "" then "." else d);
    dir.Entries? && k < |dir.es| && dir.es[k] == e
  }

  predicate IsDirectory(fs: Fs, d: string) {
    var dir := fs.openDir(if d == "" then "." else d);
    dir.Entries? || (dir.errno == 13 && fs.stat(d) == Found(true))
  }

  /** The name a route delivers: the path, behind it a slash when the pattern ends in one, or under GLOB_MARK when the
      last entry is a directory, which stat is asked when readdir does not tell or names a link. */
  function RouteName(fs: Fs, on: Options, d: string, slash: bool, es: seq<Entry>): string
    requires slash || es != []
  {
    var path := DirAfter(d, es);
    if slash then
      if path == "/" || path == "" then path else path + "/"
    else
      var kind := es[|es| - 1].kind;
      var isDir := if kind == Unknown || kind == Link then
          (match fs.stat(path) case Found(dir) => dir case Gone(_, left) => left)
        else kind == Directory;
      if on.mark && isDir then path + "/" else path
  }

  /** Readdir gives non-empty names without slashes. */
  ghost predicate NamesAreNames(fs: Fs) {
    forall path, e :: fs.openDir(path).Entries? && e in fs.openDir(path).es ==> e.name != "" && '/' !in e.name
  }

  lemma {:induction false} AcceptsIsTakes(on: Options, comps: seq<string>, e: Entry)
    requires comps != []
    ensures Takes(on, comps, e) <==> Accepts(on, comps[0], e, |comps| > 1)
  {
    LiteralMeans(comps[0], !on.noEscape, false);
  }

  lemma {:induction false} ChildIs(d: string, e: Entry)
    requires e.name != "" && '/' !in e.name
    ensures Child(d, e.name) == DirAfter(d, [e]) && Child(d, e.name) != "" && Child(d, e.name) != "/"
  {
    assert Names([e]) == [e.name];
  }

  lemma {:induction false} JoinCons(e: Entry, es: seq<Entry>)
    requires es != []
    ensures Join(Names([e] + es), '/') == e.name + "/" + Join(Names(es), '/')
  {
    assert Names([e] + es) == [e.name] + Names(es);
    assert Names([e] + es)[1..] == Names(es);
  }

  lemma {:induction false} DirBelow(d: string, e: Entry, es: seq<Entry>)
    requires e.name != "" && '/' !in e.name
    ensures DirAfter(Child(d, e.name), es) == DirAfter(d, [e] + es)
  {
    hide Join, Names;
    ChildIs(d, e);
    if es != [] {
      JoinCons(e, es);
      var rest := Join(Names(es), '/');
      assert Child(d, e.name) + "/" + rest == DirAfter(d, [e] + es) by {
        if d == "" || d == "/" {
          assert d + e.name + "/" + rest == d + (e.name + "/" + rest);
        } else {
          assert d + "/" + e.name + "/" + rest == d + "/" + (e.name + "/" + rest);
        }
      }
    } else {
      assert [e] + es == [e];
    }
  }

  // ---------------------------------------------------------------- routes and ways

  function Comps(parts: seq<string>, slash: bool): seq<string> {
    parts + if slash then [""] else []
  }

  predicate NonEmptyNames(parts: seq<string>) {
    forall p <- parts :: p != ""
  }

  lemma {:induction false} EmptyRoute(fs: Fs, on: Options, d: string, slash: bool, v: seq<nat>, es: seq<Entry>)
    ensures Route(fs, on, d, [], slash, v, es) <==> v == [] && es == [] && (slash ==> IsDirectory(fs, d))
    ensures RouteName(fs, on, d, true, []) == Slashed(d)
  {
    if v == [] && es == [] {
      assert DirAfter(d, es) == d;
    }
  }

  /** One step of a route, and the rest of it from the directory stepped into. */
  lemma {:induction false} RouteCons(fs: Fs, on: Options, d: string, parts: seq<string>, slash: bool, v: seq<nat>,
                                     e: Entry, below: seq<Entry>)
    requires parts != [] && v != [] && e.name != "" && '/' !in e.name
    ensures Route(fs, on, d, parts, slash, v, [e] + below)
        <==> && RouteStep(fs, d, v[0], e) && Accepts(on, parts[0], e, |parts| > 1 || slash)
             && Route(fs, on, Child(d, e.name), parts[1..], slash, v[1..], below)
  {
    hide Accepts, Child, DirAfter, RouteStep, IsDirectory;
    var es, child := [e] + below, Child(d, e.name);
    DirBelow(d, e, below);
    if |es| == |parts| {
      forall i | 0 < i < |es|
        ensures es[i] == below[i - 1] && DirAfter(d, es[..i]) == DirAfter(child, below[..i - 1])
      {
        DirBelow(d, e, below[..i - 1]);
        assert es[..i] == [e] + below[..i - 1];
      }
      NoSteps(d, es);
      if Route(fs, on, d, parts, slash, v, es) {
        RestOfRoute(fs, on, d, parts, slash, v, e, below);
      }
    }
  }

  lemma {:induction false} NoSteps(d: string, es: seq<Entry>)
    ensures DirAfter(d, es[..0]) == d
  {
  }

  lemma {:induction false} RestOfRoute(fs: Fs, on: Options, d: string, parts: seq<string>, slash: bool, v: seq<nat>,
                                       e: Entry, below: seq<Entry>)
    requires parts != [] && v != [] && e.name != "" && '/' !in e.name
    requires Route(fs, on, d, parts, slash, v, [e] + below)
    ensures Route(fs, on, Child(d, e.name), parts[1..], slash, v[1..], below)
  {
    hide Accepts, Child, DirAfter, RouteStep, IsDirectory;
    var es, child := [e] + below, Child(d, e.name);
    DirBelow(d, e, below);
    forall i | 0 <= i < |below|
      ensures RouteStep(fs, DirAfter(child, below[..i]), v[1..][i], below[i])
      ensures Accepts(on, parts[1..][i], below[i], i + 1 < |parts[1..]| || slash)
    {
      DirBelow(d, e, below[..i]);
      assert es[..i + 1] == [e] + below[..i] && es[i + 1] == below[i];
    }
  }

  lemma {:induction false} NameBelow(fs: Fs, on: Options, d: string, slash: bool, e: Entry, below: seq<Entry>)
    requires e.name != "" && '/' !in e.name
    ensures slash || below != [] ==>
      RouteName(fs, on, d, slash, [e] + below) == RouteName(fs, on, Child(d, e.name), slash, below)
    ensures RouteName(fs, on, d, false, [e]) == Marked(fs, on, Child(d, e.name), e.kind)
  {
    hide Child, DirAfter;
    DirBelow(d, e, below);
    DirBelow(d, e, []);
    assert [e] + [] == [e];
    NoSteps(Child(d, e.name), []);
  }

  /** The route along a chosen way. */
  lemma {:induction false} RouteAlong(fs: Fs, on: Options, d: string, parts: seq<string>, slash: bool, v: seq<nat>)
    returns (es: seq<Entry>)
    requires NamesAreNames(fs) && NonEmptyNames(parts) && (slash || parts != [])
    requires Chosen(fs, on, d, Comps(parts, slash), v)
    ensures Route(fs, on, d, parts, slash, v, es)
    ensures PathOf(fs, on, d, Comps(parts, slash), v) == RouteName(fs, on, d, slash, es)
    decreases |parts|
  {
    hide Accepts, Takes, Child, Marked, Slashed, Route, RouteName, DirAfter;
    var comps := Comps(parts, slash);
    if parts == [] {
      assert comps == [""];
      es := [];
      EmptyRoute(fs, on, d, slash, v, es);
    } else {
      assert comps[0] == parts[0] && parts[0] in parts;
      var e := Open(fs, d).es[v[0]];
      AcceptsIsTakes(on, comps, e);
      assert comps[1..] == Comps(parts[1..], slash) && |comps| == |parts| + if slash then 1 else 0;
      assert forall p <- parts[1..] :: p in parts;
      var below := [];
      if |comps| == 1 {
        EmptyRoute(fs, on, Child(d, e.name), slash, v[1..], below);
        assert [e] + below == [e] && parts[1..] == [];
      } else {
        below := RouteAlong(fs, on, Child(d, e.name), parts[1..], slash, v[1..]);
        RouteLength(fs, on, Child(d, e.name), parts[1..], slash, v[1..], below);
      }
      es := [e] + below;
      RouteCons(fs, on, d, parts, slash, v, e, below);
      NameBelow(fs, on, d, slash, e, below);
    }
  }

  lemma {:induction false} RouteLength(fs: Fs, on: Options, d: string, parts: seq<string>, slash: bool, v: seq<nat>,
                                       es: seq<Entry>)
    requires Route(fs, on, d, parts, slash, v, es)
    ensures |v| == |es| == |parts|
    ensures es != [] ==> RouteStep(fs, d, v[0], es[0])
  {
    if es != [] {
      assert es[..0] == [] && RouteStep(fs, DirAfter(d, es[..0]), v[0], es[0]);
    }
  }

  /** The entries of a route are read off its way, so the way is chosen. */
  lemma {:induction false} RouteIsChosen(fs: Fs, on: Options, d: string, parts: seq<string>, slash: bool, v: seq<nat>,
                                         es: seq<Entry>)
    requires NamesAreNames(fs) && NonEmptyNames(parts) && (slash || parts != [])
    requires Route(fs, on, d, parts, slash, v, es)
    ensures Chosen(fs, on, d, Comps(parts, slash), v)
    decreases |parts|
  {
    hide Accepts, Takes, Child, Route, DirAfter;
    var comps := Comps(parts, slash);
    RouteLength(fs, on, d, parts, slash, v, es);
    if parts == [] {
      assert comps == [""];
      EmptyRoute(fs, on, d, slash, v, es);
    } else {
      assert comps[0] == parts[0] && parts[0] in parts;
      var e, below := es[0], es[1..];
      assert es == [e] + below;
      assert e in Open(fs, d).es;
      RouteCons(fs, on, d, parts, slash, v, e, below);
      AcceptsIsTakes(on, comps, e);
      assert comps[1..] == Comps(parts[1..], slash) && |comps| == |parts| + if slash then 1 else 0;
      assert forall p <- parts[1..] :: p in parts;
      if |comps| > 1 {
        RouteIsChosen(fs, on, Child(d, e.name), parts[1..], slash, v[1..], below);
      }
    }
  }

  /** A way has one route. */
  lemma {:induction false} RouteIsUnique(fs: Fs, on: Options, d: string, parts: seq<string>, slash: bool, v: seq<nat>,
                                         es: seq<Entry>, other: seq<Entry>)
    requires NamesAreNames(fs)
    requires Route(fs, on, d, parts, slash, v, es) && Route(fs, on, d, parts, slash, v, other)
    ensures es == other
    decreases |parts|
  {
    hide Accepts, Child, Route, DirAfter;
    RouteLength(fs, on, d, parts, slash, v, es);
    RouteLength(fs, on, d, parts, slash, v, other);
    if parts != [] {
      var e := es[0];
      assert es == [e] + es[1..] && other == [e] + other[1..] && e in Open(fs, d).es;
      RouteCons(fs, on, d, parts, slash, v, e, es[1..]);
      RouteCons(fs, on, d, parts, slash, v, e, other[1..]);
      RouteIsUnique(fs, on, Child(d, e.name), parts[1..], slash, v[1..], es[1..], other[1..]);
    }
  }

  // ---------------------------------------------------------------- a call without errors

  /** The names `found` are those of all routes, which are listed in the order of readdir, each once. */
  ghost predicate AllRoutes(fs: Fs, on: Options, d: string, parts: seq<string>, slash: bool, found: seq<string>,
                            vs: seq<seq<nat>>, routes: seq<seq<Entry>>)
  {
    && |found| == |vs| == |routes| && (slash || parts != []) && InOrder(vs)
    && (forall i :: 0 <= i < |vs| ==>
          Route(fs, on, d, parts, slash, vs[i], routes[i]) && found[i] == RouteName(fs, on, d, slash, routes[i]))
    && (forall v, es :: Route(fs, on, d, parts, slash, v, es) ==>
          exists i :: 0 <= i < |vs| && vs[i] == v && routes[i] == es)
  }

  /** The walk finds the names of all routes. */
  lemma {:induction false} PathsAreRoutes(fs: Fs, on: Options, d: string, parts: seq<string>, slash: bool)
    returns (vs: seq<seq<nat>>, routes: seq<seq<Entry>>)
    requires NamesAreNames(fs) && NonEmptyNames(parts) && (slash || parts != [])
    ensures AllRoutes(fs, on, d, parts, slash, Paths(fs, on, d, Comps(parts, slash)), vs, routes)
  {
    hide Route, RouteName, Chosen, PathOf, Ways, InOrder, NamesAreNames, NonEmptyNames, Comps;
    var comps := Comps(parts, slash);
    CompsNotEmpty(parts, slash);
    vs := Ways(fs, on, d, comps);
    WaysInOrder(fs, on, d, comps);
    EveryWayChosen(fs, on, d, comps);
    routes := [];
    for i := 0 to |vs|
      invariant |routes| == i
      invariant forall k :: 0 <= k < i ==>
        && Route(fs, on, d, parts, slash, vs[k], routes[k]) && |routes[k]| == |parts|
        && PathOf(fs, on, d, comps, vs[k]) == RouteName(fs, on, d, slash, routes[k])
    {
      var es := RouteAlong(fs, on, d, parts, slash, vs[i]);
      RouteLength(fs, on, d, parts, slash, vs[i], es);
      routes := routes + [es];
    }
    forall v, es | Route(fs, on, d, parts, slash, v, es)
      ensures exists i :: 0 <= i < |vs| && vs[i] == v && routes[i] == es
    {
      RouteIsChosen(fs, on, d, parts, slash, v, es);
      WaysAreChosen(fs, on, d, comps, v);
      var i :| 0 <= i < |vs| && vs[i] == v;
      RouteIsUnique(fs, on, d, parts, slash, v, es, routes[i]);
    }
  }

  lemma {:induction false} CompsNotEmpty(parts: seq<string>, slash: bool)
    requires slash || parts != []
    ensures Comps(parts, slash) != []
  {
  }

  /** A call without GLOB_ERR and with the default error function, on a file system whose directories list names. It
      delivers the names of all routes of the pattern, in strcmp order or with GLOB_NOSORT in the order of readdir; when
      there are none, the pattern itself under GLOB_NOCHECK, and otherwise nothing, which is no match. */
  lemma {:induction false} DefaultCall(fs: Fs, on: Options, fl: Flags, pat: string, errno: int, n: nat)
    returns (found: seq<string>, vs: seq<seq<nat>>, routes: seq<seq<Entry>>)
    requires NamesAreNames(fs) && !on.err && forall path, e :: !on.errFunc(path, e)
    requires pat != "" && LeadingSlashes(pat, n) && |pat| - n <= 4096
    ensures AllRoutes(fs, on, if n > 0 then "/" else "", Parts(pat), EndsInSlash(pat), found, vs, routes)
    ensures var w := Outcome(fs, on, fl, pat, errno);
      if found == [] then
        if fl.noCheck then w.out == [pat] && w.code == 0 else w.out == [] && w.code == 3
      else
        && w.code == 0 && multiset(w.out) == multiset(found)
        && if fl.noSort then w.out == found
           else forall i, j :: 0 <= i < j < |w.out| ==> w.out[i] == w.out[j] || StrcmpLess(w.out[i], w.out[j])
  {
    hide Outcome, AllRoutes, Parts, Paths, MatchDir, StrcmpLess;
    var d, parts, slash := if n > 0 then "/" else "", Parts(pat), EndsInSlash(pat);
    assert n > 0 <==> pat[0] == '/';
    CallDelivers(fs, on, fl, pat, errno, n);
    SearchStarts(fs, on, pat, errno);
    WalkFinds(fs, on, d, Comps(parts, slash), errno);
    NeverAborted(fs, on, d, Comps(parts, slash), errno);
    PartsAreNames(pat);
    found := Paths(fs, on, d, Comps(parts, slash));
    CompsParts(parts, slash);
    vs, routes := PathsAreRoutes(fs, on, d, parts, slash);
  }

  lemma {:induction false} CompsParts(parts: seq<string>, slash: bool)
    requires parts + (if slash then [""] else []) != []
    ensures slash || parts != []
  {
  }

  // ---------------------------------------------------------------- the fields after a call

  /** The slots in front of the names: without GLOB_APPEND null pointers, with it those of the old vector, or what the
      memory held where that has none. */
  predicate StandFirst(st: State, fl: Flags, memory: nat -> Slot, slots: seq<Slot>, n: nat) {
    && n <= |slots|
    && forall i :: 0 <= i < n ==>
         slots[i] == if !fl.append then Null
                     else if st.pathv.Some? && i < |st.pathv.value| then st.pathv.value[i]
                     else memory(i)
  }

  /** The fields of glob_t after a call that delivers `names`: as many slots first as GLOB_DOOFFS asks for, under
      GLOB_APPEND also one for every name delivered before, then the names and a null pointer. Without names only a call
      without GLOB_APPEND changes anything. */
  lemma {:induction false} FieldsAfter(st: State, fl: Flags, names: seq<string>, memory: nat -> Slot)
    ensures var after, asked := AfterCall(st, fl, names, memory), if fl.doOffs then st.offs else 0;
      var n := asked + if fl.append then st.pathc else 0;
      && after.offs == (if fl.append then st.offs else asked)
      && after.pathc == |names| + (if fl.append then st.pathc else 0)
      && if names == [] then after.pathv == if fl.append then st.pathv else None
         else
           && after.pathv.Some? && |after.pathv.value| == n + |names| + 1
           && StandFirst(st, fl, memory, after.pathv.value, n)
           && (forall i :: 0 <= i < |names| ==> after.pathv.value[n + i] == Name(names[i]))
           && after.pathv.value[n + |names|] == Null
  {
    hide Named, AfterCall, GlobHeap.Before, StandFirst;
    AfterCallIs(st, fl, names, memory);
    var n := (if fl.doOffs then st.offs else 0) + if fl.append then st.pathc else 0;
    if names != [] {
      var first := GlobHeap.Before(st, fl, memory);
      FirstStand(st, fl, memory);
      SlotsOf(first, names, first + Named(names) + [Null]);
      StillFirst(st, fl, memory, first, first + Named(names) + [Null]);
    }
  }

  lemma {:induction false} AfterCallIs(st: State, fl: Flags, names: seq<string>, memory: nat -> Slot)
    ensures var after, asked := AfterCall(st, fl, names, memory), if fl.doOffs then st.offs else 0;
      && after.offs == (if fl.append then st.offs else asked)
      && after.pathc == |names| + (if fl.append then st.pathc else 0)
      && after.pathv == if names == [] then if fl.append then st.pathv else None
                        else Some(GlobHeap.Before(st, fl, memory) + Named(names) + [Null])
  {
    hide Named, GlobHeap.Before;
  }

  lemma {:induction false} FirstStand(st: State, fl: Flags, memory: nat -> Slot)
    ensures var first, n := GlobHeap.Before(st, fl, memory),
                            (if fl.doOffs then st.offs else 0) + if fl.append then st.pathc else 0;
      |first| == n && StandFirst(st, fl, memory, first, n)
  {
  }

  lemma {:induction false} StillFirst(st: State, fl: Flags, memory: nat -> Slot, first: seq<Slot>, slots: seq<Slot>)
    requires StandFirst(st, fl, memory, first, |first|) && first <= slots
    ensures StandFirst(st, fl, memory, slots, |first|)
  {
  }

  lemma {:induction false} SlotsOf(first: seq<Slot>, names: seq<string>, slots: seq<Slot>)
    requires slots == first + Named(names) + [Null]
    ensures |slots| == |first| + |names| + 1 && slots[|first| + |names|] == Null && first <= slots
    ensures forall i :: 0 <= i < |names| ==> slots[|first| + i] == Name(names[i])
  {
  }
}
