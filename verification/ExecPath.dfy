/** __execvpe of glibc-compatibility/glibc-compatibility.c: trying the elements of PATH one after another. Strings
    carry no terminator; the buffer does. */
module ExecPath {
  import opened Text

  datatype Errno = EACCES | ENOENT | ENOTDIR | ENAMETOOLONG | Other(code: int)

  /** What execve does: the new program runs and nothing returns, or it fails. */
  datatype Outcome = Runs | Fails(errno: Errno)

  /** What became of the call, and the paths tried. */
  datatype Result = Result(tried: seq<string>, end: Outcome)

  const NAME_MAX := 255
  const PATH_MAX := 4096
  const DEFAULT_PATH := "/usr/local/bin:/bin:/usr/bin"

  predicate IsCString(s: string) {
    '\0' !in s
  }

  /** What a C function sees of a buffer. */
  function CString(b: seq<char>): string {
    if b == [] || b[0] == '\0' then "" else [b[0]] + CString(b[1..])
  }

  lemma {:induction false} CStringStops(s: string, rest: seq<char>)
    requires IsCString(s)
    ensures CString(s + ['\0'] + rest) == s
  {
    if s != [] {
      assert (s + ['\0'] + rest)[1..] == s[1..] + ['\0'] + rest;
      CStringStops(s[1..], rest);
    }
  }

  /** strnlen(s, n) */
  function StrNLen(s: string, n: nat): nat {
    if |s| < n then |s| else n
  }

  /** The path of `file` in a directory of PATH; the empty element stands for the current one. */
  function PathIn(element: string, file: string): string {
    if element == "" then file else element + "/" + file
  }

  /** The paths to try: elements of `l` characters or more are passed over. */
  function Candidates(elements: seq<string>, file: string, l: nat): seq<string> {
    if elements == [] then []
    else (if |elements[0]| < l then [PathIn(elements[0], file)] else []) + Candidates(elements[1..], file, l)
  }

  predicate GoesOn(e: Errno) {
    e.EACCES? || e.ENOENT? || e.ENOTDIR?
  }

  /** Trying the candidates in order. `exec` may answer differently each time: it sees all earlier attempts. */
  function Search(exec: (seq<string>, string) -> Outcome, tried: seq<string>, left: seq<string>, seenEacces: bool,
                  errno: Errno): Result
    decreases |left|
  {
    if left == [] then Result(tried, Fails(if seenEacces then EACCES else errno))
    else
      var outcome := exec(tried, left[0]);
      if outcome.Fails? && GoesOn(outcome.errno) then
        Search(exec, tried + [left[0]], left[1..], seenEacces || outcome.errno.EACCES?, outcome.errno)
      else Result(tried + [left[0]], outcome)
  }

  /** The call as a function of its arguments and of PATH. */
  function Spec(exec: (seq<string>, string) -> Outcome, file: string, env: Option<string>): Result {
    var path := if env.None? then DEFAULT_PATH else env.value;
    if file == "" then Result([], Fails(ENOENT))
    else if '/' in file then Result([file], exec([], file))
    else if |file| > NAME_MAX then Result([], Fails(ENAMETOOLONG))
    else Search(exec, [], Candidates(Split(path, ':'), file, StrNLen(path, PATH_MAX - 1) + 1), false, ENOENT)
  }

  /** Filling the buffer for one element: nothing is written past its end. */
  method FillBuffer(b: array<char>, element: string, file: string, l: nat)
    requires b.Length == l + |file| + 1 && |element| < l && IsCString(element) && IsCString(file)
    modifies b
    ensures CString(b[..]) == PathIn(element, file)
  {
    CopyInto(b, 0, element);
    b[|element|] := '/';
    var at := |element| + if element != "" then 1 else 0;
    ghost var before := if element == "" then "" else element + "/";
    assert b[..at] == before;
    ghost var filled := b[..at];
    CopyInto(b, at, file + ['\0']);
    assert b[..at] == filled;
    StopsAt(b[..], before, file);
  }

  lemma {:induction false} StopsAt(b: seq<char>, before: string, file: string)
    requires |before| + |file| < |b| && b[..|before|] == before && IsCString(before) && IsCString(file)
    requires b[|before|..|before| + |file| + 1] == file + ['\0']
    ensures CString(b) == before + file
  {
    var rest := b[|before| + |file| + 1..];
    assert b == before + (file + ['\0']) + rest;
    assert b == (before + file) + ['\0'] + rest;
    CStringStops(before + file, rest);
  }

  /** memcpy(b + at, s, |s|) */
  method CopyInto(b: array<char>, at: nat, s: seq<char>)
    requires at + |s| <= b.Length
    modifies b
    ensures forall i :: 0 <= i < b.Length ==> b[i] == if at <= i < at + |s| then s[i - at] else old(b[i])
    ensures b[at..at + |s|] == s
  {
    forall i | 0 <= i < |s| {
      b[at + i] := s[i];
    }
  }

  /** __strchrnul(path + p, ':'), the end of the string standing for its terminator. */
  method FindColon(path: string, p: nat) returns (z: nat)
    requires p <= |path|
    ensures p <= z <= |path| && ':' !in path[p..z] && (z < |path| ==> path[z] == ':')
  {
    z := p;
    while z < |path| && path[z] != ':'
      invariant p <= z <= |path| && ':' !in path[p..z]
    {
      assert path[p..z + 1] == path[p..z] + [path[z]];
      z := z + 1;
    }
  }

  /** The element found is the first of those left. */
  lemma {:induction false} SplitAtColon(path: string, p: nat, z: nat)
    requires p <= z <= |path| && ':' !in path[p..z] && (z < |path| ==> path[z] == ':')
    ensures Split(path[p..], ':') == [path[p..z]] + (if z < |path| then Split(path[z + 1..], ':') else [])
  {
    if z < |path| {
      SplitAtSep(path[p..z], path[z + 1..], ':');
      assert path[p..] == path[p..z] + [':'] + path[z + 1..];
    } else {
      SplitOne(path[p..z], ':');
      assert path[p..] == path[p..z];
    }
  }

  lemma {:induction false} FirstCandidate(element: string, rest: seq<string>, file: string, l: nat)
    ensures |element| < l ==>
              Candidates([element] + rest, file, l) == [PathIn(element, file)] + Candidates(rest, file, l)
    ensures |element| >= l ==> Candidates([element] + rest, file, l) == Candidates(rest, file, l)
  {
    assert ([element] + rest)[1..] == rest;
  }

  lemma {:induction false} SearchStep(exec: (seq<string>, string) -> Outcome, tried: seq<string>, c: string,
                                      left: seq<string>, seenEacces: bool, errno: Errno)
    ensures var outcome := exec(tried, c);
      Search(exec, tried, [c] + left, seenEacces, errno)
        == if outcome.Fails? && GoesOn(outcome.errno)
           then Search(exec, tried + [c], left, seenEacces || outcome.errno.EACCES?, outcome.errno)
           else Result(tried + [c], outcome)
  {
    assert ([c] + left)[1..] == left;
  }

  lemma {:induction false} SearchEnds(exec: (seq<string>, string) -> Outcome, tried: seq<string>, seenEacces: bool,
                                      errno: Errno)
    ensures Search(exec, tried, [], seenEacces, errno) == Result(tried, Fails(if seenEacces then EACCES else errno))
  {
  }

  /** The loop over PATH. */
  method TryElements(exec: (seq<string>, string) -> Outcome, file: string, path: string, l: nat)
    returns (result: Result)
    requires IsCString(file) && IsCString(path)
    ensures result == Search(exec, [], Candidates(Split(path, ':'), file, l), false, ENOENT)
  {
    hide Candidates, Search, Split, CString, PathIn;
    var errno, seenEacces, p, more := ENOENT, false, 0, true;
    var tried := [];
    ghost var left := Candidates(Split(path, ':'), file, l);
    ghost var all := Search(exec, tried, left, seenEacces, errno);
    assert path[0..] == path;
    while more
      invariant p <= |path| && (more ==> left == Candidates(Split(path[p..], ':'), file, l))
      invariant !more ==> left == []
      invariant all == Search(exec, tried, left, seenEacces, errno)
      decreases more, |path| - p
    {
      var b := new char[l + |file| + 1];
      var z := FindColon(path, p);
      NextLeft(path, p, z, file, l);
      left := if z < |path| then Candidates(Split(path[z + 1..], ':'), file, l) else [];
      if z - p < l {
        FillBuffer(b, path[p..z], file, l);
        SearchStep(exec, tried, CString(b[..]), left, seenEacces, errno);
        var outcome := exec(tried, CString(b[..]));
        tried := tried + [CString(b[..])];
        match outcome
        case Runs => return Result(tried, outcome);
        case Fails(e) =>
          errno := e;
          if e.EACCES? {
            seenEacces := true;
          } else if !e.ENOENT? && !e.ENOTDIR? {
            return Result(tried, outcome);
          }
      }
      more := z < |path|;
      p := if more then z + 1 else p;
    }
    SearchEnds(exec, tried, seenEacces, errno);
    result := Result(tried, Fails(if seenEacces then EACCES else errno));
  }

  /** What the next element adds to the paths still to be tried. */
  lemma {:induction false} NextLeft(path: string, p: nat, z: nat, file: string, l: nat)
    requires p <= z <= |path| && ':' !in path[p..z] && (z < |path| ==> path[z] == ':')
    ensures var rest := if z < |path| then Candidates(Split(path[z + 1..], ':'), file, l) else [];
      Candidates(Split(path[p..], ':'), file, l) == if z - p < l then [PathIn(path[p..z], file)] + rest else rest
  {
    hide Candidates, Split, PathIn;
    SplitAtColon(path, p, z);
    FirstCandidate(path[p..z], if z < |path| then Split(path[z + 1..], ':') else [], file, l);
    NoCandidates(file, l);
  }

  lemma {:induction false} NoCandidates(file: string, l: nat)
    ensures Candidates([], file, l) == []
  {
  }

  lemma {:induction false} NameLength(file: string)
    ensures StrNLen(file, NAME_MAX + 1) > NAME_MAX <==> |file| > NAME_MAX
    ensures |file| <= NAME_MAX ==> StrNLen(file, NAME_MAX + 1) == |file|
  {
  }

  // ---------------------------------------------------------------- what the search means

  /** The answer to attempt `i`, the earlier ones having been made. */
  function Answer(exec: (seq<string>, string) -> Outcome, tried: seq<string>, i: nat): Outcome
    requires i < |tried|
  {
    exec(tried[..i], tried[i])
  }

  predicate Harmless(o: Outcome) {
    o == Fails(EACCES) || o == Fails(ENOENT) || o == Fails(ENOTDIR)
  }

  ghost predicate SawEacces(exec: (seq<string>, string) -> Outcome, tried: seq<string>) {
    exists i :: 0 <= i < |tried| && Answer(exec, tried, i) == Fails(EACCES)
  }

  /** Attempts made so far: all harmless, and the flag and errno tell what they answered. */
  ghost predicate SoFar(exec: (seq<string>, string) -> Outcome, tried: seq<string>, seenEacces: bool, errno: Errno) {
    && (forall i :: 0 <= i < |tried| ==> Harmless(Answer(exec, tried, i)))
    && (seenEacces <==> SawEacces(exec, tried))
    && errno == if tried == [] then ENOENT else Answer(exec, tried, |tried| - 1).errno
  }

  lemma {:induction false} SoFarStep(exec: (seq<string>, string) -> Outcome, tried: seq<string>, c: string,
                                     seenEacces: bool, errno: Errno)
    requires SoFar(exec, tried, seenEacces, errno) && Harmless(exec(tried, c))
    ensures SoFar(exec, tried + [c], seenEacces || exec(tried, c).errno.EACCES?, exec(tried, c).errno)
  {
    var next := tried + [c];
    assert next[..|tried|] == tried;
    forall i | 0 <= i < |tried|
      ensures Answer(exec, next, i) == Answer(exec, tried, i)
    {
      assert next[..i] == tried[..i];
    }
    if seenEacces {
      var i :| 0 <= i < |tried| && Answer(exec, tried, i) == Fails(EACCES);
      assert Answer(exec, next, i) == Fails(EACCES);
    }
    if exec(tried, c).errno.EACCES? {
      assert Answer(exec, next, |tried|) == Fails(EACCES);
    }
  }

  /** The paths `all` are tried in order, each once, until an attempt does something else than fail harmlessly: the
      call ends the way that attempt does. With no such attempt all are tried and the error is EACCES if any attempt
      gave it, else the last one's, ENOENT without any. */
  ghost predicate TriedInOrder(exec: (seq<string>, string) -> Outcome, r: Result, all: seq<string>) {
    var n := |r.tried|;
    && r.tried <= all
    && (forall i :: 0 <= i < n - 1 ==> Harmless(Answer(exec, r.tried, i)))
    && if n > 0 && !Harmless(Answer(exec, r.tried, n - 1)) then r.end == Answer(exec, r.tried, n - 1)
       else
         && r.tried == all
         && r.end == Fails(if SawEacces(exec, all) then EACCES
                           else if n == 0 then ENOENT else Answer(exec, all, n - 1).errno)
  }

  lemma {:induction false} SearchMeans(exec: (seq<string>, string) -> Outcome, tried: seq<string>, left: seq<string>,
                                       seenEacces: bool, errno: Errno)
    requires SoFar(exec, tried, seenEacces, errno)
    ensures TriedInOrder(exec, Search(exec, tried, left, seenEacces, errno), tried + left)
    decreases |left|
  {
    hide SoFar, SawEacces;
    if left == [] {
      assert tried + left == tried;
      SoFarMeans(exec, tried, seenEacces, errno);
    } else {
      var c, outcome := left[0], exec(tried, left[0]);
      var next := tried + [c];
      assert next[..|tried|] == tried && tried + left == next + left[1..];
      if Harmless(outcome) {
        SoFarStep(exec, tried, c, seenEacces, errno);
        SearchMeans(exec, next, left[1..], seenEacces || outcome.errno.EACCES?, outcome.errno);
      } else {
        SoFarMeans(exec, tried, seenEacces, errno);
        forall i | 0 <= i < |tried|
          ensures Answer(exec, next, i) == Answer(exec, tried, i)
        {
          assert next[..i] == tried[..i];
        }
      }
    }
  }

  lemma {:induction false} SoFarMeans(exec: (seq<string>, string) -> Outcome, tried: seq<string>, seenEacces: bool,
                                      errno: Errno)
    requires SoFar(exec, tried, seenEacces, errno)
    ensures forall i :: 0 <= i < |tried| ==> Harmless(Answer(exec, tried, i))
    ensures seenEacces <==> SawEacces(exec, tried)
    ensures errno == if tried == [] then ENOENT else Answer(exec, tried, |tried| - 1).errno
  {
  }

  /** The paths of `file` in directories of PATH, the empty element being the current one. */
  function PathsIn(elements: seq<string>, file: string): seq<string> {
    seq(|elements|, i requires 0 <= i < |elements| =>
      if elements[i] == "" then file else elements[i] + "/" + file)
  }

  /** The elements of at most 4095 characters. */
  function Short(elements: seq<string>): seq<string> {
    if elements == [] then []
    else if |elements[0]| <= 4095 then [elements[0]] + Short(elements[1..])
    else Short(elements[1..])
  }

  /** Elements as long as that are passed over, and no others: l is 4096, or longer than all elements. */
  lemma {:induction false} ShortOnesTried(elements: seq<string>, file: string, l: nat)
    requires l == 4096 || (l < 4096 && forall e <- elements :: |e| < l)
    ensures Candidates(elements, file, l) == PathsIn(Short(elements), file)
  {
    if elements != [] {
      var rest := Short(elements[1..]);
      ShortOnesTried(elements[1..], file, l);
      if |elements[0]| <= 4095 {
        assert PathsIn([elements[0]] + rest, file) == PathsIn([elements[0]], file) + PathsIn(rest, file);
        assert PathsIn([elements[0]], file) == [PathIn(elements[0], file)];
      }
    }
  }

  /** The candidates: one for every element short enough, in order, the empty element giving the bare file. */
  lemma {:induction false} CandidatesInOrder(elements: seq<string>, file: string, l: nat, i: nat)
    requires i < |elements|
    ensures Candidates(elements, file, l)
         == Candidates(elements[..i], file, l)
            + (if |elements[i]| >= l then [] else if elements[i] == "" then [file] else [elements[i] + "/" + file])
            + Candidates(elements[i + 1..], file, l)
  {
    if i > 0 {
      CandidatesInOrder(elements[1..], file, l, i - 1);
      assert elements[1..][..i - 1] == elements[..i][1..] && elements[1..][i..] == elements[i + 1..];
    } else {
      assert elements[..0] == [] && elements[1..] == elements[0 + 1..];
    }
  }

  lemma {:induction false} PartsAreShort(s: string, i: nat)
    requires i < |Split(s, ':')|
    ensures |Split(s, ':')[i]| <= |s|
  {
    if s != [] {
      if s[0] != ':' {
        PartsAreShort(s[1..], i);
      } else if i > 0 {
        PartsAreShort(s[1..], i - 1);
      }
    }
  }

  lemma {:induction false} PathTried(exec: (seq<string>, string) -> Outcome, file: string, path: string,
                                     elements: seq<string>)
    requires elements != [] && (forall e <- elements :: ':' !in e) && Join(elements, ':') == path
    ensures var l := StrNLen(path, PATH_MAX - 1) + 1;
      TriedInOrder(exec, Search(exec, [], Candidates(Split(path, ':'), file, l), false, ENOENT),
                   PathsIn(Short(elements), file))
    ensures |path| < 4096 ==> Short(elements) == elements
  {
    hide Search, TriedInOrder, PathsIn, Split, Join, Short, Candidates;
    var l := StrNLen(path, PATH_MAX - 1) + 1;
    SplitOfJoin(elements, ':');
    forall e | e in elements
      ensures |e| <= |path|
    {
      var i :| 0 <= i < |elements| && elements[i] == e;
      PartsAreShort(path, i);
    }
    ShortOnesTried(elements, file, l);
    if |path| < 4096 {
      AllAreShort(elements);
    }
    SoFarNothing(exec);
    var all := Candidates(elements, file, l);
    SearchMeans(exec, [], all, false, ENOENT);
    assert [] + all == all;
  }

  lemma {:induction false} AllAreShort(elements: seq<string>)
    requires forall e <- elements :: |e| <= 4095
    ensures Short(elements) == elements
  {
    if elements != [] {
      AllAreShort(elements[1..]);
    }
  }

  lemma {:induction false} SoFarNothing(exec: (seq<string>, string) -> Outcome)
    ensures SoFar(exec, [], false, ENOENT)
  {
  }

  // ---------------------------------------------------------------- the call

  /** A file name of legal length without a slash, PATH being the elements with colons between: the paths of the file in
      the elements of at most 4095 characters are tried in order, up to the first decisive answer. */
  lemma {:induction false} PathSearch(exec: (seq<string>, string) -> Outcome, file: string, path: string,
                                      elements: seq<string>)
    requires file != "" && '/' !in file && |file| <= 255
    requires elements != [] && (forall e <- elements :: ':' !in e) && Join(elements, ':') == path
    ensures TriedInOrder(exec, Spec(exec, file, Some(path)), PathsIn(Short(elements), file))
    ensures |path| < 4096 ==> Short(elements) == elements
  {
    hide Search, TriedInOrder, PathsIn, Split, Join, Short, Candidates;
    PathTried(exec, file, path, elements);
  }

  lemma {:induction false} DefaultElements()
    ensures Join(["/usr/local/bin", "/bin", "/usr/bin"], ':') == DEFAULT_PATH
  {
    var elements := ["/usr/local/bin", "/bin", "/usr/bin"];
    assert elements[1..] == ["/bin", "/usr/bin"] && elements[1..][1..] == ["/usr/bin"];
  }

  lemma {:induction false} DefaultElementsAreShort()
    ensures var elements := ["/usr/local/bin", "/bin", "/usr/bin"];
      Short(elements) == elements && forall e <- elements :: ':' !in e
  {
    hide Short;
    AllAreShort(["/usr/local/bin", "/bin", "/usr/bin"]);
  }

  lemma {:induction false} DefaultPaths(file: string)
    ensures PathsIn(["/usr/local/bin", "/bin", "/usr/bin"], file)
         == ["/usr/local/bin/" + file, "/bin/" + file, "/usr/bin/" + file]
  {
    assert "/usr/local/bin" + "/" == "/usr/local/bin/" && "/bin" + "/" == "/bin/" && "/usr/bin" + "/" == "/usr/bin/";
  }

  /** With PATH unset the file is looked for in /usr/local/bin, /bin and /usr/bin, in this order. */
  lemma {:induction false} DefaultSearch(exec: (seq<string>, string) -> Outcome, file: string)
    requires file != "" && '/' !in file && |file| <= 255
    ensures TriedInOrder(exec, Spec(exec, file, None),
                         ["/usr/local/bin/" + file, "/bin/" + file, "/usr/bin/" + file])
  {
    hide Search, TriedInOrder, Candidates, Join, Short, PathsIn, Split;
    DefaultElements();
    DefaultElementsAreShort();
    DefaultPaths(file);
    PathTried(exec, file, DEFAULT_PATH, ["/usr/local/bin", "/bin", "/usr/bin"]);
  }

  /** __execvpe. An empty name and an over-long one are refused without an attempt, a name with a slash is tried as it
      is, and any other name is tried in the directories of PATH. */
  method ExecVpe(exec: (seq<string>, string) -> Outcome, file: string, env: Option<string>) returns (result: Result)
    requires IsCString(file) && (env.Some? ==> IsCString(env.value))
    ensures result == Spec(exec, file, env)
    ensures file == "" ==> result == Result([], Fails(ENOENT))
    ensures '/' in file ==> result == Result([file], exec([], file))
    ensures '/' !in file && |file| > 255 ==> result == Result([], Fails(ENAMETOOLONG))
    ensures file != "" && '/' !in file && |file| <= 255 && env.None? ==>
      TriedInOrder(exec, result, ["/usr/local/bin/" + file, "/bin/" + file, "/usr/bin/" + file])
    ensures file != "" && '/' !in file && |file| <= 255 && env.Some? ==>
      forall elements :: elements != [] && (forall e <- elements :: ':' !in e) && Join(elements, ':') == env.value ==>
        TriedInOrder(exec, result, PathsIn(Short(elements), file))
  {
    hide Candidates, Search, Split, StrNLen, Join, Short, PathsIn, TriedInOrder;
    if file != "" && '/' !in file && |file| <= 255 {
      DefaultSearch(exec, file);
      forall elements: seq<string> | env.Some? && elements != [] && (forall e <- elements :: ':' !in e)
                                     && Join(elements, ':') == env.value
        ensures TriedInOrder(exec, Spec(exec, file, env), PathsIn(Short(elements), file))
      {
        PathSearch(exec, file, env.value, elements);
      }
    }
    var path := if env.None? then DEFAULT_PATH else env.value;
    if file == "" {
      return Result([], Fails(ENOENT));
    }
    if '/' in file {
      return Result([file], exec([], file));
    }
    var k := StrNLen(file, NAME_MAX + 1);
    NameLength(file);
    if k > NAME_MAX {
      return Result([], Fails(ENAMETOOLONG));
    }
    var l := StrNLen(path, PATH_MAX - 1) + 1;
    result := TryElements(exec, file, path, l);
  }
}
