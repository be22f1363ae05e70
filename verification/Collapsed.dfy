/** The collapsed-stack text: CallFrameTree._dump (tfg/calltree/calltree.py) writes it and
    PySpyCollapser.parse (tfg/stackcollapsers/pyspycollapser.py) reads it back. */
module Collapsed {
  import opened CallTree
  import opened Text

  // ---------------------------------------------------------------- strings, as Python handles them

  /** str.isspace for one character. */
  predicate IsSpace(c: char) {
    var x := c as int;
    9 <= x <= 13 || 28 <= x <= 32 || x == 0x85 || x == 0xa0 || x == 0x1680 || 0x2000 <= x <= 0x200a
    || x == 0x2028 || x == 0x2029 || x == 0x202f || x == 0x205f || x == 0x3000
  }

  function StripLeft(s: string): string {
    if s != [] && IsSpace(s[0]) then StripLeft(s[1..]) else s
  }

  function StripRight(s: string): string {
    if s != [] && IsSpace(s[|s| - 1]) then StripRight(s[..|s| - 1]) else s
  }

  /** str.strip() */
  function Strip(s: string): string {
    StripRight(StripLeft(s))
  }

  function Decimal(n: nat): (s: string)
    ensures s != [] && forall c <- s :: '0' <= c <= '9'
  {
    var digit := (('0' as int) + n % 10) as char;
    if n < 10 then [digit] else Decimal(n / 10) + [digit]
  }

  function Digits(s: string): Option<nat> {
    if s == [] || !('0' <= s[|s| - 1] <= '9') then None
    else
      var d := (s[|s| - 1] as int) - ('0' as int);
      if |s| == 1 then Some(d)
      else
        var front := Digits(s[..|s| - 1]);
        if front.Some? then Some(10 * front.value + d) else None
  }

  /** int(s): surrounding whitespace and a sign are allowed; anything else raises ValueError. */
  function ParseInt(s: string): Option<int> {
    var t := Strip(s);
    if t != [] && (t[0] == '-' || t[0] == '+') then
      var d := Digits(t[1..]);
      if d.None? then None else
        var magnitude: int := d.value;
        Some(if t[0] == '-' then -magnitude else magnitude)
    else
      var d := Digits(t);
      if d.None? then None else Some(d.value)
  }

  lemma {:induction false} DigitsOfDecimal(n: nat)
    ensures Digits(Decimal(n)) == Some(n)
  {
    if n >= 10 {
      DigitsOfDecimal(n / 10);
      assert Decimal(n)[..|Decimal(n)| - 1] == Decimal(n / 10);
    }
  }

  lemma {:induction false} StripKeeps(s: string)
    requires s == [] || (!IsSpace(s[0]) && !IsSpace(s[|s| - 1]))
    ensures Strip(s) == s
  {
  }

  lemma {:induction false} DigitIsSolid(c: char)
    requires '0' <= c <= '9'
    ensures !IsSpace(c) && c != '-' && c != '+' && c != ';' && c != ' ' && c != '\n' && c != '\r'
  {
  }

  lemma {:induction false} DecimalIsSolid(n: nat)
    ensures !IsSpace(Decimal(n)[0]) && !IsSpace(Decimal(n)[|Decimal(n)| - 1])
    ensures Decimal(n)[0] != '-' && Decimal(n)[0] != '+'
    ensures forall c <- Decimal(n) :: c != ';' && c != ' ' && c != '\n' && c != '\r'
  {
    assert Decimal(n)[0] in Decimal(n);
    DigitIsSolid(Decimal(n)[0]);
    DigitIsSolid(Decimal(n)[|Decimal(n)| - 1]);
    forall c <- Decimal(n)
      ensures c != ';' && c != ' ' && c != '\n' && c != '\r'
    {
      DigitIsSolid(c);
    }
  }

  /** '{}'.format(n) for an integer. */
  function Number(n: int): (s: string)
    ensures s != []
  {
    if n < 0 then "-" + Decimal(-n) else Decimal(n)
  }

  lemma {:induction false} NumberIsSolid(n: int)
    ensures !IsSpace(Number(n)[0]) && !IsSpace(Number(n)[|Number(n)| - 1])
    ensures forall c <- Number(n) :: c != ';' && c != ' ' && c != '\n' && c != '\r'
  {
    DecimalIsSolid(if n < 0 then -n else n);
  }

  lemma {:induction false} ParseIntOfNumber(n: int)
    ensures ParseInt(Number(n)) == Some(n)
  {
    NumberIsSolid(n);
    StripKeeps(Number(n));
    var magnitude := if n < 0 then -n else n;
    DecimalIsSolid(magnitude);
    DigitsOfDecimal(magnitude);
    if n < 0 {
      assert Number(n)[1..] == Decimal(magnitude);
    }
  }

  // ---------------------------------------------------------------- one line

  /** '{} {}'.format(';'.join(names), base_count) */
  function Line(s: Stack): string {
    Join(s.path, ';') + " " + Number(s.count)
  }

  datatype Parsed = Blank | Entry(stack: Stack) | ValueError

  /** The body of the parse loop for one line of the file. */
  function ParseLine(raw: string): Parsed {
    var line := Strip(raw);
    if line == "" then Blank
    else
      var vals := Split(line, ';');
      var parts := Split(vals[|vals| - 1], ' ');
      var count := ParseInt(parts[|parts| - 1]);
      if count.None? then ValueError
      else Entry(Stack(vals[|vals| - 1 := Join(parts[..|parts| - 1], ' ')], count.value))
  }

  predicate Clean(name: string) {
    forall c <- name :: c != ';' && c != '\n' && c != '\r'
  }

  predicate NoSemicolons(path: seq<string>) {
    forall name <- path :: ';' !in name
  }

  /** The joined names do not begin with whitespace that strip() would eat. */
  predicate StartsSolid(path: seq<string>) {
    var text := Join(path, ';');
    text == "" || !IsSpace(text[0])
  }

  /** Any last name, spaces included, is recovered from "name count". */
  lemma {:induction false} LastFieldParses(name: string, n: int)
    ensures var parts := Split(name + " " + Number(n), ' ');
      && ParseInt(parts[|parts| - 1]) == Some(n)
      && Join(parts[..|parts| - 1], ' ') == name
  {
    var words := Split(name, ' ');
    NumberIsSolid(n);
    JoinOfSplit(name, ' ');
    JoinSnoc(words, Number(n), ' ');
    forall p <- words + [Number(n)]
      ensures ' ' !in p
    {
      if p in words {
        var k :| 0 <= k < |words| && words[k] == p;
        SplitHasNoSep(name, ' ', k);
      }
    }
    NumberIsSolid(n);
    SplitOfJoin(words + [Number(n)], ' ');
    assert (words + [Number(n)])[..|words|] == words;
    ParseIntOfNumber(n);
  }

  /** Splitting a line at ';' gives the names with the count still behind the last one. */
  lemma {:induction false} LineSplits(path: seq<string>, tail: string)
    requires path != [] && NoSemicolons(path) && ';' !in tail
    ensures Split(Join(path, ';') + tail, ';') == path[|path| - 1 := path[|path| - 1] + tail]
  {
    if |path| == 1 {
      SplitOne(path[0] + tail, ';');
    } else {
      LineSplits(path[1..], tail);
      var rest := Join(path[1..], ';') + tail;
      assert Join(path, ';') + tail == path[0] + [';'] + rest;
      SplitAtSep(path[0], rest, ';');
    }
  }

  lemma {:induction false} StripOfLine(s: Stack)
    requires StartsSolid(s.path) && Join(s.path, ';') != ""
    ensures Strip(Line(s)) == Line(s)
  {
    var text := Join(s.path, ';');
    assert Line(s)[0] == text[0];
    NumberIsSolid(s.count);
    assert Line(s)[|Line(s)| - 1] == Number(s.count)[|Number(s.count)| - 1];
    StripKeeps(Line(s));
  }

  lemma {:induction false} EmptyNameParses(n: int)
    ensures ParseLine(" " + Number(n)) == Entry(Stack([""], n))
  {
    var digits := Number(n);
    assert (" " + digits)[1..] == digits;
    NumberIsSolid(n);
    StripKeeps(digits);
    SplitOne(digits, ';');
    SplitOne(digits, ' ');
    ParseIntOfNumber(n);
    assert [digits][..0] == [];
    assert [digits][0 := ""] == [""];
  }

  lemma {:induction false} LineParses(s: Stack)
    requires s.path != [] && NoSemicolons(s.path) && StartsSolid(s.path)
    ensures ParseLine(Line(s)) == Entry(s)
  {
    if Join(s.path, ';') == "" {
      EmptyJoin(s.path);
      EmptyNameParses(s.count);
      assert Line(s) == " " + Number(s.count);
    } else {
      var last := |s.path| - 1;
      var tail := " " + Number(s.count);
      StripOfLine(s);
      NumberIsSolid(s.count);
      assert Line(s) == Join(s.path, ';') + tail;
      LineSplits(s.path, tail);
      LastFieldParses(s.path[last], s.count);
      assert s.path[last] + tail == s.path[last] + " " + Number(s.count);
      assert s.path[last := s.path[last] + tail][last := s.path[last]] == s.path;
    }
  }

  lemma {:induction false} EmptyJoin(path: seq<string>)
    requires path != [] && Join(path, ';') == ""
    ensures path == [""]
  {
  }

  // ---------------------------------------------------------------- exactly which stacks survive a line

  lemma {:induction false} StripLeftIsSuffix(s: string)
    ensures |StripLeft(s)| <= |s|
    ensures StripLeft(s) == "" || !IsSpace(StripLeft(s)[0])
    ensures s != [] && IsSpace(s[0]) ==> |StripLeft(s)| < |s|
  {
    if s != [] && IsSpace(s[0]) {
      StripLeftIsSuffix(s[1..]);
    }
  }

  lemma {:induction false} StripRightIsPrefix(s: string)
    ensures StripRight(s) <= s
  {
    if s != [] && IsSpace(s[|s| - 1]) {
      StripRightIsPrefix(s[..|s| - 1]);
    }
  }

  /** What a parsed entry re-joins to is never longer than the stripped line less its count field. */
  lemma {:induction false} ParsedEntry(raw: string)
    requires ParseLine(raw).Entry?
    ensures var s := ParseLine(raw).stack;
      s.path != [] && NoSemicolons(s.path) && StartsSolid(s.path)
  {
    var line := Strip(raw);
    StripLeftIsSuffix(raw);
    StripRightIsPrefix(StripLeft(raw));
    var vals := Split(line, ';');
    var last := |vals| - 1;
    var parts := Split(vals[last], ' ');
    var s := ParseLine(raw).stack;
    JoinOfSplit(vals[last], ' ');
    var name := s.path[last];
    JoinPrefix(parts, ' ');
    assert name <= vals[last];
    forall p <- s.path
      ensures ';' !in p
    {
      var k :| 0 <= k < |s.path| && s.path[k] == p;
      SplitHasNoSep(line, ';', k);
    }
    JoinOfSplit(line, ';');
    JoinShorter(vals, name, ';');
  }

  lemma {:induction false} JoinPrefix(parts: seq<string>, sep: char)
    requires parts != []
    ensures Join(parts[..|parts| - 1], sep) <= Join(parts, sep)
  {
    if |parts| > 1 {
      var front, last := parts[..|parts| - 1], parts[|parts| - 1];
      assert parts == front + [last];
      JoinSnoc(front, last, sep);
    }
  }

  lemma {:induction false} JoinShorter(parts: seq<string>, name: string, sep: char)
    requires parts != [] && name <= parts[|parts| - 1]
    ensures Join(parts[|parts| - 1 := name], sep) <= Join(parts, sep)
  {
    var n := |parts| - 1;
    if n > 0 {
      assert parts == parts[..n] + [parts[n]] && parts[n := name] == parts[..n] + [name];
      JoinSnoc(parts[..n], parts[n], sep);
      JoinSnoc(parts[..n], name, sep);
    }
  }

  /** A dumped line is parsed back to its stack exactly when no name holds the separator and the joined
      names do not start with whitespace. */
  lemma {:induction false} LineRoundTripsIff(s: Stack)
    requires s.path != []
    ensures ParseLine(Line(s)) == Entry(s) <==> NoSemicolons(s.path) && StartsSolid(s.path)
  {
    if ParseLine(Line(s)) == Entry(s) {
      ParsedEntry(Line(s));
    } else if NoSemicolons(s.path) && StartsSolid(s.path) {
      LineParses(s);
    }
  }

  // ---------------------------------------------------------------- whole files

  datatype Result<T> = Ok(value: T) | Failed

  /** PySpyCollapser.parse on the lines of the file: blank lines are skipped, the first bad count raises. */
  function ParseAll(lines: seq<string>): Result<seq<Stack>> {
    if lines == [] then Ok([])
    else
      var before := ParseAll(lines[..|lines| - 1]);
      if before.Failed? then Failed
      else
        match ParseLine(lines[|lines| - 1])
        case Blank => before
        case Entry(s) => Ok(before.value + [s])
        case ValueError => Failed
  }

  method Parse(lines: seq<string>) returns (result: Result<seq<Stack>>)
    ensures result == ParseAll(lines)
  {
    var entries: seq<Stack> := [];
    for i := 0 to |lines|
      invariant ParseAll(lines[..i]) == Ok(entries)
    {
      assert lines[..i + 1][..i] == lines[..i];
      match ParseLine(lines[i])
      case Blank =>
      case Entry(s) => entries := entries + [s];
      case ValueError =>
        FailureStays(lines, i + 1);
        return Failed;
    }
    assert lines[..|lines|] == lines;
    result := Ok(entries);
  }

  lemma {:induction false} FailureStays(lines: seq<string>, n: nat)
    requires n <= |lines| && ParseAll(lines[..n]).Failed?
    ensures ParseAll(lines).Failed?
  {
    if n == |lines| {
      assert lines[..n] == lines;
    } else {
      var init := lines[..|lines| - 1];
      assert init[..n] == lines[..n];
      FailureStays(init, n);
    }
  }

  /** Iterating over a text file: carriage returns end lines too. (The blank line a "\r\n" would add here
      is skipped by the parser.) */
  function Lines(text: string): seq<string> {
    Split(Unified(text), '\n')
  }

  function Unified(text: string): (r: string)
    ensures |r| == |text|
  {
    seq(|text|, i requires 0 <= i < |text| => if text[i] == '\r' then '\n' else text[i])
  }

  lemma {:induction false} UnifiedAppends(a: string, b: string)
    ensures Unified(a + b) == Unified(a) + Unified(b)
  {
  }

  /** What a dump prints for a list of entries. */
  function Printed(stacks: seq<Stack>): string {
    if stacks == [] then "" else Line(stacks[0]) + "\n" + Printed(stacks[1..])
  }

  predicate Printable(s: Stack) {
    s.path != [] && StartsSolid(s.path) && forall name <- s.path :: Clean(name)
  }

  lemma {:induction false} CleanJoin(path: seq<string>, c: char)
    requires c != ';' && forall name <- path :: c !in name
    ensures c !in Join(path, ';')
  {
    if |path| > 1 {
      CleanJoin(path[1..], c);
    }
  }

  lemma {:induction false} CleanLine(s: Stack)
    requires Printable(s)
    ensures '\n' !in Line(s) && '\r' !in Line(s) && Unified(Line(s)) == Line(s)
  {
    CleanJoin(s.path, '\n');
    CleanJoin(s.path, '\r');
    NumberIsSolid(s.count);
    assert forall i :: 0 <= i < |Line(s)| ==> Line(s)[i] != '\r' by {
      assert forall i :: 0 <= i < |Line(s)| ==> Line(s)[i] in Line(s);
    }
    assert Unified(Line(s)) == Line(s);
  }

  function LinesOf(stacks: seq<Stack>): seq<string> {
    seq(|stacks|, i requires 0 <= i < |stacks| => Line(stacks[i]))
  }

  lemma {:induction false} NoLines()
    ensures Lines("") == [""] && LinesOf([]) == []
  {
    assert Unified("") == "";
  }

  lemma {:induction false} LinesOfMore(stacks: seq<Stack>)
    requires stacks != []
    ensures LinesOf(stacks) == [Line(stacks[0])] + LinesOf(stacks[1..])
  {
  }

  lemma {:induction false} PrintedLines(stacks: seq<Stack>)
    requires forall s <- stacks :: Printable(s)
    ensures Lines(Printed(stacks)) == LinesOf(stacks) + [""]
  {
    hide Printable, Line, Split, LinesOf;
    if stacks == [] {
      NoLines();
    } else {
      var line, rest := Line(stacks[0]), Printed(stacks[1..]);
      LinesOfMore(stacks);
      PrintedLines(stacks[1..]);
      CleanLine(stacks[0]);
      assert line + "\n" + rest == line + ("\n" + rest);
      UnifiedAppends(line, "\n" + rest);
      UnifiedAppends("\n", rest);
      assert Unified("\n") == "\n";
      assert line + ("\n" + Unified(rest)) == line + ['\n'] + Unified(rest);
      SplitAtSep(line, Unified(rest), '\n');
    }
  }

  lemma {:induction false} ParseEntries(lines: seq<string>, stacks: seq<Stack>)
    requires |lines| == |stacks| && forall i :: 0 <= i < |lines| ==> ParseLine(lines[i]) == Entry(stacks[i])
    ensures ParseAll(lines) == Ok(stacks)
  {
    hide ParseLine, ParseAll;
    if stacks == [] {
      NothingParses();
    } else {
      var n := |stacks| - 1;
      ParseEntries(lines[..n], stacks[..n]);
      ParseOneMore(lines[..n], stacks[..n], lines[n], stacks[n]);
      assert stacks == stacks[..n] + [stacks[n]] && lines == lines[..n] + [lines[n]];
    }
  }

  lemma {:induction false} NothingParses()
    ensures ParseAll([]) == Ok([])
  {
  }

  lemma {:induction false} ParseLines(stacks: seq<Stack>)
    requires forall s <- stacks :: Printable(s)
    ensures ParseAll(LinesOf(stacks)) == Ok(stacks)
  {
    forall i | 0 <= i < |stacks|
      ensures ParseLine(LinesOf(stacks)[i]) == Entry(stacks[i])
    {
      PrintableParses(stacks[i]);
    }
    ParseEntries(LinesOf(stacks), stacks);
  }

  lemma {:induction false} PrintableParses(s: Stack)
    requires Printable(s)
    ensures ParseLine(Line(s)) == Entry(s)
  {
    LineParses(s);
  }

  lemma {:induction false} ParseOneMore(lines: seq<string>, stacks: seq<Stack>, line: string, s: Stack)
    requires ParseAll(lines) == Ok(stacks) && ParseLine(line) == Entry(s)
    ensures ParseAll(lines + [line]) == Ok(stacks + [s])
  {
    assert (lines + [line])[..|lines|] == lines;
  }

  lemma {:induction false} BlankAtEnd(lines: seq<string>)
    ensures ParseAll(lines + [""]) == ParseAll(lines)
  {
    assert (lines + [""])[..|lines|] == lines;
    assert Strip("") == "";
  }

  /** A printed file is read back entry by entry. */
  lemma {:induction false} FileRoundTrip(stacks: seq<Stack>)
    requires forall s <- stacks :: Printable(s)
    ensures ParseAll(Lines(Printed(stacks))) == Ok(stacks)
  {
    PrintedLines(stacks);
    ParseLines(stacks);
    var lines := LinesOf(stacks) + [""];
    assert lines[..|lines| - 1] == LinesOf(stacks);
    BlankAtEnd(LinesOf(stacks));
  }

  // ---------------------------------------------------------------- dumping a tree

  function Under(name: string, stacks: seq<Stack>): (r: seq<Stack>)
    ensures |r| == |stacks|
  {
    seq(|stacks|, i requires 0 <= i < |stacks| => stacks[i].(path := [name] + stacks[i].path))
  }

  /** What _dump prints below a frame, paths starting after it: its own samples first, then its children's
      in order. */
  function Dump(t: Tree): seq<Stack>
    decreases t, 1
  {
    Own(t) + DumpAll(t.frames)
  }

  function Own(t: Tree): seq<Stack> {
    if t.base > 0 then [Stack([], t.base)] else []
  }

  function DumpAll(frames: seq<Tree>): seq<Stack>
    decreases frames, 0
  {
    if frames == [] then []
    else DumpAll(frames[..|frames| - 1]) + Under(frames[|frames| - 1].name, Dump(frames[|frames| - 1]))
  }

  function AbsorbAll(t: Tree, stacks: seq<Stack>): (r: Tree)
    ensures r.name == t.name
  {
    if stacks == [] then t
    else
      var last := stacks[|stacks| - 1];
      Absorb(AbsorbAll(t, stacks[..|stacks| - 1]), last.path, last.count)
  }

  function Total(stacks: seq<Stack>): int {
    if stacks == [] then 0 else Total(stacks[..|stacks| - 1]) + stacks[|stacks| - 1].count
  }

  /** Positive counts leave no empty frame behind: something below every frame was sampled. */
  predicate Solid(t: Tree) {
    && t.base >= 0 && t.count > 0
    && t.count == t.base + SumCounts(t.frames)
    && DistinctNames(t.frames)
    && forall c <- t.frames :: Solid(c)
  }

  lemma {:induction false} AbsorbAppends(t: Tree, a: seq<Stack>, b: seq<Stack>)
    ensures AbsorbAll(t, a + b) == AbsorbAll(AbsorbAll(t, a), b)
    decreases |b|
  {
    if b == [] {
      assert a + b == a;
    } else {
      assert (a + b)[..|a + b| - 1] == a + b[..|b| - 1];
      AbsorbAppends(t, a, b[..|b| - 1]);
    }
  }

  lemma {:induction false} TotalAppends(a: seq<Stack>, b: seq<Stack>)
    ensures Total(a + b) == Total(a) + Total(b)
    decreases |b|
  {
    if b == [] {
      assert a + b == a;
    } else {
      assert (a + b)[..|a + b| - 1] == a + b[..|b| - 1];
      TotalAppends(a, b[..|b| - 1]);
    }
  }

  lemma {:induction false} TotalUnder(name: string, stacks: seq<Stack>)
    ensures Total(Under(name, stacks)) == Total(stacks)
  {
    if stacks != [] {
      TotalUnder(name, stacks[..|stacks| - 1]);
      assert Under(name, stacks)[..|stacks| - 1] == Under(name, stacks[..|stacks| - 1]);
    }
  }

  /** Stacks that all start with one frame end up in that frame. */
  lemma {:induction false} AbsorbUnder(t: Tree, name: string, stacks: seq<Stack>)
    ensures AbsorbAll(t, Under(name, stacks)) ==
            if stacks == [] then t
            else PutChild(t.(count := t.count + Total(stacks)), AbsorbAll(ChildOrNew(t, name), stacks))
  {
    if stacks != [] {
      var init, last := stacks[..|stacks| - 1], stacks[|stacks| - 1];
      AbsorbUnder(t, name, init);
      assert Under(name, stacks)[..|init|] == Under(name, init);
      var t1 := AbsorbAll(t, Under(name, init));
      var c1 := AbsorbAll(ChildOrNew(t, name), init);
      assert ([name] + last.path)[1..] == last.path;
      if init != [] {
        FindAfterPut(t.(count := t.count + Total(init)), c1, name);
      }
      assert ChildOrNew(t1, name) == c1;
      var c2 := Absorb(c1, last.path, last.count);
      var last' := Under(name, stacks)[|init|];
      assert last' == Stack([name] + last.path, last.count);
      assert AbsorbAll(t, Under(name, stacks)) == Absorb(t1, last'.path, last.count);
      AbsorbIsPut(t1, last'.path, last.count);
      if init != [] {
        PutTwice(t.(count := t.count + Total(stacks)), c1, c2);
      }
    }
  }

  lemma {:induction false} AbsorbIsPut(t: Tree, path: seq<string>, n: int)
    requires path != []
    ensures Absorb(t, path, n) == PutChild(t.(count := t.count + n), Absorb(ChildOrNew(t, path[0]), path[1..], n))
  {
  }

  lemma {:induction false} PutTwice(t: Tree, c: Tree, c': Tree)
    requires c.name == c'.name
    ensures PutChild(PutChild(t, c), c') == PutChild(t, c')
  {
    var t1, i := PutChild(t, c), Find(t.frames, c.name);
    var k := Find(t1.frames, c.name);
    assert t1.frames[i].name == c.name && k <= i;
    forall j | 0 <= j < i
      ensures t1.frames[j].name != c.name
    {
      assert t1.frames[j] == t.frames[j];
    }
  }

  /** Re-adding what a frame dumps rebuilds the frame, children in the same order. */
  lemma {:induction false} Rebuilds(t: Tree)
    requires Solid(t)
    ensures AbsorbAll(Node(t.name, 0, 0, []), Dump(t)) == t
    ensures Total(Dump(t)) == t.count && Dump(t) != []
    decreases t, 1
  {
    var own := Own(t);
    var blank := Node(t.name, 0, 0, []);
    AbsorbAppends(blank, own, DumpAll(t.frames));
    TotalAppends(own, DumpAll(t.frames));
    assert own != [] ==> own[..0] == [];
    assert AbsorbAll(blank, own) == Node(t.name, t.base, t.base, []);
    RebuildsAll(t.name, t.base, t.base, t.frames);
  }

  lemma {:induction false} AbsorbNewChild(t: Tree, last: Tree)
    requires forall c <- t.frames :: c.name != last.name
    requires AbsorbAll(Node(last.name, 0, 0, []), Dump(last)) == last
    requires Total(Dump(last)) == last.count && Dump(last) != []
    ensures AbsorbAll(t, Under(last.name, Dump(last))) == t.(count := t.count + last.count, frames := t.frames + [last])
  {
    AbsorbUnder(t, last.name, Dump(last));
    assert Find(t.frames, last.name) == |t.frames|;
  }

  lemma {:induction false} DumpAllSnoc(frames: seq<Tree>)
    requires frames != []
    ensures var front, last := frames[..|frames| - 1], frames[|frames| - 1];
      && DumpAll(frames) == DumpAll(front) + Under(last.name, Dump(last))
      && frames == front + [last] && SumCounts(frames) == SumCounts(front) + last.count
  {
  }

  lemma {:induction false} RebuildsAll(name: string, base: int, count: int, frames: seq<Tree>)
    requires DistinctNames(frames) && forall c <- frames :: Solid(c)
    ensures AbsorbAll(Node(name, base, count, []), DumpAll(frames))
        == Node(name, base, count + SumCounts(frames), frames)
    ensures Total(DumpAll(frames)) == SumCounts(frames) && (frames != [] ==> DumpAll(frames) != [])
    decreases frames, 0
  {
    hide Dump, Under;
    if frames != [] {
      var front, last := frames[..|frames| - 1], frames[|frames| - 1];
      RebuildsAll(name, base, count, front);
      Rebuilds(last);
      var t := Node(name, base, count + SumCounts(front), front);
      DumpAllSnoc(frames);
      AbsorbAppends(Node(name, base, count, []), DumpAll(front), Under(last.name, Dump(last)));
      AbsorbNewChild(t, last);
      TotalAppends(DumpAll(front), Under(last.name, Dump(last)));
      TotalUnder(last.name, Dump(last));
    }
  }

  // ---------------------------------------------------------------- the tree is its dump

  /** What names must satisfy for the text to be read back. */
  predicate PrintableStacks(stacks: seq<Stack>) {
    forall s <- stacks :: s.path != [] && s.count > 0 && StartsSolid(s.path) && forall name <- s.path :: Clean(name)
  }

  /** Solid, or not sampled yet. */
  predicate Growable(t: Tree) {
    && t.base >= 0 && t.count >= 0
    && t.count == t.base + SumCounts(t.frames)
    && DistinctNames(t.frames)
    && forall c <- t.frames :: Solid(c)
  }

  lemma {:induction false} ChildGrowable(t: Tree, name: string)
    requires forall c <- t.frames :: Solid(c)
    ensures Growable(ChildOrNew(t, name))
  {
    var i := Find(t.frames, name);
    if i < |t.frames| {
      assert Solid(t.frames[i]);
    }
  }

  lemma {:induction false} PutKeepsSolid(t: Tree, c: Tree)
    requires DistinctNames(t.frames) && Solid(c) && forall d <- t.frames :: Solid(d)
    ensures DistinctNames(PutChild(t, c).frames)
    ensures forall d <- PutChild(t, c).frames :: Solid(d)
  {
  }

  lemma {:induction false} AbsorbKeepsSolid(t: Tree, path: seq<string>, n: int)
    requires n > 0 && Growable(t)
    ensures Solid(Absorb(t, path, n))
    decreases |path|
  {
    var t1 := t.(count := t.count + n, base := if path == [] then t.base + n else t.base);
    if path != [] {
      var child := ChildOrNew(t, path[0]);
      ChildGrowable(t, path[0]);
      AbsorbKeepsSolid(child, path[1..], n);
      var child2 := Absorb(child, path[1..], n);
      SumAfterPut(t1, child2);
      PutKeepsSolid(t1, child2);
    }
  }

  /** With positive counts every frame below the head is solid; the head lacks the stacks without frames. */
  lemma {:induction false} BuiltIsSolid(stacks: seq<Stack>)
    requires forall s <- stacks :: s.count > 0
    ensures DistinctNames(Build(stacks).frames) && forall c <- Build(stacks).frames :: Solid(c)
    ensures Build(stacks).base == 0 && Build(stacks).name == "all"
    ensures Build(stacks).count == SumCounts(Build(stacks).frames) + SumEqual(stacks, [])
  {
    if stacks != [] {
      var init, last := stacks[..|stacks| - 1], stacks[|stacks| - 1];
      var t := Build(init);
      BuiltIsSolid(init);
      var t1 := t.(count := t.count + last.count);
      if last.path != [] {
        var child := ChildOrNew(t, last.path[0]);
        ChildGrowable(t, last.path[0]);
        AbsorbKeepsSolid(child, last.path[1..], last.count);
        var child2 := Absorb(child, last.path[1..], last.count);
        SumAfterPut(t1, child2);
        PutKeepsSolid(t1, child2);
      }
    }
  }

  lemma {:induction false} NoEmptyStacks(stacks: seq<Stack>)
    requires forall s <- stacks :: s.count > 0
    ensures SumEqual(stacks, []) >= 0
    ensures SumEqual(stacks, []) == 0 <==> forall s <- stacks :: s.path != []
  {
    if stacks != [] {
      NoEmptyStacks(stacks[..|stacks| - 1]);
      assert stacks == stacks[..|stacks| - 1] + [stacks[|stacks| - 1]];
    }
  }

  lemma {:induction false} DumpedPathsNonEmpty(frames: seq<Tree>)
    ensures forall s <- DumpAll(frames) :: s.path != []
  {
    if frames != [] {
      DumpedPathsNonEmpty(frames[..|frames| - 1]);
    }
  }

  lemma {:induction false} BuildIsAbsorb(stacks: seq<Stack>)
    requires forall s <- stacks :: s.path != []
    ensures Build(stacks) == AbsorbAll(EMPTY, stacks)
  {
    if stacks != [] {
      BuildIsAbsorb(stacks[..|stacks| - 1]);
      assert stacks[|stacks| - 1] in stacks;
    }
  }

  lemma {:induction false} DumpIsPositive(t: Tree)
    ensures forall s <- Dump(t) :: s.count > 0
    decreases t, 1
  {
    DumpAllIsPositive(t.frames);
  }

  lemma {:induction false} DumpAllIsPositive(frames: seq<Tree>)
    ensures forall s <- DumpAll(frames) :: s.count > 0
    decreases frames, 0
  {
    if frames != [] {
      DumpAllIsPositive(frames[..|frames| - 1]);
      DumpIsPositive(frames[|frames| - 1]);
    }
  }

  /** What a dump must find to bring the tree back: below the head only frames with samples in or below them and none
      with negative samples of its own, and a head that counts what they do. */
  predicate Rebuildable(t: Tree) {
    (forall c <- t.frames :: Solid(c)) && t.count == SumCounts(t.frames)
  }

  /** Re-adding the dumped entries gives the same tree, with the same order, base counts and counts. */
  predicate DumpRebuilds(stacks: seq<Stack>) {
    Build(Dump(Build(stacks))) == Build(stacks)
  }

  lemma {:induction false} RebuiltIff(stacks: seq<Stack>)
    ensures DumpRebuilds(stacks) <==> Rebuildable(Build(stacks))
  {
    hide Build, Solid;
    var t := Build(stacks);
    HeadCountsAll(stacks);
    BuiltIsConsistent(stacks);
    var dump := Dump(t);
    assert dump == DumpAll(t.frames);
    DumpIsPositive(t);
    DumpedPathsNonEmpty(t.frames);
    BuiltIsSolid(dump);
    NoEmptyStacks(dump);
    if Rebuildable(t) {
      BuildIsAbsorb(dump);
      RebuildsAll("all", 0, 0, t.frames);
    }
  }

  // ---------------------------------------------------------------- the condition, read off the stacks

  /** Every node of the subtree has samples in or below it, and none of its own are negative. */
  ghost predicate SampledEverywhere(t: Tree) {
    forall q :: At(t, q).Some? ==> BaseAt(t, q) >= 0 && CountAt(t, q) > 0
  }

  lemma {:induction false} ChildAt(t: Tree, c: Tree, q: seq<string>)
    requires c in t.frames && DistinctNames(t.frames)
    ensures At(t, [c.name] + q) == At(c, q)
  {
    assert ([c.name] + q)[1..] == q;
    assert t.frames[Find(t.frames, c.name)] == c;
  }

  lemma {:induction false} SolidNode(t: Tree, q: seq<string>)
    requires Solid(t) && At(t, q).Some?
    ensures BaseAt(t, q) >= 0 && CountAt(t, q) > 0
    decreases |q|
  {
    if q != [] {
      SolidNode(t.frames[Find(t.frames, q[0])], q[1..]);
    }
  }

  lemma {:induction false} SampledChild(t: Tree, c: Tree)
    requires c in t.frames && DistinctNames(t.frames)
    requires forall q :: q != [] && At(t, q).Some? ==> BaseAt(t, q) >= 0 && CountAt(t, q) > 0
    ensures SampledEverywhere(c)
  {
    hide At;
    forall q | At(c, q).Some?
      ensures BaseAt(c, q) >= 0 && CountAt(c, q) > 0
    {
      ChildAt(t, c, q);
      assert [c.name] + q != [] && At(t, [c.name] + q).Some?;
    }
  }

  lemma {:induction false} SampledIsSolid(t: Tree)
    requires Consistent(t) && SampledEverywhere(t)
    ensures Solid(t)
  {
    assert At(t, []).Some?;
    forall c | c in t.frames
      ensures Solid(c)
    {
      SampledChild(t, c);
      SampledIsSolid(c);
    }
  }

  /** Of the stacks recorded: for every beginning of a stack the counts of all stacks that begin so add up to more than
      0, and of those that end there to no less than 0; the counts of the stacks without frames add up to 0. */
  ghost predicate Dumpable(stacks: seq<Stack>) {
    && SumEqual(stacks, []) == 0
    && forall q :: q != [] && SomePrefix(stacks, q) ==> SumEqual(stacks, q) >= 0 && SumPrefix(stacks, q) > 0
  }

  lemma {:induction false} HeadAddsEmpty(stacks: seq<Stack>)
    ensures Build(stacks).count == SumCounts(Build(stacks).frames) + SumEqual(stacks, [])
  {
    if stacks != [] {
      var init, last := stacks[..|stacks| - 1], stacks[|stacks| - 1];
      HeadAddsEmpty(init);
      BuiltIsConsistent(init);
      InsertKeepsConsistent(Build(init).(count := Build(init).count + last.count), last.path, last.count);
    }
  }

  lemma {:induction false} RebuildableIff(stacks: seq<Stack>)
    ensures Rebuildable(Build(stacks)) <==> Dumpable(stacks)
  {
    hide Build, SumEqual, SumPrefix, SomePrefix, At, Solid;
    var t := Build(stacks);
    HeadAddsEmpty(stacks);
    BuiltIsConsistent(stacks);
    forall q | q != []
      ensures At(t, q).Some? <==> SomePrefix(stacks, q)
      ensures BaseAt(t, q) == SumEqual(stacks, q) && CountAt(t, q) == SumPrefix(stacks, q)
    {
      TrieIsMultiset(stacks, q);
    }
    if Rebuildable(t) {
      forall q | q != [] && At(t, q).Some?
        ensures BaseAt(t, q) >= 0 && CountAt(t, q) > 0
      {
        NodeBelowSolid(t, q);
      }
    }
    if Dumpable(stacks) {
      forall c | c in t.frames
        ensures Solid(c)
      {
        SampledChild(t, c);
        SampledIsSolid(c);
      }
    }
  }

  lemma {:induction false} NodeBelowSolid(t: Tree, q: seq<string>)
    requires q != [] && At(t, q).Some? && forall c <- t.frames :: Solid(c)
    ensures BaseAt(t, q) >= 0 && CountAt(t, q) > 0
  {
    SolidNode(t.frames[Find(t.frames, q[0])], q[1..]);
  }

  /** Re-adding the dumped entries of any tree, counts of any sign, gives that tree back exactly when the stacks it was
      built from are dumpable. */
  lemma {:induction false} DumpRebuildsIff(stacks: seq<Stack>)
    ensures DumpRebuilds(stacks) <==> Dumpable(stacks)
  {
    RebuiltIff(stacks);
    RebuildableIff(stacks);
  }

  /** With positive counts: exactly when no stack was empty (those reach only the head). */
  lemma {:induction false} PositiveRebuildsIff(stacks: seq<Stack>)
    requires forall s <- stacks :: s.count > 0
    ensures DumpRebuilds(stacks) <==> forall s <- stacks :: s.path != []
  {
    hide Build, Dump;
    RebuiltIff(stacks);
    BuiltIsSolid(stacks);
    NoEmptyStacks(stacks);
  }

  /** A stack of no samples leaves a frame behind that no dump mentions. */
  lemma {:induction false} ZeroCountIsLost()
    ensures var t := Build([Stack(["a"], 0)]);
      t == Node("all", 0, 0, [Node("a", 0, 0, [])]) && Build(Dump(t)) == EMPTY
  {
    assert [Stack(["a"], 0)][..0] == [] && ["a"][1..] == [];
    var a := Node("a", 0, 0, []);
    assert Build([Stack(["a"], 0)]) == Node("all", 0, 0, [a]);
    assert [a][..0] == [] && Dump(a) == [];
  }

  /** Names in the tree come from the stacks. */
  predicate CleanTree(t: Tree) {
    forall c <- t.frames :: Clean(c.name) && CleanTree(c)
  }

  predicate SolidTops(t: Tree) {
    forall c <- t.frames :: c.name == "" || !IsSpace(c.name[0])
  }

  lemma {:induction false} InsertKeepsClean(t: Tree, path: seq<string>, n: int)
    requires CleanTree(t) && forall name <- path :: Clean(name)
    ensures CleanTree(Insert(t, path, n))
    decreases |path|
  {
    if path != [] {
      var child := ChildOrNew(t, path[0]);
      var child1 := child.(count := child.count + n, base := if path[1..] == [] then child.base + n else child.base);
      InsertKeepsClean(child1, path[1..], n);
      assert Clean(path[0]);
    }
  }

  lemma {:induction false} FirstNameSolid(path: seq<string>)
    requires path != []
    ensures StartsSolid(path) <==> path[0] == "" || !IsSpace(path[0][0])
  {
    if path[0] == "" && |path| > 1 {
      assert Join(path, ';')[0] == ';';
    } else if path[0] != "" {
      assert Join(path, ';')[0] == path[0][0];
    }
  }

  /** What names must satisfy for the text to be read back, whatever the counts. */
  predicate CleanStacks(stacks: seq<Stack>) {
    forall s <- stacks :: StartsSolid(s.path) && forall name <- s.path :: Clean(name)
  }

  lemma {:induction false} BuiltIsClean(stacks: seq<Stack>)
    requires CleanStacks(stacks)
    ensures CleanTree(Build(stacks)) && SolidTops(Build(stacks))
  {
    if stacks != [] {
      var init, last := stacks[..|stacks| - 1], stacks[|stacks| - 1];
      assert last in stacks;
      BuiltIsClean(init);
      InsertKeepsClean(Build(init).(count := Build(init).count + last.count), last.path, last.count);
      if last.path != [] {
        FirstNameSolid(last.path);
      }
    }
  }

  lemma {:induction false} DumpIsClean(t: Tree, k: nat)
    requires CleanTree(t) && k < |Dump(t)|
    ensures forall name <- Dump(t)[k].path :: Clean(name)
    decreases t, 1
  {
    var own := if t.base > 0 then 1 else 0;
    if k >= own {
      DumpAllIsClean(t.frames, k - own);
    }
  }

  lemma {:induction false} DumpAllIsClean(frames: seq<Tree>, k: nat)
    requires k < |DumpAll(frames)| && forall c <- frames :: Clean(c.name) && CleanTree(c)
    ensures forall name <- DumpAll(frames)[k].path :: Clean(name)
    ensures exists c :: c in frames && DumpAll(frames)[k].path != [] && DumpAll(frames)[k].path[0] == c.name
    decreases frames, 0
  {
    var front, last := frames[..|frames| - 1], frames[|frames| - 1];
    var n := |DumpAll(front)|;
    if k < n {
      DumpAllIsClean(front, k);
    } else {
      DumpIsClean(last, k - n);
      assert DumpAll(frames)[k].path == [last.name] + Dump(last)[k - n].path;
      assert last in frames;
    }
  }

  /** What PySpyCollapser reads from the dumped text. */
  function ReadBack(stacks: seq<Stack>): Result<seq<Stack>> {
    ParseAll(Lines(Printed(Dump(Build(stacks)))))
  }

  /** The round trip through text: dump the tree, read the file with PySpyCollapser, add every entry again. It can
      always be read, and the same tree is back exactly when re-adding the dumped entries themselves brings it back. */
  lemma {:induction false} TextRoundTripIff(stacks: seq<Stack>)
    requires CleanStacks(stacks)
    ensures ReadBack(stacks).Ok? && (Build(ReadBack(stacks).value) == Build(stacks) <==> Dumpable(stacks))
  {
    hide Dump, Build, Printable, Printed, Lines, ParseAll, Dumpable;
    DumpIsPrintable(stacks);
    FileRoundTrip(Dump(Build(stacks)));
    DumpRebuildsIff(stacks);
  }

  /** With positive counts and no empty stack the same tree is back. */
  lemma {:induction false} TextRoundTrip(stacks: seq<Stack>)
    requires PrintableStacks(stacks)
    ensures ReadBack(stacks).Ok? && Build(ReadBack(stacks).value) == Build(stacks)
  {
    hide Dump, Build, Printable, Printed, Lines, ParseAll, Dumpable;
    TextRoundTripIff(stacks);
    DumpRebuildsIff(stacks);
    PositiveRebuildsIff(stacks);
  }

  lemma {:induction false} DumpIsPrintable(stacks: seq<Stack>)
    requires CleanStacks(stacks)
    ensures forall s <- Dump(Build(stacks)) :: Printable(s)
  {
    hide Build;
    var t := Build(stacks);
    HeadCountsAll(stacks);
    BuiltIsClean(stacks);
    assert Dump(t) == DumpAll(t.frames);
    DumpIsPositive(t);
    forall s | s in Dump(t)
      ensures Printable(s)
    {
      var k :| 0 <= k < |Dump(t)| && Dump(t)[k] == s;
      DumpAllIsClean(t.frames, k);
      FirstNameSolid(s.path);
    }
  }
}
