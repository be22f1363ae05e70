/** Which lines PySpyCollapser.parse (tfg/stackcollapsers/pyspycollapser.py) takes for which stacks, and what the dump
    (tfg/calltree/calltree.py) writes: the text written out, neither through the parser nor through the printer. */
module ParseLaws {
  import opened CallTree
  import opened Text
  import opened Collapsed

  // ---------------------------------------------------------------- white space

  predicate AllSpace(s: string) {
    forall c <- s :: IsSpace(c)
  }

  predicate Trimmed(s: string) {
    s != "" ==> !IsSpace(s[0]) && !IsSpace(s[|s| - 1])
  }

  /** `s` is `text` with white space around it. */
  predicate Around(s: string, lead: string, text: string, trail: string) {
    s == lead + text + trail && AllSpace(lead) && Trimmed(text) && AllSpace(trail)
  }

  lemma {:induction false} LeftParts(s: string) returns (lead: string)
    ensures AllSpace(lead) && s == lead + StripLeft(s)
    ensures StripLeft(s) != "" ==> !IsSpace(StripLeft(s)[0])
  {
    lead := "";
    if s != "" && IsSpace(s[0]) {
      var more := LeftParts(s[1..]);
      lead := [s[0]] + more;
    }
  }

  lemma {:induction false} RightParts(s: string) returns (trail: string)
    ensures AllSpace(trail) && s == StripRight(s) + trail
    ensures StripRight(s) != "" ==> !IsSpace(StripRight(s)[|StripRight(s)| - 1])
  {
    trail := "";
    if s != "" && IsSpace(s[|s| - 1]) {
      var more := RightParts(s[..|s| - 1]);
      trail := more + [s[|s| - 1]];
    }
  }

  lemma {:induction false} StripParts(s: string) returns (lead: string, trail: string)
    ensures Around(s, lead, Strip(s), trail)
  {
    hide IsSpace;
    lead := LeftParts(s);
    trail := RightParts(StripLeft(s));
    if Strip(s) != "" {
      assert StripLeft(s)[0] == Strip(s)[0];
    }
  }

  lemma {:induction false} SkipLeft(lead: string, rest: string)
    requires AllSpace(lead)
    ensures StripLeft(lead + rest) == StripLeft(rest)
  {
    hide IsSpace;
    if lead == "" {
      assert lead + rest == rest;
    } else {
      assert (lead + rest)[1..] == lead[1..] + rest;
      SkipLeft(lead[1..], rest);
    }
  }

  lemma {:induction false} SkipRight(rest: string, trail: string)
    requires AllSpace(trail)
    ensures StripRight(rest + trail) == StripRight(rest)
    decreases |trail|
  {
    hide IsSpace;
    if trail == "" {
      assert rest + trail == rest;
    } else {
      assert (rest + trail)[..|rest + trail| - 1] == rest + trail[..|trail| - 1];
      SkipRight(rest, trail[..|trail| - 1]);
    }
  }

  /** strip() finds the text between the white space. */
  lemma {:induction false} StripFinds(s: string, lead: string, text: string, trail: string)
    requires Around(s, lead, text, trail)
    ensures Strip(s) == text
  {
    hide IsSpace;
    assert s == lead + (text + trail);
    SkipLeft(lead, text + trail);
    if text == "" {
      assert text + trail == trail + "";
      SkipLeft(trail, "");
    } else {
      assert (text + trail)[0] == text[0];
      SkipRight(text, trail);
    }
  }

  // ---------------------------------------------------------------- integers

  function Power10(n: nat): nat {
    if n == 0 then 1 else 10 * Power10(n - 1)
  }

  predicate AllDigits(s: string) {
    s != "" && forall c <- s :: '0' <= c <= '9'
  }

  function DigitOf(c: char): int {
    c as int - '0' as int
  }

  /** The digits by their places: each times its power of ten. */
  function PlaceValue(s: string): int {
    if s == "" then 0 else DigitOf(s[0]) * Power10(|s| - 1) + PlaceValue(s[1..])
  }

  lemma {:induction false} PlaceValueSnoc(s: string)
    requires s != ""
    ensures PlaceValue(s) == 10 * PlaceValue(s[..|s| - 1]) + DigitOf(s[|s| - 1])
  {
    hide DigitOf;
    if |s| > 1 {
      var front := s[..|s| - 1];
      PlaceValueSnoc(s[1..]);
      assert s[1..][..|s| - 2] == front[1..];
      assert Power10(|s| - 1) == 10 * Power10(|front| - 1);
      OneMorePlace(DigitOf(s[0]), Power10(|front| - 1));
    }
  }

  lemma {:induction false} OneMorePlace(d: int, p: int)
    ensures d * (10 * p) == 10 * (d * p)
  {
  }

  lemma {:induction false} AllDigitsSnoc(front: string, c: char)
    ensures AllDigits(front + [c]) <==> (front == "" || AllDigits(front)) && '0' <= c <= '9'
  {
    var s := front + [c];
    assert c in s && forall d <- front :: d in s;
    assert forall d <- s :: d in front || d == c;
  }

  lemma {:induction false} DigitsAre(s: string)
    ensures Digits(s).Some? <==> AllDigits(s)
    ensures AllDigits(s) ==> Digits(s).value == PlaceValue(s)
  {
    hide PlaceValue, AllDigits;
    if s == "" {
      NoDigits();
    } else {
      var front, c := s[..|s| - 1], s[|s| - 1];
      assert s == front + [c];
      AllDigitsSnoc(front, c);
      PlaceValueSnoc(s);
      if front == "" {
        NoDigits();
      } else {
        DigitsAre(front);
      }
    }
  }

  lemma {:induction false} NoDigits()
    ensures PlaceValue("") == 0 && !AllDigits("")
  {
  }

  /** An integer as int() takes it: digits, with a sign or without, and white space around. */
  predicate IntText(t: string, n: int, lead: string, sign: string, digits: string, trail: string) {
    && t == lead + (sign + digits) + trail && AllSpace(lead) && AllSpace(trail)
    && (sign == "" || sign == "+" || sign == "-") && AllDigits(digits)
    && n == if sign == "-" then -PlaceValue(digits) else PlaceValue(digits)
  }

  ghost predicate IsInt(t: string, n: int) {
    exists lead, sign, digits, trail :: IntText(t, n, lead, sign, digits, trail)
  }

  lemma {:induction false} SignedIsTrimmed(sign: string, digits: string)
    requires (sign == "" || sign == "+" || sign == "-") && AllDigits(digits)
    ensures Trimmed(sign + digits)
    ensures sign == "" ==> digits[0] != '-' && digits[0] != '+'
  {
    assert digits[0] in digits && digits[|digits| - 1] in digits;
    DigitIsSolid(digits[0]);
    DigitIsSolid(digits[|digits| - 1]);
  }

  lemma {:induction false} IntTextParses(t: string, n: int, lead: string, sign: string, digits: string, trail: string)
    requires IntText(t, n, lead, sign, digits, trail)
    ensures ParseInt(t) == Some(n)
  {
    hide IsSpace, Strip, Digits, PlaceValue;
    SignedIsTrimmed(sign, digits);
    StripFinds(t, lead, sign + digits, trail);
    DigitsAre(digits);
    if sign == "" {
      assert sign + digits == digits;
    } else {
      assert (sign + digits)[1..] == digits;
    }
  }

  /** int() gives `n` for exactly the texts of `n`. */
  lemma {:induction false} ParseIntIff(t: string, n: int)
    ensures ParseInt(t) == Some(n) <==> IsInt(t, n)
  {
    hide IntText;
    if IsInt(t, n) {
      var lead, sign, digits, trail :| IntText(t, n, lead, sign, digits, trail);
      IntTextParses(t, n, lead, sign, digits, trail);
    }
    if ParseInt(t) == Some(n) {
      IntHasText(t, n);
    }
  }

  lemma {:induction false} IntHasText(t: string, n: int)
    requires ParseInt(t) == Some(n)
    ensures IsInt(t, n)
  {
    hide IsSpace, Strip, Digits, PlaceValue;
    var lead, trail := StripParts(t);
    var u := Strip(t);
    DigitsAre(u);
    if u != "" && (u[0] == '-' || u[0] == '+') {
      DigitsAre(u[1..]);
      assert u == [u[0]] + u[1..];
      assert IntText(t, n, lead, [u[0]], u[1..], trail);
    } else {
      assert u == "" + u;
      assert IntText(t, n, lead, "", u, trail);
    }
  }

  // ---------------------------------------------------------------- lines

  /** The text of a line: the names with semicolons between, then the count, with a space in front of it or, behind an
      empty last name, without. */
  predicate LineText(text: string, s: Stack, num: string) {
    && s.path != [] && NoSemicolons(s.path) && ';' !in num && ' ' !in num
    && (text == Join(s.path, ';') + " " + num || (s.path[|s.path| - 1] == "" && text == Join(s.path, ';') + num))
  }

  /** The line `raw` is such a text, with white space around it. */
  ghost predicate IsLineOf(raw: string, s: Stack) {
    exists lead, text, trail, num :: Around(raw, lead, text, trail) && LineText(text, s, num) && IsInt(num, s.count)
  }

  /** The body of the parse loop on the stripped line. */
  lemma {:induction false} FieldsOf(text: string, s: Stack, num: string)
    requires LineText(text, s, num)
    ensures var vals := Split(text, ';');
      var parts := Split(vals[|vals| - 1], ' ');
      && parts[|parts| - 1] == num && vals[|vals| - 1 := Join(parts[..|parts| - 1], ' ')] == s.path
  {
    var last := |s.path| - 1;
    if text == Join(s.path, ';') + " " + num {
      assert text == Join(s.path, ';') + (" " + num);
      LineSplits(s.path, " " + num);
      LastField(s.path[last], num);
      assert s.path[last] + (" " + num) == s.path[last] + " " + num;
      assert s.path[last := s.path[last] + " " + num][last := s.path[last]] == s.path;
    } else {
      LineSplits(s.path, num);
      assert s.path[last] + num == num;
      SplitOne(num, ' ');
      assert [num][..0] == [];
      assert s.path[last := num][last := ""] == s.path;
    }
  }

  lemma {:induction false} LastField(name: string, num: string)
    requires ' ' !in num
    ensures var parts := Split(name + " " + num, ' ');
      parts[|parts| - 1] == num && Join(parts[..|parts| - 1], ' ') == name
  {
    var words := Split(name, ' ');
    JoinOfSplit(name, ' ');
    JoinSnoc(words, num, ' ');
    forall p <- words + [num]
      ensures ' ' !in p
    {
      if p in words {
        var k :| 0 <= k < |words| && words[k] == p;
        SplitHasNoSep(name, ' ', k);
      }
    }
    SplitOfJoin(words + [num], ' ');
    assert (words + [num])[..|words|] == words;
  }

  lemma {:induction false} LineOfParses(raw: string, s: Stack, lead: string, text: string, trail: string, num: string)
    requires Around(raw, lead, text, trail) && LineText(text, s, num) && IsInt(num, s.count)
    ensures ParseLine(raw) == Entry(s)
  {
    hide Strip, Split, Join, IsInt, ParseInt, LineText, Around;
    StripFinds(raw, lead, text, trail);
    FieldsOf(text, s, num);
    ParseIntIff(num, s.count);
    TextNotEmpty(text, s, num);
  }

  lemma {:induction false} TextNotEmpty(text: string, s: Stack, num: string)
    requires LineText(text, s, num) && IsInt(num, s.count)
    ensures text != ""
  {
    hide Join;
    var lead, sign, digits, trail :| IntText(num, s.count, lead, sign, digits, trail);
    assert num != "";
  }

  /** The last field is the last name and the count, put together again. */
  lemma {:induction false} FieldIs(field: string)
    ensures var parts := Split(field, ' ');
      var name, num := Join(parts[..|parts| - 1], ' '), parts[|parts| - 1];
      ' ' !in num && (field == name + " " + num || (name == "" && field == num))
  {
    var parts := Split(field, ' ');
    var front, num := parts[..|parts| - 1], parts[|parts| - 1];
    JoinOfSplit(field, ' ');
    SplitHasNoSep(field, ' ', |parts| - 1);
    assert parts == front + [num];
    if front != [] {
      JoinSnoc(front, num, ' ');
    }
  }

  /** The names and the count of a parsed line, put together again. */
  lemma {:induction false} ParsedIsText(raw: string)
    requires ParseLine(raw).Entry?
    ensures var s := ParseLine(raw).stack;
      exists num :: LineText(Strip(raw), s, num) && ParseInt(num) == Some(s.count)
  {
    hide Strip, ParseInt, Split, Join, NoSemicolons, StartsSolid;
    var line, s := Strip(raw), ParseLine(raw).stack;
    ParsedEntry(raw);
    var vals := Split(line, ';');
    var last := |vals| - 1;
    var parts := Split(vals[last], ' ');
    var num := parts[|parts| - 1];
    JoinOfSplit(line, ';');
    SplitHasNoSep(line, ';', last);
    FieldIs(vals[last]);
    LastLonger(s.path, vals, num);
    assert LineText(line, s, num);
  }

  lemma {:induction false} LastLonger(path: seq<string>, vals: seq<string>, num: string)
    requires path != [] && |path| == |vals| && vals[|vals| - 1 := path[|path| - 1]] == path
    ensures var last := |path| - 1;
      && (vals[last] == path[last] + " " + num ==> Join(vals, ';') == Join(path, ';') + " " + num)
      && (path[last] == "" && vals[last] == num ==> Join(vals, ';') == Join(path, ';') + num)
  {
    hide Join;
    var last := |path| - 1;
    if vals[last] == path[last] + " " + num {
      assert vals[last] == path[last] + (" " + num);
      JoinLonger(path, " " + num);
      assert path[last := path[last] + (" " + num)] == vals;
      assert Join(path, ';') + (" " + num) == Join(path, ';') + " " + num;
    }
    if path[last] == "" && vals[last] == num {
      assert vals[last] == path[last] + num;
      JoinLonger(path, num);
      assert path[last := path[last] + num] == vals;
    }
  }

  lemma {:induction false} JoinLonger(path: seq<string>, tail: string)
    requires path != []
    ensures Join(path[|path| - 1 := path[|path| - 1] + tail], ';') == Join(path, ';') + tail
  {
    var n := |path| - 1;
    if n > 0 {
      assert path == path[..n] + [path[n]] && path[n := path[n] + tail] == path[..n] + [path[n] + tail];
      JoinSnoc(path[..n], path[n], ';');
      JoinSnoc(path[..n], path[n] + tail, ';');
    }
  }

  /** Every line whatever: it is taken for a stack exactly when it is a text of that stack, and passed over exactly when
      it is blank; all other lines raise ValueError. */
  lemma {:induction false} ParseLineIff(raw: string, s: Stack)
    ensures ParseLine(raw) == Entry(s) <==> IsLineOf(raw, s)
    ensures ParseLine(raw) == Blank <==> AllSpace(raw)
  {
    hide ParseLine, Around, LineText, IsInt, ParseInt, Strip, AllSpace;
    if ParseLine(raw) == Entry(s) {
      var lead, trail := StripParts(raw);
      ParsedIsText(raw);
      var num :| LineText(Strip(raw), s, num) && ParseInt(num) == Some(s.count);
      ParseIntIff(num, s.count);
      assert Around(raw, lead, Strip(raw), trail);
    }
    if IsLineOf(raw, s) {
      var lead, text, trail, num :|
        Around(raw, lead, text, trail) && LineText(text, s, num) && IsInt(num, s.count);
      LineOfParses(raw, s, lead, text, trail, num);
    }
    BlankIff(raw);
  }

  lemma {:induction false} BlankIff(raw: string)
    ensures ParseLine(raw) == Blank <==> AllSpace(raw)
  {
    hide Strip, Split, Join, ParseInt;
    var lead, trail := StripParts(raw);
    if AllSpace(raw) {
      assert raw == raw + "" + "";
      StripFinds(raw, raw, "", "");
    }
  }

  /** A file says `stacks`: line by line, blank lines apart, a text of the next stack. */
  ghost predicate Says(lines: seq<string>, stacks: seq<Stack>) {
    if lines == [] then stacks == []
    else
      var n, m := |lines| - 1, |stacks| - 1;
      if AllSpace(lines[n]) then Says(lines[..n], stacks)
      else stacks != [] && IsLineOf(lines[n], stacks[m]) && Says(lines[..n], stacks[..m])
  }

  /** Every file whatever: reading it gives exactly the stacks that it says, and raises ValueError when it says none. */
  lemma {:induction false} FileSays(lines: seq<string>, stacks: seq<Stack>)
    ensures ParseAll(lines) == Ok(stacks) <==> Says(lines, stacks)
  {
    hide ParseLine, AllSpace, IsLineOf;
    if lines != [] {
      var n, m := |lines| - 1, |stacks| - 1;
      var parsed := ParseLine(lines[n]);
      ParseLineIff(lines[n], if parsed.Entry? then parsed.stack else Stack([], 0));
      FileSays(lines[..n], stacks);
      if stacks != [] {
        ParseLineIff(lines[n], stacks[m]);
        FileSays(lines[..n], stacks[..m]);
        assert stacks == stacks[..m] + [stacks[m]];
      }
    }
  }

  // ---------------------------------------------------------------- what is printed

  /** A printed line: the names with semicolons between, a space, and the count in decimal, with a minus for negative
      ones and no zero in front. */
  lemma {:induction false} LineIs(s: Stack) returns (digits: string)
    ensures Line(s) == Join(s.path, ';') + " " + (if s.count < 0 then "-" else "") + digits
    ensures AllDigits(digits) && PlaceValue(digits) == (if s.count < 0 then -s.count else s.count)
    ensures |digits| > 1 ==> digits[0] != '0'
  {
    var n: nat := if s.count < 0 then -s.count else s.count;
    digits := Decimal(n);
    DigitsAre(digits);
    DigitsOfDecimal(n);
    NoZeroInFront(n);
    assert Join(s.path, ';') + " " + ((if s.count < 0 then "-" else "") + digits)
        == Join(s.path, ';') + " " + (if s.count < 0 then "-" else "") + digits;
  }

  lemma {:induction false} NoZeroInFront(n: nat)
    ensures n > 0 ==> Decimal(n)[0] != '0'
    ensures |Decimal(n)| > 1 ==> n > 0
  {
    if n >= 10 {
      NoZeroInFront(n / 10);
    }
  }
}
