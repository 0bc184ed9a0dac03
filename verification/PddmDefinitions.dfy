/** What the lines that define macros look like, and what they define. */
module PddmDefinitions {
  import opened Wrappers
  import opened Text
  import opened PddmSections
  import opened PddmRoundTrip
  import opened PddmMacros

  // --------------------------------------------------------------------- the form

  function CommaJoin(parts: seq<string>): string {
    if parts == [] then "" else if |parts| == 1 then parts[0] else parts[0] + "," + CommaJoin(parts[1..])
  }

  ghost predicate AreNames(args: seq<string>) {
    && (forall i :: 0 <= i < |args| ==> IsWord(args[i]))
    && (forall i, j :: 0 <= i < j < |args| ==> args[i] != args[j])
  }

  /** What stands between the parentheses: the arguments with white space around them. */
  ghost predicate AreArguments(parts: seq<string>, args: seq<string>) {
    || (args == [] && |parts| == 1 && Blank(parts[0]))
    || (|parts| == |args| > 0 && AreNames(args) && forall i :: 0 <= i < |args| ==> Trims(parts[i], args[i]))
  }

  ghost predicate IsDefineWith(line: string, name: string, args: seq<string>, before: string, parts: seq<string>,
                               after: string)
  {
    && IsWord(name) && Blank(before) && Blank(after) && AreArguments(parts, args)
    && line == "PDDM-DEFINE " + (before + (name + "(" + (CommaJoin(parts) + ")")) + after)
  }

  /** The line defines a macro with this name and these arguments, in this order. */
  ghost predicate IsDefineLine(line: string, name: string, args: seq<string>) {
    exists before, parts, after :: IsDefineWith(line, name, args, before, parts, after)
  }

  // -------------------------------------------------------------------- splitting

  lemma {:induction false} BeforeOf(p: string, c: char, rest: string)
    requires c !in p
    ensures Before(p, c) == p && Before(p + [c] + rest, c) == p
  {
    if p != "" {
      BeforeOf(p[1..], c, rest);
      assert (p + [c] + rest)[1..] == p[1..] + [c] + rest;
    } else {
      assert p + [c] + rest == [c] + rest;
    }
  }

  lemma {:induction false} SplitJoined(parts: seq<string>)
    requires parts != [] && forall i :: 0 <= i < |parts| ==> ',' !in parts[i]
    ensures SplitAt(CommaJoin(parts), ',') == parts
  {
    if |parts| == 1 {
      BeforeOf(parts[0], ',', "");
    } else {
      var rest := CommaJoin(parts[1..]);
      SplitJoined(parts[1..]);
      BeforeOf(parts[0], ',', rest);
      assert parts[0] + "," + rest == parts[0] + [','] + rest;
      assert (parts[0] + "," + rest)[|parts[0]| + 1..] == rest;
    }
  }

  lemma {:induction false} JoinSplit(s: string)
    ensures CommaJoin(SplitAt(s, ',')) == s
    ensures forall i :: 0 <= i < |SplitAt(s, ',')| ==> ',' !in SplitAt(s, ',')[i]
    decreases |s|
  {
    var p := Before(s, ',');
    if |p| < |s| {
      var rest := s[|p| + 1..];
      JoinSplit(rest);
      assert ([p] + SplitAt(rest, ','))[1..] == SplitAt(rest, ',');
      assert s == p + "," + rest;
    }
  }

  // ---------------------------------------------------------------- the arguments

  function Stripped(parts: seq<string>): (names: seq<string>)
    ensures |names| == |parts|
  {
    seq(|parts|, i requires 0 <= i < |parts| => Strip(parts[i]))
  }

  lemma {:induction false} ArgsIff(parts: seq<string>, sofar: seq<string>)
    requires AreNames(sofar)
    ensures ParseArgs(parts, sofar)
      == if AreNames(sofar + Stripped(parts)) then Some(sofar + Stripped(parts)) else None
    decreases |parts|
  {
    var names := sofar + Stripped(parts);
    if parts == [] {
      assert names == sofar;
    } else {
      var arg := Strip(parts[0]);
      assert names[|sofar|] == arg;
      if IsWord(arg) && arg !in sofar {
        ArgsIff(parts[1..], sofar + [arg]);
        assert sofar + [arg] + Stripped(parts[1..]) == names;
      } else if arg in sofar {
        var i :| 0 <= i < |sofar| && sofar[i] == arg;
        assert names[i] == names[|sofar|];
      }
    }
  }

  lemma {:induction false} JoinHead(before: string, parts: seq<string>)
    requires parts != []
    ensures CommaJoin([before + parts[0]] + parts[1..]) == before + CommaJoin(parts)
  {
    var padded := [before + parts[0]] + parts[1..];
    if |parts| > 1 {
      assert padded[1..] == parts[1..];
      assert before + parts[0] + "," + CommaJoin(parts[1..]) == before + (parts[0] + "," + CommaJoin(parts[1..]));
    }
  }

  lemma {:induction false} JoinTail(parts: seq<string>, after: string)
    requires parts != []
    ensures CommaJoin(parts[..|parts| - 1] + [parts[|parts| - 1] + after]) == CommaJoin(parts) + after
  {
    var n := |parts| - 1;
    var padded := parts[..n] + [parts[n] + after];
    if n > 0 {
      JoinTail(parts[1..], after);
      assert padded[1..] == parts[1..][..n - 1] + [parts[1..][n - 1] + after];
      assert parts[0] + "," + (CommaJoin(parts[1..]) + after) == parts[0] + "," + CommaJoin(parts[1..]) + after;
    }
  }

  lemma {:induction false} LastOfJoined(parts: seq<string>)
    requires parts != [] && parts[|parts| - 1] != ""
    ensures var s := CommaJoin(parts);
      s != "" && s[|s| - 1] == parts[|parts| - 1][|parts[|parts| - 1]| - 1]
  {
    if |parts| > 1 { LastOfJoined(parts[1..]); }
  }

  lemma {:induction false} FirstOfJoined(parts: seq<string>)
    requires parts != [] && parts[0] != ""
    ensures var s := CommaJoin(parts); s != "" && s[0] == parts[0][0]
  {
  }

  /** A word is bare, and white space after it may be stripped. */
  lemma TrimsItself(word: string, after: string)
    requires IsWord(word) && Blank(after)
    ensures Trims(word, word) && Trims(word + after, word)
  {
    assert word == "" + word + "" && word + after == "" + word + after && Blank("");
  }

  /** An argument with white space around it has neither comma nor parenthesis in it. */
  lemma NoMarks(part: string, word: string)
    requires IsWord(word) && Trims(part, word)
    ensures ',' !in part && ')' !in part
  {
    var a, b :| Blank(a) && Blank(b) && part == a + word + b;
    assert forall k :: 0 <= k < |part| ==> IsSpace(part[k]) || IsWordChar(part[k]);
  }

  lemma TrimsPadded(before: string, part: string, after: string, t: string)
    requires Trims(part, t) && Blank(before) && Blank(after)
    ensures Trims(before + part, t) && Trims(part + after, t)
  {
    var a, b :| Blank(a) && Blank(b) && part == a + t + b;
    assert Blank(before + a) && before + part == (before + a) + t + b;
    assert Blank(b + after) && part + after == a + t + (b + after);
  }

  ghost predicate TrimAll(parts: seq<string>, args: seq<string>) {
    |parts| == |args| > 0 && forall i :: 0 <= i < |args| ==> Trims(parts[i], args[i])
  }

  lemma TrimUpdate(parts: seq<string>, args: seq<string>, i: nat, part: string)
    requires TrimAll(parts, args) && i < |args| && Trims(part, args[i])
    ensures TrimAll(parts[i := part], args)
  {
  }

  /** Arguments may have more white space around them. */
  lemma PadEnds(parts: seq<string>, args: seq<string>, before: string, after: string) returns (padded: seq<string>)
    requires TrimAll(parts, args) && Blank(before) && Blank(after)
    ensures CommaJoin(padded) == before + CommaJoin(parts) + after && TrimAll(padded, args)
  {
    var n := |parts| - 1;
    padded := parts[0 := before + parts[0]];
    assert padded == [before + parts[0]] + parts[1..];
    JoinHead(before, parts);
    TrimsPadded(before, parts[0], "", args[0]);
    TrimUpdate(parts, args, 0, before + parts[0]);
    var p := padded;
    JoinTail(p, after);
    TrimsPadded("", p[n], after, args[n]);
    TrimUpdate(p, args, n, p[n] + after);
    padded := p[n := p[n] + after];
    assert padded == p[..n] + [p[n] + after];
  }

  lemma BareHead(parts: seq<string>, args: seq<string>) returns (before: string, bare: seq<string>)
    requires TrimAll(parts, args) && IsWord(args[0])
    ensures Blank(before) && CommaJoin(parts) == before + CommaJoin(bare)
    ensures TrimAll(bare, args) && bare[0] != "" && bare[0][0] == args[0][0]
  {
    var a, b :| Blank(a) && Blank(b) && parts[0] == a + args[0] + b;
    before, bare := a, parts[0 := args[0] + b];
    assert a + args[0] + b == a + (args[0] + b);
    assert parts == [a + bare[0]] + bare[1..];
    JoinHead(a, bare);
    TrimsItself(args[0], b);
    TrimUpdate(parts, args, 0, args[0] + b);
  }

  lemma BareTail(parts: seq<string>, args: seq<string>) returns (after: string, bare: seq<string>)
    requires TrimAll(parts, args) && IsWord(args[|args| - 1])
    ensures Blank(after) && CommaJoin(parts) == CommaJoin(bare) + after && TrimAll(bare, args)
    ensures var last := bare[|bare| - 1];
      last != "" && !IsSpace(last[|last| - 1]) && last + after == parts[|parts| - 1]
    ensures |bare| == |parts| && forall i :: 0 <= i < |parts| - 1 ==> bare[i] == parts[i]
  {
    var n := |parts| - 1;
    var a, b :| Blank(a) && Blank(b) && parts[n] == a + args[n] + b;
    after, bare := b, parts[n := a + args[n]];
    assert parts == bare[..n] + [bare[n] + b];
    JoinTail(bare, b);
    TrimsItself(args[n], "");
    TrimsPadded(a, args[n], "", args[n]);
    TrimUpdate(parts, args, n, a + args[n]);
  }

  /** Stripping the arguments strips the first and the last of them. */
  lemma BareEnds(parts: seq<string>, args: seq<string>) returns (bare: seq<string>)
    requires TrimAll(parts, args) && forall i :: 0 <= i < |args| ==> IsWord(args[i])
    ensures CommaJoin(bare) != "" && Strip(CommaJoin(parts)) == CommaJoin(bare) && TrimAll(bare, args)
  {
    var before, p := BareHead(parts, args);
    var after;
    after, bare := BareTail(p, args);
    assert bare[0] != "" && bare[0][0] == args[0][0] by {
      if |bare| == 1 { assert (bare[0] + after)[0] == bare[0][0]; }
    }
    LastOfJoined(bare);
    FirstOfJoined(bare);
    var core := CommaJoin(bare);
    assert CommaJoin(parts) == before + core + after;
    StripIff(CommaJoin(parts), core);
  }

  lemma FormIsRead(parts: seq<string>, args: seq<string>)
    requires AreArguments(parts, args)
    ensures ParseArgsStr(CommaJoin(parts)) == Some(args)
  {
    if args == [] {
      assert Trims(parts[0], "") by { assert parts[0] == parts[0] + "" + "" && Blank(""); }
      StripIff(parts[0], "");
    } else {
      var bare := BareEnds(parts, args);
      forall i | 0 <= i < |bare|
        ensures ',' !in bare[i] && Strip(bare[i]) == args[i]
      {
        StripIff(bare[i], args[i]);
        NoMarks(bare[i], args[i]);
      }
      SplitJoined(bare);
      ArgsIff(bare, []);
      assert [] + Stripped(bare) == args;
    }
  }

  lemma ReadHasForm(inside: string, args: seq<string>) returns (parts: seq<string>)
    requires ParseArgsStr(inside) == Some(args)
    ensures AreArguments(parts, args) && CommaJoin(parts) == inside
  {
    StripIff(inside, Strip(inside));
    var before, after :| Blank(before) && Blank(after) && inside == before + Strip(inside) + after;
    if Strip(inside) == "" {
      assert inside == before + after;
      parts := [inside];
    } else {
      var split := SplitAt(Strip(inside), ',');
      JoinSplit(Strip(inside));
      ArgsIff(split, []);
      assert [] + Stripped(split) == args;
      forall i | 0 <= i < |split|
        ensures Trims(split[i], args[i])
      {
        StripIff(split[i], args[i]);
      }
      parts := PadEnds(split, args, before, after);
    }
  }

  /** What the parentheses hold gives these arguments exactly if it has the form above. */
  lemma InsideIff(inside: string, args: seq<string>)
    ensures ParseArgsStr(inside) == Some(args) <==> exists parts :: AreArguments(parts, args) && CommaJoin(parts) == inside
  {
    forall parts | AreArguments(parts, args) && CommaJoin(parts) == inside
      ensures ParseArgsStr(inside) == Some(args)
    {
      FormIsRead(parts, args);
    }
    if ParseArgsStr(inside) == Some(args) {
      var parts := ReadHasForm(inside, args);
    }
  }

  // -------------------------------------------------------------- the DEFINE line

  lemma {:induction false} WordPrefixOf(word: string, rest: string)
    requires (forall i :: 0 <= i < |word| ==> IsWordChar(word[i])) && (rest == "" || !IsWordChar(rest[0]))
    ensures WordPrefix(word + rest) == word
  {
    if word != "" {
      assert (word + rest)[1..] == word[1..] + rest;
      WordPrefixOf(word[1..], rest);
    } else {
      assert word + rest == rest;
    }
  }

  /** What a line defines, without the white space around it. */
  function Core(name: string, inside: string): string { name + "(" + (inside + ")") }

  lemma CoreParts(name: string, inside: string)
    ensures var core := Core(name, inside);
      && core == name + ("(" + (inside + ")")) && core[..|name|] == name && core[|name|] == '('
      && core[|name| + 1..] == inside + ")" && core[|core| - 1] == ')'
  {
  }

  lemma CoreIsBare(name: string, inside: string)
    requires IsWord(name)
    ensures Trims(Core(name, inside), Core(name, inside))
  {
    CoreParts(name, inside);
    var core := Core(name, inside);
    assert core[0] == name[0];
    assert core == "" + core + "" && Blank("");
  }

  lemma CoreIsRead(name: string, inside: string)
    requires IsWord(name) && ')' !in inside
    ensures WordPrefix(Core(name, inside)) == name && Before(inside + ")", ')') == inside
  {
    CoreParts(name, inside);
    WordPrefixOf(name, "(" + (inside + ")"));
    BeforeOf(inside, ')', "");
    assert inside + [')'] + "" == inside + ")";
  }

  lemma {:induction false} NoParens(parts: seq<string>)
    requires forall i :: 0 <= i < |parts| ==> ')' !in parts[i]
    ensures ')' !in CommaJoin(parts)
  {
    if |parts| > 1 { NoParens(parts[1..]); }
  }

  lemma ArgumentsHaveNoParens(parts: seq<string>, args: seq<string>)
    requires AreArguments(parts, args)
    ensures ')' !in CommaJoin(parts)
  {
    forall i | 0 <= i < |parts|
      ensures ')' !in parts[i]
    {
      if args != [] { NoMarks(parts[i], args[i]); }
    }
    NoParens(parts);
  }

  lemma TrimsCore(before: string, core: string, after: string)
    requires Blank(before) && Blank(after) && Trims(core, core)
    ensures Strip(before + core + after) == core
  {
    StripIff(before + core + after, core);
  }

  lemma FormIsDefined(line: string, name: string, args: seq<string>, before: string, parts: seq<string>, after: string)
    requires IsDefineWith(line, name, args, before, parts, after)
    ensures ParseDefineLine(line) == Some(Header(name, args))
  {
    var inside := CommaJoin(parts);
    ArgumentsHaveNoParens(parts, args);
    CoreParts(name, inside);
    CoreIsBare(name, inside);
    CoreIsRead(name, inside);
    assert |"PDDM-DEFINE "| == 12 && line[12..] == before + Core(name, inside) + after;
    TrimsCore(before, Core(name, inside), after);
    InsideIff(inside, args);
  }

  /** A text that is accepted as a definition is a core. */
  lemma DefinedIsCore(core: string, name: string)
    requires name <= core && |name| < |core| && core[|name|] == '('
    requires |Before(core[|name| + 1..], ')')| + 1 == |core[|name| + 1..]|
    ensures core == Core(name, Before(core[|name| + 1..], ')'))
  {
    var rest := core[|name| + 1..];
    var inside := Before(rest, ')');
    assert rest == inside + ")";
    assert core == core[..|name|] + (core[|name|..|name| + 1] + rest);
    assert core[|name|..|name| + 1] == "(";
  }

  lemma DefineLineStarts(line: string)
    requires FirstWord(line) == MACRO_DEFINE && |line| >= 12
    ensures line == "PDDM-DEFINE " + line[12..]
  {
    assert line == FirstWord(line) + [line[11]] + line[12..];
    assert MACRO_DEFINE + [' '] == "PDDM-DEFINE ";
  }

  lemma DefinedHasForm(line: string, name: string, args: seq<string>)
    requires FirstWord(line) == MACRO_DEFINE && ParseDefineLine(line) == Some(Header(name, args))
    ensures IsDefineLine(line, name, args)
  {
    var rest := line[12..];
    var core := Strip(rest);
    StripIff(rest, core);
    var before, after :| Blank(before) && Blank(after) && rest == before + core + after;
    DefinedIsCore(core, name);
    var inside := Before(core[|name| + 1..], ')');
    InsideIff(inside, args);
    var parts :| AreArguments(parts, args) && CommaJoin(parts) == inside;
    DefineLineStarts(line);
    assert IsDefineWith(line, name, args, before, parts, after);
  }

  /** A DEFINE line is accepted exactly if it has the form, and yields what the form says. */
  lemma DefineLineIff(line: string, name: string, args: seq<string>)
    requires FirstWord(line) == MACRO_DEFINE
    ensures ParseDefineLine(line) == Some(Header(name, args)) <==> IsDefineLine(line, name, args)
  {
    if IsDefineLine(line, name, args) {
      var before, parts, after :| IsDefineWith(line, name, args, before, parts, after);
      FormIsDefined(line, name, args, before, parts, after);
    }
    if ParseDefineLine(line) == Some(Header(name, args)) {
      DefinedHasForm(line, name, args);
    }
  }

  lemma StartsAsWord(word: string, rest: string, prefix: string)
    requires StartsWith(word, prefix)
    ensures StartsWith(word + " " + rest, prefix)
  {
    assert (word + " " + rest)[..|prefix|] == word[..|prefix|];
  }

  lemma DefineWord()
    ensures ' ' !in MACRO_DEFINE && StartsWith(MACRO_DEFINE, "PDDM-") && "PDDM-DEFINE " == MACRO_DEFINE + " "
  {
    assert MACRO_DEFINE[..5] == "PDDM-";
  }

  lemma DefineLineIsDirective(line: string, name: string, args: seq<string>)
    requires IsDefineLine(line, name, args)
    ensures StartsWith(line, "PDDM-") && FirstWord(line) == MACRO_DEFINE
  {
    var before, parts, after :| IsDefineWith(line, name, args, before, parts, after);
    var rest := before + Core(name, CommaJoin(parts)) + after;
    DefineWord();
    FirstWordOf(MACRO_DEFINE, rest);
    StartsAsWord(MACRO_DEFINE, rest, "PDDM-");
  }

  // ------------------------------------------------------------ definitions, one by one

  lemma DefineIsAccepted(st: State, line: string)
    requires StartsWith(line, "PDDM-")
    ensures ParseLine(st, line).Some? <==>
      || (exists name, args :: IsDefineLine(line, name, args) && name !in Enter(st.table, st.cur))
      || (FirstWord(line) == "PDDM-DEFINE-END" && st.cur.Some?)
  {
    forall name, args | IsDefineLine(line, name, args) && name !in Enter(st.table, st.cur)
      ensures ParseLine(st, line).Some?
    {
      DefineLineIsDirective(line, name, args);
      DefineLineIff(line, name, args);
    }
    if ParseLine(st, line).Some? && FirstWord(line) == MACRO_DEFINE {
      var header := ParseDefineLine(line).value;
      DefineLineIff(line, header.name, header.args);
    }
  }

  /** Which lines are accepted: a definition of a new macro in the form above, the end of
    an open one, any other line of an open one, and blank lines. */
  lemma AcceptedIff(st: State, line: string)
    ensures ParseLine(st, line).Some? <==>
      if !StartsWith(line, "PDDM-") then st.cur.Some? || Blank(line)
      else
        || (exists name, args :: IsDefineLine(line, name, args) && name !in Enter(st.table, st.cur))
        || (FirstWord(line) == "PDDM-DEFINE-END" && st.cur.Some?)
  {
    if !StartsWith(line, "PDDM-") {
      StripIff(line, "");
      assert Blank(line) ==> line == "" + "" + line && Blank("");
      if before, after :| Blank(before) && Blank(after) && line == before + "" + after { assert Blank(line); }
    } else {
      DefineIsAccepted(st, line);
    }
  }

  /** A definition with the lines of its body; it may be ended, and blank lines may follow. */
  datatype Definition = Definition(line: string, name: string, args: seq<string>, body: seq<string>,
                                   ended: bool, blanks: seq<string>)
  {
    ghost predicate Valid() {
      && IsDefineLine(line, name, args)
      && (forall i :: 0 <= i < |body| ==> !StartsWith(body[i], "PDDM-"))
      && (forall i :: 0 <= i < |blanks| ==> Blank(blanks[i]))
      && (!ended ==> blanks == [])
    }

    function Lines(): seq<string> {
      [line] + (body + if ended then ["PDDM-DEFINE-END"] + blanks else [])
    }

    /** The table with this macro added. */
    function AddTo(table: MacroTable): MacroTable { table[name := Macro(args, JoinBreaks(body))] }
  }

  lemma {:induction false} BodyIsRead(table: MacroTable, header: Header, sofar: seq<string>, body: seq<string>,
                                      rest: seq<string>)
    requires forall i :: 0 <= i < |body| ==> !StartsWith(body[i], "PDDM-")
    ensures ParseLinesFrom(State(table, Some(Open(header, sofar))), body + rest)
      == ParseLinesFrom(State(table, Some(Open(header, sofar + body))), rest)
    decreases |body|
  {
    if body == [] {
      assert body + rest == rest && sofar + body == sofar;
    } else {
      assert (body + rest)[1..] == body[1..] + rest && sofar + [body[0]] + body[1..] == sofar + body;
      BodyIsRead(table, header, sofar + [body[0]], body[1..], rest);
    }
  }

  lemma BlankLine(line: string)
    requires Blank(line)
    ensures Strip(line) == "" && !StartsWith(line, "PDDM-")
  {
    assert line == "" + "" + line && Blank("");
    StripIff(line, "");
    if line != "" { assert "PDDM-"[0] == 'P' && line[0] != 'P'; }
  }

  lemma {:induction false} BlanksAreRead(table: MacroTable, blanks: seq<string>)
    requires forall i :: 0 <= i < |blanks| ==> Blank(blanks[i])
    ensures ParseLinesFrom(State(table, None), blanks) == Some(table)
  {
    if blanks != [] {
      BlankLine(blanks[0]);
      BlanksAreRead(table, blanks[1..]);
    }
  }

  lemma EndLine()
    ensures StartsWith("PDDM-DEFINE-END", "PDDM-") && FirstWord("PDDM-DEFINE-END") == MACRO_DEFINE_END
  {
    var end := "PDDM-DEFINE-END";
    assert ' ' !in end && end[..5] == "PDDM-";
    FirstWordOf(end, "");
  }

  lemma EndIsRead(table: MacroTable, open: Open, end: string, blanks: seq<string>)
    requires StartsWith(end, "PDDM-") && FirstWord(end) == MACRO_DEFINE_END && MACRO_DEFINE_END != MACRO_DEFINE
    requires forall i :: 0 <= i < |blanks| ==> Blank(blanks[i])
    ensures ParseLinesFrom(State(table, Some(open)), [end] + blanks) == Some(Enter(table, Some(open)))
  {
    assert ([end] + blanks)[1..] == blanks;
    BlanksAreRead(Enter(table, Some(open)), blanks);
  }

  lemma DefineIsRead(table: MacroTable, line: string, header: Header, body: seq<string>, after: seq<string>)
    requires StartsWith(line, "PDDM-") && FirstWord(line) == MACRO_DEFINE && ParseDefineLine(line) == Some(header)
    requires header.name !in table && forall i :: 0 <= i < |body| ==> !StartsWith(body[i], "PDDM-")
    ensures ReadDefinitions(table, [line] + (body + after))
      == ParseLinesFrom(State(table, Some(Open(header, body))), after)
  {
    assert ([line] + (body + after))[1..] == body + after;
    BodyIsRead(table, header, [], body, after);
    assert [] + body == body;
  }

  lemma OneIsRead(table: MacroTable, d: Definition)
    requires d.Valid() && d.name !in table
    ensures ReadDefinitions(table, d.Lines()) == Some(d.AddTo(table))
  {
    var header := Header(d.name, d.args);
    DefineLineIsDirective(d.line, d.name, d.args);
    DefineLineIff(d.line, d.name, d.args);
    DefineIsRead(table, d.line, header, d.body, if d.ended then ["PDDM-DEFINE-END"] + d.blanks else []);
    if d.ended {
      EndLine();
      EndIsRead(table, Open(header, d.body), "PDDM-DEFINE-END", d.blanks);
    }
  }

  function LinesOfAll(ds: seq<Definition>): seq<string> {
    if ds == [] then [] else ds[0].Lines() + LinesOfAll(ds[1..])
  }

  function AddAll(table: MacroTable, ds: seq<Definition>): MacroTable
    decreases |ds|
  {
    if ds == [] then table else AddAll(ds[0].AddTo(table), ds[1..])
  }

  /** Definitions of new macros, one after the other, each enter a macro with its arguments
    in order and its body. */
  lemma {:induction false} DefinitionsAreRead(table: MacroTable, ds: seq<Definition>)
    requires forall i :: 0 <= i < |ds| ==> ds[i].Valid() && ds[i].name !in table
    requires forall i, j :: 0 <= i < j < |ds| ==> ds[i].name != ds[j].name
    ensures ReadDefinitions(table, LinesOfAll(ds)) == Some(AddAll(table, ds))
    decreases |ds|
  {
    if ds != [] {
      OneIsRead(table, ds[0]);
      DefinitionsAreRead(ds[0].AddTo(table), ds[1..]);
      if |ds| == 1 {
        assert ds[0].Lines() + [] == ds[0].Lines();
      } else {
        DefineLineIsDirective(ds[1].line, ds[1].name, ds[1].args);
        BlocksMayBeSplit(State(table, None), ds[0].Lines(), LinesOfAll(ds[1..]));
      }
    }
  }
}
