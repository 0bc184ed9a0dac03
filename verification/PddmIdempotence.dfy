/** What processing leaves alone, and exactly when processing again changes nothing. */
module PddmIdempotence {
  import opened Wrappers
  import opened Text
  import opened PddmSections
  import opened PddmRoundTrip
  import opened PddmMacros
  import opened PddmProcess

  // ----------------------------------------------------------- nothing else is touched

  /** The lines of a file that are no part of generated code: all lines outside of
    expansions and the EXPAND lines themselves. */
  function Authored(inExpansion: bool, lines: seq<string>): seq<string>
    decreases |lines|
  {
    if lines == [] then []
    else
      var line, rest := lines[0], lines[1..];
      if IsExpandLine(line) then [line] + Authored(true, rest)
      else if inExpansion then Authored(!IsEndLine(line), rest)
      else [line] + Authored(false, rest)
  }

  function LinesOf(secs: seq<Section>): seq<string> {
    if secs == [] then [] else secs[0].lines + LinesOf(secs[1..])
  }

  /** What a section that takes a line keeps of it. */
  lemma AppendKeepsAuthored(s: Section, line: string, rest: seq<string>)
    ensures var v := TakeLine(s, line);
      v.Added? ==>
        v.section.lines + Authored(v.more && v.section.ExpansionSection?, rest)
          == s.lines + Authored(s.ExpansionSection?, [line] + rest)
  {
    assert ([line] + rest)[1..] == rest;
    var v := TakeLine(s, line);
    if v.Added? {
      if StartsWith(line, IMPORT_DEFINES + " ") { LineOfImport(line); }
      var later := Authored(v.more && v.section.ExpansionSection?, rest);
      if s.ExpansionSection? && (!IsDirective(line) || FirstWord(line) != EXPAND) {
        assert v.section.lines == s.lines && Authored(true, [line] + rest) == later;
      } else {
        assert v.section.lines == s.lines + [line] && Authored(s.ExpansionSection?, [line] + rest) == [line] + later;
        assert s.lines + [line] + later == s.lines + ([line] + later);
      }
    }
  }

  lemma BeginKeepsAuthored(line: string, rest: seq<string>)
    ensures var v := Begin(line);
      v.Added? ==>
        v.section.lines + Authored(v.more && v.section.ExpansionSection?, rest) == Authored(false, [line] + rest)
  {
    assert ([line] + rest)[1..] == rest;
    BeginIsCanonical(line);
  }

  /** Only a section that is not an expansion refuses a line. */
  lemma RefusedOutside(s: Section, line: string)
    requires TakeLine(s, line).Refused?
    ensures !s.ExpansionSection?
  {
  }

  lemma LinesOfPrepend(s: Section, r: Result<seq<Section>>)
    ensures r.Ok? ==> LinesOf(Prepend(s, r).value) == s.lines + LinesOf(r.value)
  {
    if r.Ok? {
      assert ([s] + r.value)[1..] == r.value;
    }
  }

  lemma {:induction false} ParseKeepsAuthored(cur: Option<Section>, lines: seq<string>)
    ensures var r := ParseFrom(cur, lines);
      r.Ok? ==> LinesOf(r.value) == (if cur.Some? then cur.value.lines else [])
                  + Authored(cur.Some? && cur.value.ExpansionSection?, lines)
    decreases |lines|, 0
  {
    if lines == [] {
      if cur.Some? { assert [cur.value][1..] == []; }
    } else {
      var line, rest := lines[0], lines[1..];
      assert lines == [line] + rest;
      BeginKeepsAuthored(line, rest);
      if cur.Some? { AppendKeepsAuthored(cur.value, line, rest); }
      var v := if cur.Some? then TakeLine(cur.value, line) else Begin(line);
      if v.Added? {
        ContinueKeepsAuthored(v.section, v.more, rest);
      } else if v.Refused? && Begin(line).Added? {
        ContinueKeepsAuthored(Begin(line).section, Begin(line).more, rest);
        RefusedOutside(cur.value, line);
        LinesOfPrepend(cur.value, Continue(Begin(line).section, Begin(line).more, rest));
      }
    }
  }

  lemma {:induction false} ContinueKeepsAuthored(s: Section, more: bool, lines: seq<string>)
    ensures var r := Continue(s, more, lines);
      r.Ok? ==> LinesOf(r.value) == s.lines + Authored(more && s.ExpansionSection?, lines)
    decreases |lines|, 1
  {
    ParseKeepsAuthored(if more then Some(s) else None, lines);
    LinesOfPrepend(s, ParseFrom(None, lines));
  }

  /** Every authored line is kept, verbatim and in order, and no other is added. */
  lemma ProcessKeepsAuthored(resolve: Resolver, expand: TableExpander, collapse: bool, lines: seq<string>, depth: nat)
    requires collapse || CleanFile(resolve, expand, lines, depth)
    ensures var r := Process(resolve, expand, collapse, lines, depth);
      r.Ok? ==> Authored(false, r.value) == Authored(false, lines)
  {
    var r := Process(resolve, expand, collapse, lines, depth);
    if r.Ok? {
      ProcessedReadsBack(resolve, expand, collapse, lines, depth);
      ParseKeepsAuthored(None, lines);
      ParseKeepsAuthored(None, r.value);
      assert [] + Authored(false, lines) == Authored(false, lines);
      assert [] + Authored(false, r.value) == Authored(false, r.value);
    }
  }

  // --------------------------------------------- exactly when processing is idempotent

  lemma {:induction false} ExpandLinesAreAuthored(inExpansion: bool, lines: seq<string>, line: string)
    requires line in lines && IsExpandLine(line)
    ensures line in Authored(inExpansion, lines)
    decreases |lines|
  {
    if lines[0] != line {
      assert line in lines[1..];
      ExpandLinesAreAuthored(true, lines[1..], line);
      ExpandLinesAreAuthored(false, lines[1..], line);
    }
  }

  /** An expansion section captures the line. */
  ghost predicate Captures(secs: seq<Section>, line: string) {
    exists i :: 0 <= i < |secs| && secs[i].ExpansionSection? && line in secs[i].lines
  }

  lemma {:induction false} AuthoredExpandIsCaptured(secs: seq<Section>, line: string)
    requires Canonical(secs) && line in LinesOf(secs) && IsExpandLine(line)
    ensures Captures(secs, line)
  {
    if line in secs[0].lines {
      if secs[0].ImportSection? { LineOfImport(line); }
      assert secs[0].ExpansionSection?;
    } else {
      AuthoredExpandIsCaptured(secs[1..], line);
      var i :| 0 <= i < |secs[1..]| && secs[1..][i].ExpansionSection? && line in secs[1..][i].lines;
      assert secs[i + 1] == secs[1..][i];
    }
  }

  /** Reading a file captures every EXPAND line in it, generated or not. */
  lemma ParseCapturesExpands(lines: seq<string>, line: string)
    requires Parse(lines).Ok? && line in lines && IsExpandLine(line)
    ensures Captures(Parse(lines).value, line)
  {
    ParseIsCanonical(None, lines);
    ParseKeepsAuthored(None, lines);
    ExpandLinesAreAuthored(false, lines, line);
    assert [] + Authored(false, lines) == Authored(false, lines);
    AuthoredExpandIsCaptured(Parse(lines).value, line);
  }

  lemma {:induction false} ExpansionsHoldCaptured(expand: Option<Expander>, captured: seq<string>)
    requires Captured(captured) && PrintExpansions(expand, captured).Ok?
    ensures forall line :: line in captured ==> line in PrintExpansions(expand, captured).value
  {
    if captured != [] {
      ExpansionsHoldCaptured(expand, captured[1..]);
    }
  }

  lemma {:induction false} PrintHoldsCaptured(expand: Option<Expander>, secs: seq<Section>, i: nat)
    requires AllWellFormed(secs) && Print(expand, secs).Ok? && i < |secs| && secs[i].ExpansionSection?
    ensures forall line :: line in secs[i].lines ==> line in Print(expand, secs).value
    decreases i
  {
    if i == 0 {
      ExpansionsHoldCaptured(expand, secs[0].lines);
    } else {
      PrintHoldsCaptured(expand, secs[1..], i - 1);
    }
  }

  lemma UncleanIsPrinted(expand: Option<Expander>, secs: seq<Section>) returns (line: string)
    requires AllWellFormed(secs) && Print(expand, secs).Ok? && !Clean(expand, secs)
    ensures line in Print(expand, secs).value && IsExpandLine(line)
    ensures Generated(expand, line).Ok? && !Plain(Generated(expand, line).value)
  {
    var i :| 0 <= i < |secs| && secs[i].ExpansionSection? && !CleanExpansions(expand, secs[i].lines);
    var k :| 0 <= k < |secs[i].lines| && Generated(expand, secs[i].lines[k]).Ok?
             && !Plain(Generated(expand, secs[i].lines[k]).value);
    line := secs[i].lines[k];
    PrintHoldsCaptured(expand, secs, i);
  }

  /** Printing, reading back and printing again gives the same lines exactly when no
    expansion contains a line that looks like a directive. */
  lemma PrintedAgain(expand: Option<Expander>, secs: seq<Section>)
    requires Canonical(secs) && Print(expand, secs).Ok?
    ensures var out := Print(expand, secs).value;
      Clean(expand, secs) <==>
        Parse(out).Ok? && AllWellFormed(Parse(out).value) && Print(expand, Parse(out).value) == Ok(out)
  {
    var out := Print(expand, secs).value;
    if Clean(expand, secs) {
      CleanReadsBack(expand, secs);
    } else if Parse(out).Ok? && AllWellFormed(Parse(out).value) && Print(expand, Parse(out).value) == Ok(out) {
      var again := Parse(out).value;
      ParseIsCanonical(None, out);
      ParseKeepsDirectives(None, out);
      PrintWeight(expand, again);
      var line := UncleanIsPrinted(expand, secs);
      ParseCapturesExpands(out, line);
    }
  }

  // ------------------------------------- generated code that defines nothing of its own

  /** No line starts or imports a definition. */
  predicate DefinesNothing(lines: seq<string>) {
    forall i :: 0 <= i < |lines| && IsDirective(lines[i]) ==> FirstWord(lines[i]) !in {DEFINE, IMPORT_DEFINES}
  }

  predicate ExpansionsDefineNothing(expand: Option<Expander>, captured: seq<string>)
    requires Captured(captured)
  {
    forall i :: 0 <= i < |captured| ==>
      Generated(expand, captured[i]).Ok? ==> DefinesNothing(Generated(expand, captured[i]).value)
  }

  predicate SectionsDefineNothing(expand: Option<Expander>, secs: seq<Section>)
    requires AllWellFormed(secs)
  {
    forall i :: 0 <= i < |secs| && secs[i].ExpansionSection? ==> ExpansionsDefineNothing(expand, secs[i].lines)
  }

  lemma AppendDefinesNothing(a: seq<string>, b: seq<string>)
    requires DefinesNothing(a) && DefinesNothing(b)
    ensures DefinesNothing(a + b)
  {
  }

  lemma {:induction false} PrintedDefineNothing(expand: Option<Expander>, captured: seq<string>)
    requires Captured(captured) && ExpansionsDefineNothing(expand, captured) && PrintExpansions(expand, captured).Ok?
    ensures DefinesNothing(PrintExpansions(expand, captured).value)
  {
    if captured != [] {
      PrintedDefineNothing(expand, captured[1..]);
      assert EXPAND[8] == 'E' && DEFINE[8] == 'D' && IMPORT_DEFINES[8] == 'I';
      AppendDefinesNothing(Generated(expand, captured[0]).value, PrintExpansions(expand, captured[1..]).value);
      AppendDefinesNothing([captured[0]] + Generated(expand, captured[0]).value, PrintExpansions(expand, captured[1..]).value);
    }
  }

  /** The sections that define or import macros. */
  function Definitions(secs: seq<Section>): seq<Section> {
    if secs == [] then []
    else (if secs[0].DefinitionSection? || secs[0].ImportSection? then [secs[0]] else []) + Definitions(secs[1..])
  }

  lemma DefinitionsOfPrepend(s: Section, r: Result<seq<Section>>)
    requires s.TextSection? || s.ExpansionSection?
    ensures r.Ok? ==> Definitions(Prepend(s, r).value) == Definitions(r.value)
  {
    if r.Ok? { assert ([s] + r.value)[1..] == r.value; }
  }

  /** However the lines of an expansion are read, what is read ends with the end marker
    and holds no definition. */
  lemma {:induction false} ReadPrinted(cur: Option<Section>, ls: seq<string>, end: string, rest: seq<string>)
    requires DefinesNothing(ls) && IsEndLine(end)
    requires cur.Some? ==> cur.value.TextSection? || cur.value.ExpansionSection?
    ensures var r := ParseFrom(cur, ls + ([end] + rest));
      r.Ok? ==> ParseFrom(None, rest).Ok? && Definitions(r.value) == Definitions(ParseFrom(None, rest).value)
    decreases |ls|
  {
    var lines := ls + ([end] + rest);
    if ls == [] {
      assert lines[0] == end && lines[1..] == rest;
      if cur.Some? { DefinitionsOfPrepend(cur.value, ParseFrom(None, rest)); }
    } else {
      var line, later := ls[0], ls[1..] + ([end] + rest);
      assert lines[0] == line && lines[1..] == later;
      var v := if cur.Some? then TakeLine(cur.value, line) else Begin(line);
      if v.Added? {
        ReadPrinted(if v.more then Some(v.section) else None, ls[1..], end, rest);
        DefinitionsOfPrepend(v.section, ParseFrom(None, later));
      } else if v.Refused? && Begin(line).Added? {
        ReadPrinted(if Begin(line).more then Some(Begin(line).section) else None, ls[1..], end, rest);
        DefinitionsOfPrepend(Begin(line).section, ParseFrom(None, later));
        DefinitionsOfPrepend(cur.value, Continue(Begin(line).section, Begin(line).more, later));
      }
    }
  }

  lemma ReadOtherSection(expand: Option<Expander>, s: Section, others: seq<Section>)
    requires Canonical([s] + others) && !s.ExpansionSection? && AllWellFormed(others) && Print(expand, others).Ok?
    ensures Parse(s.lines + Print(expand, others).value) == Prepend(s, Parse(Print(expand, others).value))
  {
    var rest := Print(expand, others).value;
    assert ([s] + others)[0] == s;
    ReadSection(None, s, rest);
    if s.TextSection? || s.DefinitionSection? {
      if others == [] {
        assert rest == [] && [s] + [] == [s];
      } else {
        FirstPrintedLine(expand, others);
        assert ([s] + others)[1] == others[0] && CanFollow(s, others[0]);
      }
    }
  }

  /** A printed file that is accepted has the definitions of the file it was printed from,
    if the expansions define nothing. */
  lemma {:induction false} ReadKeepsDefinitions(expand: Option<Expander>, secs: seq<Section>)
    requires Canonical(secs) && Print(expand, secs).Ok? && SectionsDefineNothing(expand, secs)
    ensures var r := Parse(Print(expand, secs).value);
      r.Ok? ==> Definitions(r.value) == Definitions(secs)
  {
    if secs != [] {
      var s, others := secs[0], secs[1..];
      assert Canonical(others) && SectionsDefineNothing(expand, others);
      ReadKeepsDefinitions(expand, others);
      var rest := Print(expand, others).value;
      if s.ExpansionSection? {
        var printed := PrintExpansions(expand, s.lines).value;
        PrintedDefineNothing(expand, s.lines);
        EndMarkerEnds(s.lines);
        ReadPrinted(None, printed, EndMarker(s.lines), rest);
        ConcatAssociates(printed, [EndMarker(s.lines)], rest);
      } else {
        ReadOtherSection(expand, s, others);
        if Parse(rest).Ok? { assert ([s] + Parse(rest).value)[1..] == Parse(rest).value; }
      }
    }
  }

  /** Binding sees the definitions only. */
  lemma {:induction false} BindSeesDefinitions(resolve: Resolver, table: MacroTable, a: seq<Section>, b: seq<Section>,
                                               depth: nat)
    requires Canonical(a) && Canonical(b) && Definitions(a) == Definitions(b)
    ensures Bind(resolve, table, a, depth) == Bind(resolve, table, b, depth)
    decreases |a| + |b|
  {
    if a != [] && (a[0].TextSection? || a[0].ExpansionSection?) {
      BindSeesDefinitions(resolve, table, a[1..], b, depth);
    } else if b != [] && (b[0].TextSection? || b[0].ExpansionSection?) {
      BindSeesDefinitions(resolve, table, a, b[1..], depth);
    } else if a != [] && b != [] {
      assert a[0] == Definitions(a)[0] == Definitions(b)[0] == b[0];
      assert Definitions(a[1..]) == Definitions(a)[1..] == Definitions(b)[1..] == Definitions(b[1..]);
      var bound := BindSection(resolve, table, a[0], depth);
      if bound.Ok? {
        BindSeesDefinitions(resolve, bound.value, a[1..], b[1..], depth);
      }
    }
  }

  /** No expansion in the file produces a line that starts or imports a definition. */
  ghost predicate GeneratesNoDefinitions(resolve: Resolver, expand: TableExpander, lines: seq<string>, depth: nat) {
    match Parse(lines)
    case Err(_) => true
    case Ok(secs) =>
      ParseIsCanonical(None, lines);
      match Binding(resolve, expand, false, secs, depth)
      case Err(_) => true
      case Ok(binding) => SectionsDefineNothing(binding, secs)
  }

  /** If the generated code defines no macros, processing again changes nothing exactly when
    no generated line looks like a directive. */
  lemma IdempotentIffClean(resolve: Resolver, expand: TableExpander, lines: seq<string>, depth: nat)
    requires Process(resolve, expand, false, lines, depth).Ok?
    requires GeneratesNoDefinitions(resolve, expand, lines, depth)
    ensures var r := Process(resolve, expand, false, lines, depth);
      Process(resolve, expand, false, r.value, depth) == r <==> CleanFile(resolve, expand, lines, depth)
  {
    var out := Process(resolve, expand, false, lines, depth).value;
    ParseIsCanonical(None, lines);
    ParseIsCanonical(None, out);
    var secs := Parse(lines).value;
    var binding := Binding(resolve, expand, false, secs, depth).value;
    PrintedAgain(binding, secs);
    ReadKeepsDefinitions(binding, secs);
    if Parse(out).Ok? {
      BindSeesDefinitions(resolve, map[], Parse(out).value, secs, depth);
    }
  }
}
