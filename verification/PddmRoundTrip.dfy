/** Which section lists come from reading a file, and when a printed file reads back. */
module PddmRoundTrip {
  import opened Wrappers
  import opened Text
  import opened PddmSections

  // ------------------------------------------------------ the image of Parse

  predicate IsDefinitionLine(line: string) {
    StartsWith(line, "//%") && (IsDirective(line) ==> FirstWord(line) in {DEFINE, DEFINE_END})
  }

  predicate CanonicalSection(s: Section) {
    && s.lines != []
    && match s
       case TextSection(lines) => forall i :: 0 <= i < |lines| ==> !IsDirective(lines[i])
       case ExpansionSection(lines) => Captured(lines)
       case DefinitionSection(lines) =>
         && IsDirective(lines[0]) && FirstWord(lines[0]) == DEFINE
         && forall i :: 0 <= i < |lines| ==> IsDefinitionLine(lines[i])
       case ImportSection(lines) =>
         && |lines| == 1 && StartsWith(lines[0], IMPORT_DEFINES + " ")
  }

  /** An open section ends only where it refuses the next line. */
  predicate CanFollow(s: Section, t: Section) {
    t.lines != [] && (s.TextSection? || s.DefinitionSection? ==> TakeLine(s, t.lines[0]) == Refused)
  }

  predicate Canonical(secs: seq<Section>) {
    && (forall i :: 0 <= i < |secs| ==> CanonicalSection(secs[i]))
    && (forall i, j :: 0 <= i < |secs| && 0 <= j < |secs| && j == i + 1 ==> CanFollow(secs[i], secs[j]))
  }

  lemma {:induction false} FirstWordOf(w: string, rest: string)
    requires ' ' !in w
    ensures FirstWord(w) == w && FirstWord(w + " " + rest) == w
  {
    if w != "" {
      FirstWordOf(w[1..], rest);
      assert (w + " " + rest)[1..] == w[1..] + " " + rest;
    }
  }

  lemma LineOfWord(line: string, w: string)
    requires FirstWord(line) == w
    ensures StartsWith(line, w)
  {
  }

  /** A section that has just taken its first line is canonical. */
  lemma BeginIsCanonical(line: string)
    ensures var v := Begin(line);
      v.Added? ==> CanonicalSection(v.section) && v.section.lines == [line] && (v.more <==> !v.section.ImportSection?)
  {
    LineOfWord(line, FirstWord(line));
  }

  lemma AppendStaysCanonical(s: Section, line: string)
    requires CanonicalSection(s) && !s.ImportSection?
    ensures var v := TakeLine(s, line);
      v.Added? ==>
        && CanonicalSection(v.section) && v.section.lines[0] == s.lines[0]
        && (v.more ==> !v.section.ImportSection?) && (!v.more ==> v.section.ExpansionSection?)
  {
    LineOfWord(line, FirstWord(line));
  }

  /** Reading yields canonical section lists only. */
  lemma {:induction false} ParseIsCanonical(cur: Option<Section>, lines: seq<string>)
    requires cur.Some? ==> CanonicalSection(cur.value) && !cur.value.ImportSection?
    ensures var r := ParseFrom(cur, lines);
      r.Ok? ==>
        && Canonical(r.value)
        && (cur.Some? ==> r.value != [] && r.value[0].lines[0] == cur.value.lines[0])
        && (cur.None? && lines != [] ==> r.value != [] && r.value[0].lines[0] == lines[0])
    decreases |lines|
  {
    if lines != [] {
      var line, rest := lines[0], lines[1..];
      BeginIsCanonical(line);
      if cur.Some? {
        AppendStaysCanonical(cur.value, line);
      }
      var v := if cur.Some? then TakeLine(cur.value, line) else Begin(line);
      if v.Added? {
        ParseIsCanonical(if v.more then Some(v.section) else None, rest);
      } else if v.Refused? && Begin(line).Added? {
        ParseIsCanonical(if Begin(line).more then Some(Begin(line).section) else None, rest);
      }
    }
  }

  // ------------------------------------------------- reading back what was printed

  /** None of these lines starts with the directive prefix. */
  predicate Plain(lines: seq<string>) {
    forall i :: 0 <= i < |lines| ==> !IsDirective(lines[i])
  }

  lemma {:induction false} ReadText(sofar: seq<string>, ls: seq<string>, rest: seq<string>)
    requires Plain(ls)
    ensures ParseFrom(Some(TextSection(sofar)), ls + rest) == ParseFrom(Some(TextSection(sofar + ls)), rest)
    decreases |ls|
  {
    if ls == [] {
      assert ls + rest == rest && sofar + ls == sofar;
    } else {
      ReadText(sofar + [ls[0]], ls[1..], rest);
      assert (ls + rest)[1..] == ls[1..] + rest && sofar + [ls[0]] + ls[1..] == sofar + ls;
    }
  }

  lemma {:induction false} ReadDefinition(sofar: seq<string>, ls: seq<string>, rest: seq<string>)
    requires forall i :: 0 <= i < |ls| ==> IsDefinitionLine(ls[i])
    ensures ParseFrom(Some(DefinitionSection(sofar)), ls + rest) == ParseFrom(Some(DefinitionSection(sofar + ls)), rest)
    decreases |ls|
  {
    if ls == [] {
      assert ls + rest == rest && sofar + ls == sofar;
    } else {
      ReadDefinition(sofar + [ls[0]], ls[1..], rest);
      assert (ls + rest)[1..] == ls[1..] + rest && sofar + [ls[0]] + ls[1..] == sofar + ls;
    }
  }

  /** Lines inside an expansion are eaten. */
  lemma {:induction false} EatLines(captured: seq<string>, ls: seq<string>, rest: seq<string>)
    requires Plain(ls)
    ensures ParseFrom(Some(ExpansionSection(captured)), ls + rest) == ParseFrom(Some(ExpansionSection(captured)), rest)
    decreases |ls|
  {
    if ls == [] {
      assert ls + rest == rest;
    } else {
      EatLines(captured, ls[1..], rest);
      assert (ls + rest)[1..] == ls[1..] + rest;
    }
  }

  /** No expansion of these EXPAND lines contains a directive. */
  predicate CleanExpansions(expand: Option<Expander>, captured: seq<string>)
    requires Captured(captured)
  {
    forall i :: 0 <= i < |captured| ==>
      Generated(expand, captured[i]).Ok? ==> Plain(Generated(expand, captured[i]).value)
  }

  /** One EXPAND line and what was generated for it. */
  lemma ReadOneExpansion(sofar: seq<string>, line: string, generated: seq<string>, rest: seq<string>)
    requires IsExpandLine(line) && Plain(generated)
    ensures ParseFrom(Some(ExpansionSection(sofar)), [line] + generated + rest)
      == ParseFrom(Some(ExpansionSection(sofar + [line])), rest)
  {
    assert ([line] + generated + rest)[1..] == generated + rest;
    EatLines(sofar + [line], generated, rest);
  }

  lemma PrintedFirst(expand: Option<Expander>, captured: seq<string>, rest: seq<string>)
    requires captured != [] && Captured(captured) && PrintExpansions(expand, captured).Ok?
    ensures PrintExpansions(expand, captured).value + rest
      == [captured[0]] + Generated(expand, captured[0]).value + (PrintExpansions(expand, captured[1..]).value + rest)
  {
    var generated, others := Generated(expand, captured[0]).value, PrintExpansions(expand, captured[1..]).value;
    ConcatAssociates([captured[0]] + generated, others, rest);
  }

  lemma {:induction false} ReadExpansions(expand: Option<Expander>, sofar: seq<string>, captured: seq<string>,
                                          rest: seq<string>)
    requires Captured(captured) && CleanExpansions(expand, captured) && PrintExpansions(expand, captured).Ok?
    ensures ParseFrom(Some(ExpansionSection(sofar)), PrintExpansions(expand, captured).value + rest)
      == ParseFrom(Some(ExpansionSection(sofar + captured)), rest)
    decreases |captured|
  {
    if captured == [] {
      assert PrintExpansions(expand, captured).value + rest == rest && sofar + captured == sofar;
    } else {
      var first, generated := captured[0], Generated(expand, captured[0]).value;
      ReadExpansions(expand, sofar + [first], captured[1..], rest);
      PrintedFirst(expand, captured, rest);
      ReadOneExpansion(sofar, first, generated, PrintExpansions(expand, captured[1..]).value + rest);
      assert sofar + [first] + captured[1..] == sofar + captured;
    }
  }

  lemma EndMarkerEnds(captured: seq<string>)
    requires |captured| == 1 ==> |captured[0]| >= |EXPAND|
    ensures IsEndLine(EndMarker(captured))
  {
    FirstWordOf(EXPAND_END, EndNote(captured));
    LineOfWord(EndMarker(captured), EXPAND_END);
  }

  predicate Clean(expand: Option<Expander>, secs: seq<Section>)
    requires AllWellFormed(secs)
  {
    forall i :: 0 <= i < |secs| && secs[i].ExpansionSection? ==> CleanExpansions(expand, secs[i].lines)
  }

  lemma ReadOpenSection(s: Section, rest: seq<string>)
    requires CanonicalSection(s) && (s.TextSection? || s.DefinitionSection?)
    ensures ParseFrom(None, s.lines + rest) == ParseFrom(Some(s), rest)
  {
    var first, others := s.lines[0], s.lines[1..];
    assert (s.lines + rest)[1..] == others + rest && [first] + others == s.lines && [] + [first] == [first];
    if s.TextSection? {
      ReadText([first], others, rest);
    } else {
      ReadDefinition([first], others, rest);
    }
  }

  lemma WordThenSpace(line: string, w: string)
    requires ' ' !in w && StartsWith(line, w + " ") && IsDirective(w)
    ensures FirstWord(line) == w && IsDirective(line)
  {
    assert line == w + " " + line[|w| + 1..];
    FirstWordOf(w, line[|w| + 1..]);
    assert line[..|PDDM|] == w[..|PDDM|];
  }

  lemma ImportWord()
    ensures ' ' !in IMPORT_DEFINES && IsDirective(IMPORT_DEFINES)
  {
    assert IMPORT_DEFINES[..|PDDM|] == PDDM;
  }

  lemma LineOfImport(line: string)
    requires StartsWith(line, IMPORT_DEFINES + " ")
    ensures IsDirective(line) && FirstWord(line) == IMPORT_DEFINES
  {
    ImportWord();
    WordThenSpace(line, IMPORT_DEFINES);
  }

  lemma ReadImport(s: Section, rest: seq<string>)
    requires CanonicalSection(s) && s.ImportSection?
    ensures ParseFrom(None, s.lines + rest) == Prepend(s, ParseFrom(None, rest))
  {
    LineOfImport(s.lines[0]);
    assert (s.lines + rest)[1..] == rest && [s.lines[0]] == s.lines;
  }

  lemma PrintedStart(expand: Option<Expander>, captured: seq<string>, rest: seq<string>)
    requires captured != [] && Captured(captured) && PrintExpansions(expand, captured).Ok?
    ensures var lines := PrintExpansions(expand, captured).value + rest;
      lines != [] && IsExpandLine(lines[0])
  {
  }

  /** An end line closes it. */
  lemma CloseExpansion(captured: seq<string>, end: string, rest: seq<string>)
    requires captured != [] && IsEndLine(end)
    ensures ParseFrom(Some(ExpansionSection(captured)), [end] + rest)
      == Prepend(ExpansionSection(captured), ParseFrom(None, rest))
  {
    assert ([end] + rest)[1..] == rest;
  }

  /** An EXPAND line opens an expansion. */
  lemma OpenExpansion(lines: seq<string>)
    requires lines != [] && IsExpandLine(lines[0])
    ensures ParseFrom(None, lines) == ParseFrom(Some(ExpansionSection([])), lines)
  {
  }

  lemma ReadExpansionSection(expand: Option<Expander>, c: seq<string>, rest: seq<string>)
    requires c != [] && Captured(c) && PrintExpansions(expand, c).Ok? && CleanExpansions(expand, c)
    ensures ParseFrom(None, PrintExpansions(expand, c).value + ([EndMarker(c)] + rest))
      == Prepend(ExpansionSection(c), ParseFrom(None, rest))
  {
    var printed, tail := PrintExpansions(expand, c).value, [EndMarker(c)] + rest;
    PrintedStart(expand, c, tail);
    OpenExpansion(printed + tail);
    ReadExpansions(expand, [], c, tail);
    assert [] + c == c;
    EndMarkerEnds(c);
    CloseExpansion(c, EndMarker(c), rest);
  }

  /** Reading one printed section, when nothing of it is open yet. */
  lemma ReadSection(expand: Option<Expander>, s: Section, rest: seq<string>)
    requires CanonicalSection(s) && PrintSection(expand, s).Ok?
    requires s.ExpansionSection? ==> CleanExpansions(expand, s.lines)
    ensures ParseFrom(None, PrintSection(expand, s).value + rest)
      == if s.TextSection? || s.DefinitionSection? then ParseFrom(Some(s), rest) else Prepend(s, ParseFrom(None, rest))
  {
    if s.ExpansionSection? {
      var printed := PrintExpansions(expand, s.lines).value;
      assert printed + [EndMarker(s.lines)] + rest == printed + ([EndMarker(s.lines)] + rest);
      ReadExpansionSection(expand, s.lines, rest);
    } else if s.ImportSection? {
      ReadImport(s, rest);
    } else {
      ReadOpenSection(s, rest);
    }
  }

  lemma FirstPrintedLine(expand: Option<Expander>, secs: seq<Section>)
    requires AllWellFormed(secs) && secs != [] && Print(expand, secs).Ok?
    ensures Print(expand, secs).value != [] && Print(expand, secs).value[0] == secs[0].lines[0]
  {
  }

  /** A printed file whose expansions contain no directive reads back as the sections
    it was printed from. */
  lemma {:induction false} CleanReadsBack(expand: Option<Expander>, secs: seq<Section>)
    requires Canonical(secs) && Print(expand, secs).Ok? && Clean(expand, secs)
    ensures Parse(Print(expand, secs).value) == Ok(secs)
    decreases |secs|
  {
    if secs != [] {
      var s, others := secs[0], secs[1..];
      assert Canonical(others) && Clean(expand, others);
      CleanReadsBack(expand, others);
      var rest := Print(expand, others).value;
      ReadSection(expand, s, rest);
      assert [s] + others == secs;
      if s.TextSection? || s.DefinitionSection? {
        if others == [] {
          assert rest == [] && secs == [s];
        } else {
          FirstPrintedLine(expand, others);
          assert CanFollow(s, others[0]);
        }
      }
    }
  }

  // ------------------------------------------ and conversely, by counting directives

  function Directives(lines: seq<string>): nat {
    if lines == [] then 0 else (if IsDirective(lines[0]) then 1 else 0) + Directives(lines[1..])
  }

  lemma {:induction false} DirectivesAppend(a: seq<string>, b: seq<string>)
    ensures Directives(a + b) == Directives(a) + Directives(b)
  {
    if a == [] {
      assert a + b == b;
    } else {
      DirectivesAppend(a[1..], b);
      assert (a + b)[1..] == a[1..] + b;
    }
  }

  lemma {:induction false} PlainIffNoDirectives(lines: seq<string>)
    ensures Plain(lines) <==> Directives(lines) == 0
  {
    if lines != [] {
      PlainIffNoDirectives(lines[1..]);
      assert Plain(lines) <==> !IsDirective(lines[0]) && Plain(lines[1..]) by {
        assert forall i :: 0 < i < |lines| ==> lines[i] == lines[1..][i - 1];
      }
    }
  }

  /** The directives a section was read from; `closed` says whether its end was read. */
  function Weight(s: Section, closed: bool): nat {
    match s
    case TextSection(_) => 0
    case ExpansionSection(lines) => |lines| + if closed then 1 else 0
    case DefinitionSection(lines) => Directives(lines)
    case ImportSection(lines) => |lines|
  }

  function TotalWeight(secs: seq<Section>): nat {
    if secs == [] then 0 else Weight(secs[0], true) + TotalWeight(secs[1..])
  }

  lemma AppendWeight(s: Section, line: string)
    ensures var v := TakeLine(s, line);
      v.Added? ==> Weight(v.section, s.ExpansionSection? && !v.more) == Weight(s, false) + Directives([line])
  {
    assert [line][1..] == [];
    match s
    case DefinitionSection(lines) => DirectivesAppend(lines, [line]);
    case ImportSection(lines) =>
      if StartsWith(line, IMPORT_DEFINES + " ") { LineOfImport(line); }
    case _ =>
  }

  /** No directive is lost or made up in reading. */
  lemma {:induction false} ParseKeepsDirectives(cur: Option<Section>, lines: seq<string>)
    requires cur.Some? ==> !cur.value.ImportSection?
    ensures var r := ParseFrom(cur, lines);
      r.Ok? ==> TotalWeight(r.value) == (if cur.Some? then Weight(cur.value, false) else 0) + Directives(lines)
    decreases |lines|, 0
  {
    if lines == [] {
      if cur.Some? { assert [cur.value][1..] == []; }
    } else {
      var line, rest := lines[0], lines[1..];
      assert lines == [line] + rest;
      DirectivesAppend([line], rest);
      if cur.Some? {
        AppendWeight(cur.value, line);
      }
      if SectionFor(line).Ok? {
        AppendWeight(SectionFor(line).value, line);
      }
      BeginIsCanonical(line);
      var v := if cur.Some? then TakeLine(cur.value, line) else Begin(line);
      if v.Added? {
        ContinueKeepsDirectives(v.section, v.more, rest);
      } else if v.Refused? && Begin(line).Added? {
        ContinueKeepsDirectives(Begin(line).section, Begin(line).more, rest);
      }
    }
  }

  lemma {:induction false} ContinueKeepsDirectives(s: Section, more: bool, lines: seq<string>)
    requires more ==> !s.ImportSection?
    ensures var r := Continue(s, more, lines);
      r.Ok? ==> TotalWeight(r.value) == Weight(s, !more) + Directives(lines)
    decreases |lines|, 1
  {
    ParseKeepsDirectives(if more then Some(s) else None, lines);
  }

  lemma {:induction false} ExpansionsWeight(expand: Option<Expander>, captured: seq<string>)
    requires Captured(captured) && PrintExpansions(expand, captured).Ok?
    ensures Directives(PrintExpansions(expand, captured).value) >= |captured|
    ensures Directives(PrintExpansions(expand, captured).value) == |captured| ==> CleanExpansions(expand, captured)
  {
    if captured != [] {
      var generated, others := Generated(expand, captured[0]).value, PrintExpansions(expand, captured[1..]).value;
      ExpansionsWeight(expand, captured[1..]);
      DirectivesAppend([captured[0]], generated + others);
      DirectivesAppend(generated, others);
      assert [captured[0]] + (generated + others) == PrintExpansions(expand, captured).value;
      assert [captured[0]][1..] == [];
      PlainIffNoDirectives(generated);
      assert forall i :: 0 < i < |captured| ==> captured[i] == captured[1..][i - 1];
    }
  }

  lemma SectionWeight(expand: Option<Expander>, s: Section)
    requires CanonicalSection(s) && PrintSection(expand, s).Ok?
    ensures Directives(PrintSection(expand, s).value) >= Weight(s, true)
    ensures s.ExpansionSection? && Directives(PrintSection(expand, s).value) == Weight(s, true) ==>
      CleanExpansions(expand, s.lines)
  {
    match s
    case TextSection(_) =>
    case DefinitionSection(_) =>
    case ImportSection(lines) =>
      LineOfImport(lines[0]);
      assert lines[1..] == [];
    case ExpansionSection(lines) =>
      ExpansionsWeight(expand, lines);
      DirectivesAppend(PrintExpansions(expand, lines).value, [EndMarker(lines)]);
      EndMarkerEnds(lines);
      assert [EndMarker(lines)][1..] == [];
  }

  lemma {:induction false} PrintWeight(expand: Option<Expander>, secs: seq<Section>)
    requires Canonical(secs) && Print(expand, secs).Ok?
    ensures Directives(Print(expand, secs).value) >= TotalWeight(secs)
    ensures Directives(Print(expand, secs).value) == TotalWeight(secs) ==> Clean(expand, secs)
  {
    if secs != [] {
      SectionWeight(expand, secs[0]);
      PrintWeight(expand, secs[1..]);
      DirectivesAppend(PrintSection(expand, secs[0]).value, Print(expand, secs[1..]).value);
      assert forall i :: 0 < i < |secs| ==> secs[i] == secs[1..][i - 1];
    }
  }

  /** A printed file reads back as the sections it was printed from exactly when no
    expansion contains a line that looks like a directive. */
  lemma ReadsBackIffClean(expand: Option<Expander>, secs: seq<Section>)
    requires Canonical(secs) && Print(expand, secs).Ok?
    ensures Parse(Print(expand, secs).value) == Ok(secs) <==> Clean(expand, secs)
  {
    if Clean(expand, secs) {
      CleanReadsBack(expand, secs);
    }
    ParseKeepsDirectives(None, Print(expand, secs).value);
    PrintWeight(expand, secs);
  }

  lemma {:induction false} CollapseExpansions(captured: seq<string>)
    requires Captured(captured)
    ensures PrintExpansions(None, captured) == Ok(captured)
  {
    if captured != [] {
      CollapseExpansions(captured[1..]);
      assert [captured[0]] + [] + captured[1..] == captured;
    }
  }

  /** Printing without expansions never fails and is always clean. */
  lemma {:induction false} CollapsePrints(secs: seq<Section>)
    requires Canonical(secs)
    ensures Print(None, secs).Ok? && Clean(None, secs)
  {
    if secs != [] {
      CollapsePrints(secs[1..]);
      if secs[0].ExpansionSection? { CollapseExpansions(secs[0].lines); }
      assert forall i :: 0 < i < |secs| ==> secs[i] == secs[1..][i - 1];
    }
  }

  /** The canonical section lists are exactly those that reading can yield. */
  lemma CanonicalIffParsed(secs: seq<Section>)
    ensures Canonical(secs) <==> exists lines :: Parse(lines) == Ok(secs)
  {
    if Canonical(secs) {
      CollapsePrints(secs);
      CleanReadsBack(None, secs);
      assert Parse(Print(None, secs).value) == Ok(secs);
    }
    forall lines | Parse(lines) == Ok(secs)
      ensures Canonical(secs)
    {
      ParseIsCanonical(None, lines);
    }
  }
}
