/** Processing a file: expanding its macros in place, or collapsing the expansions. */
module PddmProcess {
  import opened Wrappers
  import opened Text
  import opened PddmSections
  import opened PddmRoundTrip
  import opened PddmMacros
  import opened PddmPrinting

  /** Contents of the files that can be imported. */
  type Resolver = string -> Option<string>

  /** Expansion of a macro reference with the macros of a table. */
  type TableExpander = (MacroTable, string) -> Option<string>

  function ExpanderFor(expand: TableExpander, table: MacroTable): Expander {
    macro => expand(table, macro)
  }

  function DefinitionBody(lines: seq<string>): (body: seq<string>)
    requires forall i :: 0 <= i < |lines| ==> |lines[i]| >= 3
    ensures AllUnbroken(lines) ==> AllUnbroken(body)
  {
    seq(|lines|, i requires 0 <= i < |lines| => lines[i][3..])
  }

  /** The name on an IMPORT-DEFINES line. */
  function ImportName(line: string): string {
    var word := FirstWord(line);
    if |word| < |line| then Strip(line[|word| + 1..]) else ""
  }

  /** Reads the definitions of all sections, and of the files they import, into the table.
    `depth` bounds the nesting of imports, as the interpreter's stack does. */
  function Bind(resolve: Resolver, table: MacroTable, secs: seq<Section>, depth: nat): Result<MacroTable>
    requires Canonical(secs)
    decreases depth, 2, |secs|
  {
    if secs == [] then Ok(table)
    else
      match BindSection(resolve, table, secs[0], depth)
      case Err(e) => Err(e)
      case Ok(table') => Bind(resolve, table', secs[1..], depth)
  }

  function BindSection(resolve: Resolver, table: MacroTable, s: Section, depth: nat): Result<MacroTable>
    requires CanonicalSection(s)
    decreases depth, 1
  {
    match s
    case TextSection(_) => Ok(table)
    case ExpansionSection(_) => Ok(table)
    case DefinitionSection(lines) =>
      (match ReadDefinitions(table, DefinitionBody(lines))
       case None => Err(DefinitionFailed)
       case Some(table') => Ok(table'))
    case ImportSection(lines) => BindImport(resolve, table, ImportName(lines[0]), depth)
  }

  /** Reads the definitions of an imported file; its expansions are left alone. */
  function BindImport(resolve: Resolver, table: MacroTable, name: string, depth: nat): Result<MacroTable>
    decreases depth, 0
  {
    match resolve(name)
    case None => Err(ImportFailed)
    case Some(content) =>
      if depth == 0 then Err(ImportFailed)
      else
        match Parse(SplitLines(content))
        case Err(_) => Err(ImportFailed)
        case Ok(imported) =>
          ParseIsCanonical(None, SplitLines(content));
          match Bind(resolve, table, imported, depth - 1)
          case Err(_) => Err(ImportFailed)
          case Ok(table') => Ok(table')
  }

  /** What the sections are expanded with: nothing when collapsing. */
  function Binding(resolve: Resolver, expand: TableExpander, collapse: bool, secs: seq<Section>, depth: nat)
      : Result<Option<Expander>>
    requires Canonical(secs)
  {
    if collapse then Ok(None)
    else
      match Bind(resolve, map[], secs, depth)
      case Err(e) => Err(e)
      case Ok(table) => Ok(Some(ExpanderFor(expand, table)))
  }

  /** The lines of the processed file. */
  function Process(resolve: Resolver, expand: TableExpander, collapse: bool, lines: seq<string>, depth: nat)
      : Result<seq<string>>
  {
    match Parse(lines)
    case Err(e) => Err(e)
    case Ok(secs) =>
      ParseIsCanonical(None, lines);
      match Binding(resolve, expand, collapse, secs, depth)
      case Err(e) => Err(e)
      case Ok(binding) => Print(binding, secs)
  }

  /** The processed content. */
  function ProcessedContent(resolve: Resolver, expand: TableExpander, collapse: bool, content: string, depth: nat)
      : Result<string>
  {
    match Process(resolve, expand, collapse, SplitLines(content), depth)
    case Err(e) => Err(e)
    case Ok(lines) => Ok(Unlines(lines))
  }

  /** No expansion in the file produces a line that looks like a directive. */
  ghost predicate CleanFile(resolve: Resolver, expand: TableExpander, lines: seq<string>, depth: nat) {
    match Parse(lines)
    case Err(_) => true
    case Ok(secs) =>
      ParseIsCanonical(None, lines);
      match Binding(resolve, expand, false, secs, depth)
      case Err(_) => true
      case Ok(binding) => Clean(binding, secs)
  }

  // ------------------------------------------------------------ printed lines are lines

  lemma {:induction false} NumeralIsUnbroken(n: nat)
    ensures Unbroken(NatToString(n))
  {
    if n >= 10 {
      NumeralIsUnbroken(n / 10);
    }
  }

  lemma GeneratedLineUnbroken()
    ensures Unbroken(GENERATED)
  {
    assert Unbroken("// This block of ") && Unbroken("code is generated, ");
    assert Unbroken("do not edit it ") && Unbroken("directly.");
  }

  lemma GeneratedUnbroken(expand: Option<Expander>, line: string)
    requires |line| >= |EXPAND| && Generated(expand, line).Ok?
    ensures AllUnbroken(Generated(expand, line).value)
  {
    if expand.Some? {
      var text := expand.value(MacroOf(line)).value;
      SplitLinesUnbroken(text + "\n");
      var pieces := SplitBreaks(text);
      assert forall i :: 0 <= i < |pieces| ==> Unbroken(StripRight(pieces[i])) by {
        assert forall i :: 0 <= i < |pieces| ==> Unbroken(pieces[i]);
      }
      var lines := StrippedLines(text);
      GeneratedLineUnbroken();
      assert AllUnbroken(lines);
      assert forall i :: 0 <= i < |lines| ==> ([GENERATED, ""] + lines)[i + 2] == lines[i];
    }
  }

  lemma {:induction false} ExpansionsUnbroken(expand: Option<Expander>, captured: seq<string>)
    requires Captured(captured) && AllUnbroken(captured) && PrintExpansions(expand, captured).Ok?
    ensures AllUnbroken(PrintExpansions(expand, captured).value)
  {
    if captured != [] {
      ExpansionsUnbroken(expand, captured[1..]);
      GeneratedUnbroken(expand, captured[0]);
    }
  }

  lemma EndMarkerUnbroken(captured: seq<string>)
    requires Captured(captured) && AllUnbroken(captured)
    ensures Unbroken(EndMarker(captured))
  {
    NumeralIsUnbroken(|captured|);
  }

  predicate SectionsUnbroken(secs: seq<Section>) {
    forall i :: 0 <= i < |secs| ==> AllUnbroken(secs[i].lines)
  }

  lemma {:induction false} PrintUnbroken(expand: Option<Expander>, secs: seq<Section>)
    requires AllWellFormed(secs) && Print(expand, secs).Ok?
    requires SectionsUnbroken(secs)
    ensures AllUnbroken(Print(expand, secs).value)
  {
    if secs != [] {
      PrintUnbroken(expand, secs[1..]);
      if secs[0].ExpansionSection? {
        ExpansionsUnbroken(expand, secs[0].lines);
        EndMarkerUnbroken(secs[0].lines);
      }
    }
  }

  lemma PrependUnbroken(s: Section, r: Result<seq<Section>>)
    requires AllUnbroken(s.lines) && (r.Ok? ==> SectionsUnbroken(r.value))
    ensures Prepend(s, r).Ok? ==> SectionsUnbroken(Prepend(s, r).value)
  {
  }

  lemma AppendUnbroken(s: Section, line: string)
    requires AllUnbroken(s.lines) && Unbroken(line)
    ensures var v := TakeLine(s, line); v.Added? ==> AllUnbroken(v.section.lines)
  {
  }

  lemma {:induction false} ParseUnbroken(cur: Option<Section>, lines: seq<string>)
    requires AllUnbroken(lines) && (cur.Some? ==> AllUnbroken(cur.value.lines))
    ensures var r := ParseFrom(cur, lines);
      r.Ok? ==> SectionsUnbroken(r.value)
    decreases |lines|, 0
  {
    if lines != [] {
      var line, rest := lines[0], lines[1..];
      var v := if cur.Some? then TakeLine(cur.value, line) else Begin(line);
      if v.Added? {
        AppendUnbroken(if cur.Some? then cur.value else SectionFor(line).value, line);
        ContinueUnbroken(v.section, v.more, rest);
      } else if v.Refused? && Begin(line).Added? {
        AppendUnbroken(SectionFor(line).value, line);
        ContinueUnbroken(Begin(line).section, Begin(line).more, rest);
        PrependUnbroken(cur.value, Continue(Begin(line).section, Begin(line).more, rest));
      }
    }
  }

  lemma {:induction false} ContinueUnbroken(s: Section, more: bool, lines: seq<string>)
    requires AllUnbroken(lines) && AllUnbroken(s.lines)
    ensures var r := Continue(s, more, lines);
      r.Ok? ==> SectionsUnbroken(r.value)
    decreases |lines|, 1
  {
    ParseUnbroken(if more then Some(s) else None, lines);
    if !more { PrependUnbroken(s, ParseFrom(None, lines)); }
  }

  /** Reading the processed content gives back the printed lines. */
  lemma ProcessedLines(resolve: Resolver, expand: TableExpander, collapse: bool, content: string, depth: nat)
    requires ProcessedContent(resolve, expand, collapse, content, depth).Ok?
    ensures SplitLines(ProcessedContent(resolve, expand, collapse, content, depth).value)
      == Process(resolve, expand, collapse, SplitLines(content), depth).value
  {
    var lines := SplitLines(content);
    SplitLinesUnbroken(content);
    ParseIsCanonical(None, lines);
    ParseUnbroken(None, lines);
    var secs := Parse(lines).value;
    PrintUnbroken(Binding(resolve, expand, collapse, secs, depth).value, secs);
    SplitUnlines(Process(resolve, expand, collapse, lines, depth).value);
  }

  // ---------------------------------------------------------------------- the laws

  /** A processed file reads back as the sections of the original. */
  lemma ProcessedReadsBack(resolve: Resolver, expand: TableExpander, collapse: bool, lines: seq<string>, depth: nat)
    requires Process(resolve, expand, collapse, lines, depth).Ok?
    requires collapse || CleanFile(resolve, expand, lines, depth)
    ensures Parse(Process(resolve, expand, collapse, lines, depth).value) == Parse(lines)
  {
    ParseIsCanonical(None, lines);
    var secs := Parse(lines).value;
    if collapse {
      CollapsePrints(secs);
    }
    CleanReadsBack(Binding(resolve, expand, collapse, secs, depth).value, secs);
  }

  /** Processing again changes nothing. */
  lemma ProcessIsIdempotent(resolve: Resolver, expand: TableExpander, content: string, depth: nat)
    requires CleanFile(resolve, expand, SplitLines(content), depth)
    ensures var r := ProcessedContent(resolve, expand, false, content, depth);
      r.Ok? ==> ProcessedContent(resolve, expand, false, r.value, depth) == r
  {
    if ProcessedContent(resolve, expand, false, content, depth).Ok? {
      ProcessedLines(resolve, expand, false, content, depth);
      ProcessedReadsBack(resolve, expand, false, SplitLines(content), depth);
    }
  }

  /** Collapsing a processed file gives what collapsing the original gives. */
  lemma CollapseAbsorbsProcess(resolve: Resolver, expand: TableExpander, content: string, depth: nat)
    requires CleanFile(resolve, expand, SplitLines(content), depth)
    ensures var r := ProcessedContent(resolve, expand, false, content, depth);
      r.Ok? ==> ProcessedContent(resolve, expand, true, r.value, depth)
                == ProcessedContent(resolve, expand, true, content, depth)
  {
    if ProcessedContent(resolve, expand, false, content, depth).Ok? {
      ProcessedLines(resolve, expand, false, content, depth);
      ProcessedReadsBack(resolve, expand, false, SplitLines(content), depth);
    }
  }

  /** Processing, or collapsing, a collapsed file gives what it gives on the original, errors
    included, whatever the macros expand to. */
  lemma ProcessAbsorbsCollapse(resolve: Resolver, expand: TableExpander, collapse: bool, content: string, depth: nat)
    ensures var r := ProcessedContent(resolve, expand, true, content, depth);
      r.Ok? ==> ProcessedContent(resolve, expand, collapse, r.value, depth)
                == ProcessedContent(resolve, expand, collapse, content, depth)
  {
    if ProcessedContent(resolve, expand, true, content, depth).Ok? {
      ProcessedLines(resolve, expand, true, content, depth);
      ProcessedReadsBack(resolve, expand, true, SplitLines(content), depth);
    }
  }

  // --------------------------------------------------------------- what a result looks like

  /** The lines that the sections of a file come to: printed piece by piece, with the macros
    that all the sections define unless they are collapsed. */
  ghost predicate AreResultOf(resolve: Resolver, expand: TableExpander, collapse: bool, secs: seq<Section>, depth: nat,
                              lines: seq<string>)
    requires Canonical(secs)
  {
    if collapse then IsPrinted(None, secs, lines)
    else exists table, f: Expander ::
      && Bind(resolve, map[], secs, depth) == Ok(table) && (forall ref :: f(ref) == expand(table, ref))
      && IsPrinted(Some(f), secs, lines)
  }

  lemma PrintedAreResult(resolve: Resolver, expand: TableExpander, collapse: bool, secs: seq<Section>, depth: nat)
    requires Canonical(secs) && Binding(resolve, expand, collapse, secs, depth).Ok?
    ensures var r := Print(Binding(resolve, expand, collapse, secs, depth).value, secs);
      r.Ok? ==> AreResultOf(resolve, expand, collapse, secs, depth, r.value)
  {
    var binding := Binding(resolve, expand, collapse, secs, depth).value;
    if Print(binding, secs).Ok? {
      PrintIsPrinted(binding, secs);
      if !collapse {
        var table := Bind(resolve, map[], secs, depth).value;
        assert binding == Some(ExpanderFor(expand, table));
        assert forall ref :: ExpanderFor(expand, table)(ref) == expand(table, ref);
      }
    }
  }

  /** The result for a content is that of its sections. */
  ghost predicate IsResultOf(resolve: Resolver, expand: TableExpander, collapse: bool, content: string, depth: nat,
                             result: string)
  {
    exists secs, lines :: Parse(SplitLines(content)) == Ok(secs) && Canonical(secs) && result == Unlines(lines)
      && AreResultOf(resolve, expand, collapse, secs, depth, lines)
  }

  lemma ProcessedIsResult(resolve: Resolver, expand: TableExpander, collapse: bool, content: string, depth: nat)
    ensures var r := ProcessedContent(resolve, expand, collapse, content, depth);
      r.Ok? ==> IsResultOf(resolve, expand, collapse, content, depth, r.value)
  {
    if ProcessedContent(resolve, expand, collapse, content, depth).Ok? {
      ParseIsCanonical(None, SplitLines(content));
      PrintedAreResult(resolve, expand, collapse, Parse(SplitLines(content)).value, depth);
    }
  }
}
