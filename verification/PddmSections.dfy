/** The section structure of a file with PDDM directives: reading a file into sections
  and writing sections out again. */
module PddmSections {
  import opened Wrappers
  import opened Text

  const PDDM := "//%PDDM"
  const EXPAND := "//%PDDM-EXPAND"
  const EXPAND_END := "//%PDDM-EXPAND-END"
  const DEFINE := "//%PDDM-DEFINE"
  const DEFINE_END := "//%PDDM-DEFINE-END"
  const IMPORT_DEFINES := "//%PDDM-IMPORT-DEFINES"
  // In short parts: the verifier does not look through a literal as long as the whole.
  const GENERATED := "// This block of " + "code is generated, " + "do not edit it " + "directly."

  datatype Error =
    | UnexpectedLine(line: string)
    | DirectiveInSection(directive: string)
    | EndOfFileInExpansion
    | AssertionFailed
    | DefinitionFailed
    | ImportFailed
    | ExpansionFailed(macro: string)

  datatype Result<+T> = Ok(value: T) | Err(error: Error)

  /** An expansion keeps its EXPAND lines only; what is between them is dropped. */
  datatype Section =
    | TextSection(lines: seq<string>)
    | ExpansionSection(lines: seq<string>)
    | DefinitionSection(lines: seq<string>)
    | ImportSection(lines: seq<string>)

  predicate IsDirective(line: string) {
    StartsWith(line, PDDM)
  }

  predicate IsExpandLine(line: string): (b: bool)
    ensures b ==> |line| >= |EXPAND|
  {
    IsDirective(line) && FirstWord(line) == EXPAND
  }

  predicate IsEndLine(line: string) {
    IsDirective(line) && FirstWord(line) == EXPAND_END
  }

  // ----------------------------------------------------------------- reading

  /** Whether a section took a line and, if so, whether it can take more. */
  datatype Verdict = Refused | Added(section: Section, more: bool) | Failed(error: Error)

  function TakeLine(s: Section, line: string): Verdict {
    match s
    case TextSection(lines) =>
      if IsDirective(line) then Refused else Added(TextSection(lines + [line]), true)
    case ExpansionSection(lines) =>
      if IsDirective(line) then
        var directive := FirstWord(line);
        if directive == EXPAND then Added(ExpansionSection(lines + [line]), true)
        else if directive == EXPAND_END then
          if lines == [] then Failed(AssertionFailed) else Added(s, false)
        else Failed(DirectiveInSection(directive))
      else Added(s, true)
    case DefinitionSection(lines) =>
      if !StartsWith(line, "//%") then Refused
      else if IsExpandLine(line) then Refused
      else if IsDirective(line) && FirstWord(line) !in {DEFINE, DEFINE_END} then
        Failed(DirectiveInSection(FirstWord(line)))
      else Added(DefinitionSection(lines + [line]), true)
    case ImportSection(lines) =>
      if !StartsWith(line, IMPORT_DEFINES + " ") then Refused
      else if lines != [] then Failed(AssertionFailed)
      else Added(ImportSection([line]), false)
  }

  function SectionFor(line: string): Result<Section> {
    if !IsDirective(line) then Ok(TextSection([]))
    else
      var directive := FirstWord(line);
      if directive == EXPAND then Ok(ExpansionSection([]))
      else if directive == DEFINE then Ok(DefinitionSection([]))
      else if directive == IMPORT_DEFINES then Ok(ImportSection([]))
      else Err(UnexpectedLine(line))
  }

  /** Starts a section with a line, which the section must take. */
  function Begin(line: string): Verdict {
    match SectionFor(line)
    case Err(e) => Failed(e)
    case Ok(s) =>
      match TakeLine(s, line)
      case Refused => Failed(AssertionFailed)
      case v => v
  }

  function Prepend(s: Section, r: Result<seq<Section>>): Result<seq<Section>> {
    match r
    case Ok(rest) => Ok([s] + rest)
    case Err(_) => r
  }

  /** The sections of the lines that follow while `cur` is still open. */
  function ParseFrom(cur: Option<Section>, lines: seq<string>): Result<seq<Section>>
    decreases |lines|, 0
  {
    if lines == [] then
      match cur
      case None => Ok([])
      case Some(s) => if s.ExpansionSection? then Err(EndOfFileInExpansion) else Ok([s])
    else
      var v := if cur.Some? then TakeLine(cur.value, lines[0]) else Begin(lines[0]);
      match v
      case Failed(e) => Err(e)
      case Added(s, more) => Continue(s, more, lines[1..])
      case Refused =>
        match Begin(lines[0])
        case Added(s, more) => Prepend(cur.value, Continue(s, more, lines[1..]))
        case Failed(e) => Err(e)
  }

  function Continue(s: Section, more: bool, lines: seq<string>): Result<seq<Section>>
    decreases |lines|, 1
  {
    if more then ParseFrom(Some(s), lines) else Prepend(s, ParseFrom(None, lines))
  }

  function Parse(lines: seq<string>): Result<seq<Section>> {
    ParseFrom(None, lines)
  }

  // ----------------------------------------------------------------- writing

  /** What a macro reference expands to, as text; None if it cannot be expanded. */
  type Expander = string -> Option<string>

  /** The reference of an EXPAND line. */
  function MacroOf(line: string): string
    requires |line| >= |EXPAND|
  {
    Strip(line[|EXPAND|..])
  }

  /** The lines of an expansion, without trailing blanks. */
  function StrippedLines(text: string): seq<string> {
    var pieces := SplitBreaks(text);
    seq(|pieces|, i requires 0 <= i < |pieces| => StripRight(pieces[i]))
  }

  /** The lines put between one EXPAND line and the next directive; none when collapsing. */
  function Generated(expand: Option<Expander>, line: string): Result<seq<string>>
    requires |line| >= |EXPAND|
  {
    match expand
    case None => Ok([])
    case Some(f) =>
      match f(MacroOf(line))
      case None => Err(ExpansionFailed(MacroOf(line)))
      case Some(text) => Ok([GENERATED, ""] + StrippedLines(text))
  }

  function NatToString(n: nat): string {
    if n < 10 then ["0123456789"[n]] else NatToString(n / 10) + ["0123456789"[n % 10]]
  }

  function EndNote(captured: seq<string>): string
    requires |captured| == 1 ==> |captured[0]| >= |EXPAND|
  {
    if |captured| == 1 then MacroOf(captured[0]) else "(" + NatToString(|captured|) + " expansions)"
  }

  function EndMarker(captured: seq<string>): string
    requires |captured| == 1 ==> |captured[0]| >= |EXPAND|
  {
    EXPAND_END + " " + EndNote(captured)
  }

  /** Captured lines are EXPAND lines, hence at least that long. */
  predicate Captured(lines: seq<string>) {
    forall i :: 0 <= i < |lines| ==> IsExpandLine(lines[i])
  }

  function PrintExpansions(expand: Option<Expander>, captured: seq<string>): Result<seq<string>>
    requires Captured(captured)
  {
    if captured == [] then Ok([])
    else
      match Generated(expand, captured[0])
      case Err(e) => Err(e)
      case Ok(lines) =>
        match PrintExpansions(expand, captured[1..])
        case Err(e) => Err(e)
        case Ok(rest) => Ok([captured[0]] + lines + rest)
  }

  predicate WellFormed(s: Section) {
    && s.lines != []
    && (s.ExpansionSection? ==> Captured(s.lines))
  }

  function PrintSection(expand: Option<Expander>, s: Section): Result<seq<string>>
    requires WellFormed(s)
  {
    if s.ExpansionSection? then
      match PrintExpansions(expand, s.lines)
      case Err(e) => Err(e)
      case Ok(lines) => Ok(lines + [EndMarker(s.lines)])
    else Ok(s.lines)
  }

  predicate AllWellFormed(secs: seq<Section>) {
    forall i :: 0 <= i < |secs| ==> WellFormed(secs[i])
  }

  function Print(expand: Option<Expander>, secs: seq<Section>): Result<seq<string>>
    requires AllWellFormed(secs)
  {
    if secs == [] then Ok([])
    else
      match PrintSection(expand, secs[0])
      case Err(e) => Err(e)
      case Ok(lines) =>
        match Print(expand, secs[1..])
        case Err(e) => Err(e)
        case Ok(rest) => Ok(lines + rest)
  }
}
