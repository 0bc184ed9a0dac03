/** A source file object: it reads its content into section objects and writes them out. */
module PddmSourceFile {
  import opened Wrappers
  import opened Text
  import opened PddmSections
  import opened PddmRoundTrip
  import opened PddmMacros
  import opened PddmProcess

  /** What trying to append a line reports. */
  datatype Outcome = Outcome(wasAdded: bool, acceptMore: bool) | Raised(error: Error)

  function OutcomeOf(v: Verdict): Outcome {
    match v
    case Refused => Outcome(false, false)
    case Added(_, more) => Outcome(true, more)
    case Failed(e) => Raised(e)
  }

  class SectionObject {
    var section: Section

    constructor (section: Section)
      ensures this.section == section
    {
      this.section := section;
    }

    method TryAppend(line: string) returns (outcome: Outcome)
      modifies this
      ensures outcome == OutcomeOf(TakeLine(old(section), line))
      ensures section == if TakeLine(old(section), line).Added?
        then TakeLine(old(section), line).section else old(section)
    {
      match section
      case TextSection(lines) =>
        if IsDirective(line) { return Outcome(false, false); }
        section := TextSection(lines + [line]);
        return Outcome(true, true);
      case ExpansionSection(lines) =>
        if IsDirective(line) {
          var directive := FirstWord(line);
          if directive == EXPAND {
            section := ExpansionSection(lines + [line]);
            return Outcome(true, true);
          }
          if directive == EXPAND_END {
            return if lines == [] then Raised(AssertionFailed) else Outcome(true, false);
          }
          return Raised(DirectiveInSection(directive));
        }
        return Outcome(true, true);
      case DefinitionSection(lines) =>
        if !StartsWith(line, "//%") { return Outcome(false, false); }
        if IsDirective(line) {
          var directive := FirstWord(line);
          if directive == EXPAND { return Outcome(false, false); }
          if directive !in {DEFINE, DEFINE_END} { return Raised(DirectiveInSection(directive)); }
        }
        section := DefinitionSection(lines + [line]);
        return Outcome(true, true);
      case ImportSection(lines) =>
        if !StartsWith(line, IMPORT_DEFINES + " ") { return Outcome(false, false); }
        if lines != [] { return Raised(AssertionFailed); }
        section := ImportSection([line]);
        return Outcome(true, false);
    }
  }

  // ------------------------------------------------------------ one line, as a step

  datatype Progress = Progress(done: seq<Section>, cur: Option<Section>)

  function CloseOrKeep(done: seq<Section>, s: Section, more: bool): Progress {
    if more then Progress(done, Some(s)) else Progress(done + [s], None)
  }

  function Step(p: Progress, line: string): Result<Progress> {
    var v := if p.cur.Some? then TakeLine(p.cur.value, line) else Begin(line);
    match v
    case Failed(e) => Err(e)
    case Added(s, more) => Ok(CloseOrKeep(p.done, s, more))
    case Refused =>
      match Begin(line)
      case Failed(e) => Err(e)
      case Added(s, more) => Ok(CloseOrKeep(p.done + [p.cur.value], s, more))
  }

  /** The result for the whole file, given the sections that are complete. */
  function WithDone(done: seq<Section>, r: Result<seq<Section>>): Result<seq<Section>> {
    match r
    case Ok(secs) => Ok(done + secs)
    case Err(_) => r
  }

  lemma WithDonePrepend(done: seq<Section>, s: Section, r: Result<seq<Section>>)
    ensures WithDone(done, Prepend(s, r)) == WithDone(done + [s], r)
  {
    if r.Ok? {
      assert done + ([s] + r.value) == done + [s] + r.value;
    }
  }

  lemma WithNothingDone(r: Result<seq<Section>>)
    ensures WithDone([], r) == r
  {
    if r.Ok? { assert [] + r.value == r.value; }
  }

  lemma StepIsParse(p: Progress, lines: seq<string>)
    requires lines != []
    ensures WithDone(p.done, ParseFrom(p.cur, lines)) ==
      match Step(p, lines[0])
      case Err(e) => Err(e)
      case Ok(next) => WithDone(next.done, ParseFrom(next.cur, lines[1..]))
  {
    var line, rest := lines[0], lines[1..];
    var v := if p.cur.Some? then TakeLine(p.cur.value, line) else Begin(line);
    if v.Added? {
      WithDonePrepend(p.done, v.section, ParseFrom(None, rest));
    } else if v.Refused? && Begin(line).Added? {
      var b := Begin(line);
      WithDonePrepend(p.done, p.cur.value, Continue(b.section, b.more, rest));
      WithDonePrepend(p.done + [p.cur.value], b.section, ParseFrom(None, rest));
    }
  }

  /** A block joined into one entry of a list comes out like its separate lines. */
  lemma UnlinesOfBlock(lines: seq<string>)
    requires lines != []
    ensures Unlines([GENERATED, "", JoinBreaks(lines)]) == Unlines([GENERATED, ""] + lines)
  {
    JoinIsUnlines(lines);
    assert [GENERATED, "", JoinBreaks(lines)] == [GENERATED, ""] + [JoinBreaks(lines)];
    UnlinesAppend([GENERATED, ""], [JoinBreaks(lines)]);
    UnlinesAppend([GENERATED, ""], lines);
    assert [JoinBreaks(lines)][1..] == [];
    assert Unlines([JoinBreaks(lines)]) == JoinBreaks(lines) + "\n" + "";
  }

  lemma UnlinesSame(a: seq<string>, b: seq<string>, x: seq<string>, y: seq<string>)
    requires Unlines(a) == Unlines(b) && Unlines(x) == Unlines(y)
    ensures Unlines(a + x) == Unlines(b + y)
  {
    UnlinesAppend(a, x);
    UnlinesAppend(b, y);
  }

  /** The result for all lines, given those that are printed already. */
  function WithLines(done: seq<string>, r: Result<seq<string>>): Result<seq<string>> {
    match r
    case Ok(lines) => Ok(done + lines)
    case Err(_) => r
  }

  lemma WithNoLines(r: Result<seq<string>>)
    ensures WithLines([], r) == r
  {
    if r.Ok? { assert [] + r.value == r.value; }
  }

  lemma PrintStep(expand: Option<Expander>, printed: seq<string>, captured: seq<string>)
    requires Captured(captured) && captured != []
    ensures WithLines(printed, PrintExpansions(expand, captured)) ==
      match Generated(expand, captured[0])
      case Err(e) => Err(e)
      case Ok(lines) => WithLines(printed + [captured[0]] + lines, PrintExpansions(expand, captured[1..]))
  {
    if Generated(expand, captured[0]).Ok? && PrintExpansions(expand, captured[1..]).Ok? {
      var lines, rest := Generated(expand, captured[0]).value, PrintExpansions(expand, captured[1..]).value;
      ConcatAssociates([captured[0]], lines, rest);
      ConcatAssociates(printed, [captured[0]], lines + rest);
      ConcatAssociates(printed + [captured[0]], lines, rest);
    }
  }

  lemma PrintAllStep(expand: Option<Expander>, printed: seq<string>, secs: seq<Section>)
    requires AllWellFormed(secs) && secs != []
    ensures WithLines(printed, Print(expand, secs)) ==
      match PrintSection(expand, secs[0])
      case Err(e) => Err(e)
      case Ok(lines) => WithLines(printed + lines, Print(expand, secs[1..]))
  {
    if PrintSection(expand, secs[0]).Ok? && Print(expand, secs[1..]).Ok? {
      var lines, rest := PrintSection(expand, secs[0]).value, Print(expand, secs[1..]).value;
      ConcatAssociates(printed, lines, rest);
    }
  }

  /** The sections of a content are canonical and hold whole lines. */
  lemma SectionsAreRead(content: string)
    ensures var r := Parse(SplitLines(content));
      r.Ok? ==> Canonical(r.value) && SectionsUnbroken(r.value) && AllWellFormed(r.value)
  {
    SplitLinesUnbroken(content);
    ParseIsCanonical(None, SplitLines(content));
    ParseUnbroken(None, SplitLines(content));
  }

  class SourceFile {
    const originalContent: string
    var sections: seq<SectionObject>
    var processedContent: Option<string>

    constructor (content: string)
      ensures originalContent == content && sections == [] && processedContent == None
    {
      originalContent, sections, processedContent := content, [], None;
    }

    ghost function View(): (secs: seq<Section>)
      reads this, sections
      ensures |secs| == |sections|
      ensures forall k :: 0 <= k < |secs| ==> secs[k] == sections[k].section
    {
      seq(|sections|, k requires 0 <= k < |sections| reads this, sections => sections[k].section)
    }

    /** The section objects stand for the sections read so far, the open one last. */
    ghost predicate Holds(p: Progress, cur: SectionObject?)
      reads this, sections
    {
      && (p.cur.Some? <==> cur != null)
      && (cur != null ==> sections != [] && sections[|sections| - 1] == cur && cur !in sections[..|sections| - 1])
      && View() == p.done + (if p.cur.Some? then [p.cur.value] else [])
    }

    /** Opens a section for a line; the error if no section can start with it. */
    method MakeSection(line: string) returns (section: SectionObject?, error: Option<Error>)
      modifies this`sections
      ensures match SectionFor(line)
        case Ok(s) =>
          && section != null && fresh(section) && section.section == s && error == None
          && sections == old(sections) + [section]
        case Err(e) => section == null && error == Some(e) && sections == old(sections)
    {
      section, error := null, None;
      if !IsDirective(line) {
        section := new SectionObject(TextSection([]));
      } else {
        var directive := FirstWord(line);
        if directive == EXPAND {
          section := new SectionObject(ExpansionSection([]));
        } else if directive == DEFINE {
          section := new SectionObject(DefinitionSection([]));
        } else if directive == IMPORT_DEFINES {
          section := new SectionObject(ImportSection([]));
        } else {
          error := Some(UnexpectedLine(line));
          return;
        }
      }
      sections := sections + [section];
    }

    /** Opens a section for a line, which the section must take. */
    method BeginSection(line: string, ghost done: seq<Section>) returns (cur: SectionObject?, error: Option<Error>)
      requires View() == done
      modifies this`sections
      ensures match Begin(line)
        case Failed(e) => error == Some(e)
        case Added(s, more) =>
          && error == None && (cur != null <==> more)
          && |sections| == |old(sections)| + 1 && sections[..|old(sections)|] == old(sections)
          && Holds(CloseOrKeep(done, s, more), cur)
      ensures forall s :: s in sections ==> s in old(sections) || fresh(s)
      ensures cur != null ==> fresh(cur)
    {
      cur, error := MakeSection(line);
      if cur == null { return; }
      ghost var made := cur;
      var outcome := cur.TryAppend(line);
      if outcome.Raised? { error := Some(outcome.error); return; }
      if !outcome.wasAdded { error := Some(AssertionFailed); return; }
      if !outcome.acceptMore { cur := null; }
    }

    /** One round of the reading loop. */
    method ReadLine(cur: SectionObject?, line: string, ghost p: Progress)
        returns (next: SectionObject?, error: Option<Error>)
      requires Holds(p, cur)
      modifies this`sections, cur
      ensures match Step(p, line)
        case Err(e) => error == Some(e)
        case Ok(p') => error == None && Holds(p', next)
      ensures forall s :: s in sections ==> s in old(sections) || fresh(s)
      ensures next != null ==> next == cur || fresh(next)
    {
      next, error := cur, None;
      if cur == null {
        next, error := BeginSection(line, p.done);
        return;
      }
      ghost var before := sections;
      var outcome := cur.TryAppend(line);
      assert View()[..|before| - 1] == p.done;
      if outcome.Raised? { error := Some(outcome.error); return; }
      if !outcome.wasAdded {
        assert View() == p.done + [p.cur.value];
        next, error := BeginSection(line, p.done + [p.cur.value]);
        return;
      }
      if !outcome.acceptMore { next := null; }
    }

    /** Takes the lines one by one; `cur` is the section left open at the end. */
    method ReadLines(lines: seq<string>) returns (cur: SectionObject?, error: Option<Error>, ghost p: Progress)
      modifies this`sections
      ensures error.Some? ==> Parse(lines) == Err(error.value)
      ensures error.None? ==> Holds(p, cur) && WithDone(p.done, ParseFrom(p.cur, [])) == Parse(lines)
      ensures forall s :: s in sections ==> fresh(s)
    {
      sections := [];
      cur, error, p := null, None, Progress([], None);
      WithNothingDone(Parse(lines));
      assert lines[0..] == lines;
      for i := 0 to |lines|
        invariant Holds(p, cur)
        invariant forall s :: s in sections ==> fresh(s)
        invariant cur != null ==> fresh(cur)
        invariant WithDone(p.done, ParseFrom(p.cur, lines[i..])) == Parse(lines)
      {
        StepIsParse(p, lines[i..]);
        assert lines[i..][1..] == lines[i + 1..];
        cur, error := ReadLine(cur, lines[i], p);
        if error.Some? { return; }
        p := Step(p, lines[i]).value;
      }
      error := None;
    }

    /** Reads the content into sections; the error if it cannot be read. */
    method ParseFile() returns (error: Option<Error>)
      modifies this`sections
      ensures match Parse(SplitLines(originalContent))
        case Err(e) => error == Some(e)
        case Ok(secs) => error == None && View() == secs
      ensures forall s :: s in sections ==> fresh(s)
    {
      var cur: SectionObject?;
      ghost var p;
      cur, error, p := ReadLines(SplitLines(originalContent));
      if error.Some? { return; }
      if cur != null && cur.section.ExpansionSection? {
        return Some(EndOfFileInExpansion);
      }
      return None;
    }

    static method BindImported(collection: MacroCollection, name: string, resolve: Resolver, depth: nat)
        returns (error: Option<Error>)
      requires collection.Valid()
      modifies collection
      ensures collection.Valid()
      ensures match BindImport(resolve, old(collection.Table()), name, depth)
        case Err(e) => error == Some(e)
        case Ok(table) => error == None && collection.Table() == table
      decreases depth, 0
    {
      var content := resolve(name);
      if content.None? || depth == 0 { return Some(ImportFailed); }
      var imported := new SourceFile(content.value);
      error := imported.ParseFile();
      if error.Some? { return Some(ImportFailed); }
      SectionsAreRead(content.value);
      error := imported.BindSections(collection, resolve, depth - 1);
      if error.Some? { error := Some(ImportFailed); }
    }

    static method BindOne(collection: MacroCollection, s: Section, resolve: Resolver, depth: nat)
        returns (error: Option<Error>)
      requires collection.Valid() && CanonicalSection(s) && AllUnbroken(s.lines)
      modifies collection
      ensures collection.Valid()
      ensures match BindSection(resolve, old(collection.Table()), s, depth)
        case Err(e) => error == Some(e)
        case Ok(table) => error == None && collection.Table() == table
      decreases depth, 1
    {
      match s
      case TextSection(_) => return None;
      case ExpansionSection(_) => return None;
      case DefinitionSection(lines) =>
        var ok := collection.ParseLines(DefinitionBody(lines));
        return if ok then None else Some(DefinitionFailed);
      case ImportSection(lines) =>
        error := BindImported(collection, ImportName(lines[0]), resolve, depth);
    }

    /** Reads the macro definitions of all sections, and of the files they import, into
      the collection. */
    method BindSections(collection: MacroCollection, resolve: Resolver, depth: nat) returns (error: Option<Error>)
      requires collection.Valid() && Canonical(View()) && SectionsUnbroken(View())
      modifies collection
      ensures collection.Valid()
      ensures match Bind(resolve, old(collection.Table()), View(), depth)
        case Err(e) => error == Some(e)
        case Ok(table) => error == None && collection.Table() == table
      decreases depth, 2
    {
      ghost var table0 := collection.Table();
      assert View()[0..] == View();
      for i := 0 to |sections|
        invariant collection.Valid() && View() == old(View())
        invariant Bind(resolve, table0, View(), depth) == Bind(resolve, collection.Table(), View()[i..], depth)
      {
        assert View()[i..][1..] == View()[i + 1..];
        error := BindOne(collection, sections[i].section, resolve, depth);
        if error.Some? { return; }
      }
      return None;
    }

    /** What the expansions are printed with: without a collection they become blank. */
    method BindAll(resolve: Resolver, expand: TableExpander, stripExpansion: bool, depth: nat)
        returns (binding: Result<Option<Expander>>)
      requires Canonical(View()) && SectionsUnbroken(View())
      ensures binding == Binding(resolve, expand, stripExpansion, View(), depth)
    {
      if stripExpansion { return Ok(None); }
      var collection := new MacroCollection();
      var error := BindSections(collection, resolve, depth);
      if error.Some? { return Err(error.value); }
      return Ok(Some(ExpanderFor(expand, collection.Table())));
    }

    /** The text of a section: its lines joined by line breaks, and one at the end. */
    static method SectionText(s: Section, expand: Option<Expander>) returns (text: Result<string>)
      requires WellFormed(s)
      ensures match PrintSection(expand, s)
        case Err(e) => text == Err(e)
        case Ok(lines) => text == Ok(Unlines(lines))
    {
      if !s.ExpansionSection? {
        JoinIsUnlines(s.lines);
        return Ok(JoinBreaks(s.lines) + "\n");
      }
      var result: seq<string> := [];
      ghost var printed: seq<string> := [];
      assert s.lines[0..] == s.lines;
      WithNoLines(PrintExpansions(expand, s.lines));
      for i := 0 to |s.lines|
        invariant Unlines(result) == Unlines(printed)
        invariant WithLines(printed, PrintExpansions(expand, s.lines[i..])) == PrintExpansions(expand, s.lines)
      {
        var line := s.lines[i];
        PrintStep(expand, printed, s.lines[i..]);
        assert s.lines[i..][1..] == s.lines[i + 1..];
        UnlinesSame(result, printed, [line], [line]);
        result := result + [line];
        printed := printed + [line];
        assert printed + [] == printed;
        if expand.Some? {
          var expansion := expand.value(MacroOf(line));
          if expansion.None? { return Err(ExpansionFailed(MacroOf(line))); }
          var lines := StrippedLines(expansion.value);
          UnlinesOfBlock(lines);
          UnlinesSame(result, printed, [GENERATED, "", JoinBreaks(lines)], [GENERATED, ""] + lines);
          result := result + [GENERATED, "", JoinBreaks(lines)];
          printed := printed + ([GENERATED, ""] + lines);
        }
      }
      UnlinesSame(result, printed, [EndMarker(s.lines)], [EndMarker(s.lines)]);
      assert PrintExpansions(expand, []) == Ok([]) && printed + [] == printed;
      result := result + [EndMarker(s.lines)];
      JoinIsUnlines(result);
      return Ok(JoinBreaks(result) + "\n");
    }

    /** The texts of all sections, one after the other. */
    method PrintAll(expand: Option<Expander>) returns (text: Result<string>)
      requires AllWellFormed(View())
      ensures match Print(expand, View())
        case Err(e) => text == Err(e)
        case Ok(lines) => text == Ok(Unlines(lines))
    {
      ghost var secs := View();
      var result := "";
      ghost var printed: seq<string> := [];
      assert secs[0..] == secs;
      WithNoLines(Print(expand, secs));
      for i := 0 to |sections|
        invariant View() == secs && result == Unlines(printed)
        invariant WithLines(printed, Print(expand, secs[i..])) == Print(expand, secs)
      {
        PrintAllStep(expand, printed, secs[i..]);
        assert secs[i..][1..] == secs[i + 1..];
        text := SectionText(sections[i].section, expand);
        if text.Err? { return; }
        ghost var lines := PrintSection(expand, secs[i]).value;
        UnlinesAppend(printed, lines);
        printed := printed + lines;
        result := result + text.value;
      }
      assert printed + [] == printed;
      return Ok(result);
    }

    /** Processes the content: expands its macros in place, or drops all expansions. */
    method ProcessContent(resolve: Resolver, expand: TableExpander, stripExpansion: bool, depth: nat)
        returns (error: Option<Error>)
      modifies this
      ensures match ProcessedContent(resolve, expand, stripExpansion, originalContent, depth)
        case Err(e) => error == Some(e)
        case Ok(content) => error == None && processedContent == Some(content)
      ensures error == None ==>
        processedContent.Some? && IsResultOf(resolve, expand, stripExpansion, originalContent, depth, processedContent.value)
    {
      ProcessedIsResult(resolve, expand, stripExpansion, originalContent, depth);
      error := ParseFile();
      if error.Some? { return; }
      SectionsAreRead(originalContent);
      var binding := BindAll(resolve, expand, stripExpansion, depth);
      if binding.Err? { return Some(binding.error); }
      var text: Result<string> := PrintAll(binding.value);
      if text.Err? { return Some(text.error); }
      processedContent := Some(text.value);
      return None;
    }
  }
}
