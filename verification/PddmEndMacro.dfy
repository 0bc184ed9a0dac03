/** A file whose generated code breaks it: processing accepts it once and not again. */
module PddmEndMacro {
  import opened Wrappers
  import opened Text
  import opened PddmSections
  import opened PddmRoundTrip
  import opened PddmMacros
  import opened PddmDefinitions
  import opened PddmProcess

  lemma ReadExpand(line: string, rest: seq<string>)
    requires IsExpandLine(line)
    ensures ParseFrom(None, [line] + rest) == ParseFrom(Some(ExpansionSection([line])), rest)
  {
    assert ([line] + rest)[1..] == rest && [] + [line] == [line];
  }

  /** An end marker in the generated code closes the section early, and the marker that
    was meant to close it is then out of place. */
  lemma EarlyEnd(line: string, generated: seq<string>, end: string, rest: seq<string>)
    requires IsExpandLine(line) && Plain(generated) && IsEndLine(end)
    ensures Parse([line] + (generated + ([end] + ([EndMarker([line])] + rest)))).Err?
  {
    var later := [EndMarker([line])] + rest;
    ReadExpand(line, generated + ([end] + later));
    EatLines([line], generated, [end] + later);
    CloseExpansion([line], end, later);
    EndMarkerEnds([line]);
  }

  lemma GeneratedHeadIsPlain()
    ensures Plain([GENERATED, ""])
  {
    assert GENERATED[2] == ' ' && PDDM[2] == '%';
  }

  lemma EndMarkerIsOneLine()
    ensures StrippedLines(EXPAND_END) == [EXPAND_END]
  {
    SplitFirstLine(EXPAND_END, "");
    assert EXPAND_END + "\n" + "" == EXPAND_END + "\n";
    assert SplitBreaks(EXPAND_END) == [EXPAND_END];
  }

  lemma ExpandsToEndMarker(line: string, f: Expander)
    requires IsExpandLine(line) && f(MacroOf(line)) == Some(EXPAND_END)
    ensures PrintSection(Some(f), ExpansionSection([line]))
      == Ok([line] + ([GENERATED, ""] + ([EXPAND_END] + [EndMarker([line])])))
  {
    EndMarkerIsOneLine();
    assert Generated(Some(f), line) == Ok([GENERATED, ""] + [EXPAND_END]);
    assert PrintExpansions(Some(f), [line]) == Ok([line] + ([GENERATED, ""] + [EXPAND_END])) by {
      assert [line][1..] == [];
      assert [line] + ([GENERATED, ""] + [EXPAND_END]) + [] == [line] + ([GENERATED, ""] + [EXPAND_END]);
    }
    assert [line] + ([GENERATED, ""] + [EXPAND_END]) + [EndMarker([line])]
      == [line] + ([GENERATED, ""] + ([EXPAND_END] + [EndMarker([line])]));
  }

  lemma EndMarkerIsEndLine()
    ensures IsEndLine(EXPAND_END)
  {
    FirstWordOf(EXPAND_END, "");
    LineOfWord(EXPAND_END, EXPAND_END);
  }

  /** A reference to a macro without arguments. */
  function Reference(name: string): string { name + "()" }

  lemma StripReference(name: string)
    requires IsWord(name)
    ensures Strip(Reference(name)) == Strip(" " + Reference(name)) == Reference(name)
  {
    var ref := Reference(name);
    assert !IsSpace(ref[|ref| - 1]) && !IsSpace(ref[0]) && IsSpace(' ');
    assert (" " + ref)[|ref|] == ref[|ref| - 1] && (" " + ref)[1..] == ref;
    assert StripLeft(ref) == ref;
  }

  lemma CoreOfReference(name: string)
    ensures CommaJoin([""]) == "" && "" + Core(name, "") + "" == Reference(name)
  {
    assert "" + ")" == ")" && name + "(" + ")" == name + "()";
  }

  lemma DefineReference(name: string)
    requires IsWord(name)
    ensures ParseDefineLine(MACRO_DEFINE + " " + Reference(name)) == Some(Header(name, []))
  {
    DefineWord();
    CoreOfReference(name);
    FormIsDefined(MACRO_DEFINE + " " + Reference(name), name, [], "", [""], "");
  }

  /** The macro whose body is an end marker. */
  function EndMacro(name: string): MacroTable { map[name := Macro([], EXPAND_END)] }

  lemma DefinitionIsRead(def: string, name: string, body: string)
    requires StartsWith(def, "PDDM-") && FirstWord(def) == MACRO_DEFINE && ParseDefineLine(def) == Some(Header(name, []))
    requires !StartsWith(body, "PDDM-")
    ensures ReadDefinitions(map[], [def, body]) == Some(map[name := Macro([], body)])
  {
    var st := State(map[], Some(Open(Header(name, []), [])));
    assert ParseLine(State(map[], None), def) == Some(st);
    var next := State(map[], Some(Open(Header(name, []), [body])));
    assert [] + [body] == [body];
    assert ParseLine(st, body) == Some(next);
    assert [def, body][1..] == [body] && [body][1..] == [];
    assert ParseLinesFrom(next, []) == Some(map[name := Macro([], body)]);
    assert ParseLinesFrom(st, [body]) == Some(map[name := Macro([], body)]);
  }

  lemma DiffersAt(line: string, prefix: string, i: nat)
    requires i < |prefix| && i < |line| && line[i] != prefix[i]
    ensures !StartsWith(line, prefix)
  {
  }

  lemma MacroWords()
    ensures ' ' !in MACRO_DEFINE && StartsWith(MACRO_DEFINE, "PDDM-") && !StartsWith(EXPAND_END, "PDDM-")
  {
    DefineWord();
    DiffersAt(EXPAND_END, "PDDM-", 0);
  }

  lemma EndMacroIsRead(name: string)
    requires IsWord(name)
    ensures ReadDefinitions(map[], [MACRO_DEFINE + " " + Reference(name), EXPAND_END]) == Some(EndMacro(name))
  {
    DefineReference(name);
    MacroWords();
    FirstWordOf(MACRO_DEFINE, Reference(name));
    StartsAsWord(MACRO_DEFINE, Reference(name), "PDDM-");
    DefinitionIsRead(MACRO_DEFINE + " " + Reference(name), name, EXPAND_END);
  }

  /** An expansion, its end marker and a definition of two lines. */
  lemma ReadFourLines(line: string, end: string, def: string, body: string)
    requires IsExpandLine(line) && IsEndLine(end)
    requires IsDirective(def) && FirstWord(def) == DEFINE && IsDefinitionLine(body)
    ensures Parse([line] + ([end] + [def, body])) == Ok([ExpansionSection([line]), DefinitionSection([def, body])])
  {
    ReadExpand(line, [end] + [def, body]);
    CloseExpansion([line], end, [def, body]);
    LineOfWord(def, DEFINE);
    var s := DefinitionSection([def, body]);
    assert s.lines[0] == def && forall i :: 0 <= i < |s.lines| ==> IsDefinitionLine(s.lines[i]);
    ReadOpenSection(s, []);
    assert s.lines + [] == s.lines;
    assert [ExpansionSection([line])] + [s] == [ExpansionSection([line]), s];
  }

  lemma PrintPair(expand: Option<Expander>, s: Section, t: Section)
    requires WellFormed(s) && WellFormed(t) && PrintSection(expand, s).Ok? && !t.ExpansionSection?
    ensures Print(expand, [s, t]) == Ok(PrintSection(expand, s).value + t.lines)
  {
    assert [s, t][1..] == [t] && [t][1..] == [] && t.lines + [] == t.lines;
    assert Print(expand, []) == Ok([]) && Print(expand, [t]) == Ok(t.lines);
  }

  lemma PrintFourLines(f: Expander, line: string, def: string, body: string)
    requires IsExpandLine(line) && f(MacroOf(line)) == Some(EXPAND_END)
    ensures Print(Some(f), [ExpansionSection([line]), DefinitionSection([def, body])])
      == Ok([line] + ([GENERATED, ""] + ([EXPAND_END] + ([EndMarker([line])] + [def, body]))))
  {
    ExpandsToEndMarker(line, f);
    PrintPair(Some(f), ExpansionSection([line]), DefinitionSection([def, body]));
    var marker := [EndMarker([line])];
    ConcatAssociates([EXPAND_END], marker, [def, body]);
    ConcatAssociates([GENERATED, ""], [EXPAND_END] + marker, [def, body]);
    ConcatAssociates([line], [GENERATED, ""] + ([EXPAND_END] + marker), [def, body]);
  }

  /** A file that expands a macro and defines it to be an end marker. */
  function EndMacroFile(name: string): seq<string> {
    [EXPAND + " " + Reference(name)] + ([EXPAND_END] + [DEFINE + " " + Reference(name), "//%" + EXPAND_END])
  }

  /** A directive with a macro reference. */
  lemma ReferenceLine(word: string, ref: string)
    requires ' ' !in word && IsDirective(word)
    ensures var line := word + " " + ref;
      FirstWord(line) == word && IsDirective(line) && line[|word|..] == " " + ref
  {
    var line := word + " " + ref;
    assert line[..|word| + 1] == word + " ";
    WordThenSpace(line, word);
  }

  lemma DirectiveWords()
    ensures ' ' !in EXPAND && IsDirective(EXPAND)
    ensures ' ' !in DEFINE && IsDirective(DEFINE)
  {
    assert EXPAND[..|PDDM|] == PDDM && DEFINE[..|PDDM|] == PDDM;
  }

  lemma EndBodyLine()
    ensures IsDefinitionLine("//%" + EXPAND_END) && ("//%" + EXPAND_END)[3..] == EXPAND_END
  {
    var line := "//%" + EXPAND_END;
    assert line[..3] == "//%" && line[3] == '/';
    DiffersAt(line, PDDM, 3);
  }

  lemma EndMacroFileIsRead(name: string)
    requires IsWord(name)
    ensures var line := EXPAND + " " + Reference(name);
      && IsExpandLine(line) && MacroOf(line) == Reference(name)
      && Parse(EndMacroFile(name)) == Ok([ExpansionSection([line]),
           DefinitionSection([DEFINE + " " + Reference(name), "//%" + EXPAND_END])])
  {
    EndMarkerIsEndLine();
    DirectiveWords();
    ReferenceLine(EXPAND, Reference(name));
    ReferenceLine(DEFINE, Reference(name));
    StripReference(name);
    EndBodyLine();
    ReadFourLines(EXPAND + " " + Reference(name), EXPAND_END, DEFINE + " " + Reference(name), "//%" + EXPAND_END);
  }

  /** An expansion binds nothing, a definition what it defines. */
  lemma BindPair(resolve: Resolver, s: Section, t: Section, table: MacroTable, depth: nat)
    requires Canonical([s, t]) && s.ExpansionSection? && t.DefinitionSection? && CanonicalSection(t)
    requires ReadDefinitions(map[], DefinitionBody(t.lines)) == Some(table)
    ensures Bind(resolve, map[], [s, t], depth) == Ok(table)
  {
    assert [s, t][1..] == [t] && [t][1..] == [];
    assert Bind(resolve, table, [], depth) == Ok(table) && Bind(resolve, map[], [t], depth) == Ok(table);
  }

  lemma EndMacroBody(name: string)
    ensures |DEFINE| >= 3 && (DEFINE + " " + Reference(name))[3..] == MACRO_DEFINE + " " + Reference(name)
    ensures ("//%" + EXPAND_END)[3..] == EXPAND_END
  {
    EndBodyLine();
    assert DEFINE[3..] == MACRO_DEFINE;
    assert (DEFINE + " " + Reference(name))[3..] == DEFINE[3..] + " " + Reference(name);
  }

  lemma FourLinesAreProcessed(resolve: Resolver, expand: TableExpander, lines: seq<string>, line: string, def: string,
                              body: string, table: MacroTable, depth: nat)
    requires IsExpandLine(line) && |def| >= 3 && |body| >= 3
    requires Parse(lines) == Ok([ExpansionSection([line]), DefinitionSection([def, body])])
    requires ReadDefinitions(map[], [def[3..], body[3..]]) == Some(table)
    requires expand(table, MacroOf(line)) == Some(EXPAND_END)
    ensures Process(resolve, expand, false, lines, depth)
      == Ok([line] + ([GENERATED, ""] + ([EXPAND_END] + ([EndMarker([line])] + [def, body]))))
  {
    var s, t := ExpansionSection([line]), DefinitionSection([def, body]);
    ParseIsCanonical(None, lines);
    assert [s, t][1] == t && CanonicalSection(t);
    assert DefinitionBody(t.lines) == [def[3..], body[3..]];
    BindPair(resolve, s, t, table, depth);
    PrintFourLines(ExpanderFor(expand, table), line, def, body);
  }

  /** The condition cannot be dropped.  In the file above the macro is defined, its
    expansion is its body, and the processed file is not even accepted: its first end
    marker is the generated one. */
  lemma UncleanFileBreaks(resolve: Resolver, expand: TableExpander, name: string, depth: nat)
    requires IsWord(name) && expand(EndMacro(name), Reference(name)) == Some(EndMacro(name)[name].body)
    ensures ReadDefinitions(map[], [MACRO_DEFINE + " " + Reference(name), EXPAND_END]) == Some(EndMacro(name))
    ensures var r := Process(resolve, expand, false, EndMacroFile(name), depth);
      r.Ok? && Process(resolve, expand, false, r.value, depth).Err?
  {
    EndMacroFileIsRead(name);
    EndMacroBody(name);
    EndMacroIsRead(name);
    EndMarkerIsEndLine();
    GeneratedHeadIsPlain();
    var line, def, body := EXPAND + " " + Reference(name), DEFINE + " " + Reference(name), "//%" + EXPAND_END;
    FourLinesAreProcessed(resolve, expand, EndMacroFile(name), line, def, body, EndMacro(name), depth);
    EarlyEnd(line, [GENERATED, ""], EXPAND_END, [def, body]);
  }
}
