/** Which macros a file defines. */
module PddmBinding {
  import opened Wrappers
  import opened Text
  import opened PddmSections
  import opened PddmRoundTrip
  import opened PddmMacros
  import opened PddmDefinitions
  import opened PddmProcess

  lemma BindOne(resolve: Resolver, table: MacroTable, s: Section, depth: nat)
    requires CanonicalSection(s) && Canonical([s])
    ensures Bind(resolve, table, [s], depth) == BindSection(resolve, table, s, depth)
  {
    assert [s][1..] == [];
    var bound := BindSection(resolve, table, s, depth);
    assert bound.Ok? ==> Bind(resolve, bound.value, [], depth) == bound;
  }

  /** The sections are bound in order, each on top of those before. */
  lemma {:induction false} BindAppend(resolve: Resolver, table: MacroTable, a: seq<Section>, b: seq<Section>, depth: nat)
    requires Canonical(a) && Canonical(b) && Canonical(a + b)
    ensures Bind(resolve, table, a + b, depth) ==
      match Bind(resolve, table, a, depth)
      case Err(e) => Err(e)
      case Ok(bound) => Bind(resolve, bound, b, depth)
    decreases |a|
  {
    if a == [] {
      assert a + b == b;
    } else {
      assert (a + b)[1..] == a[1..] + b && (a + b)[0] == a[0];
      var bound := BindSection(resolve, table, a[0], depth);
      if bound.Ok? {
        assert Canonical(a[1..]);
        assert Canonical((a + b)[1..]);
        BindAppend(resolve, bound.value, a[1..], b, depth);
      }
    }
  }

  /** Text and expansions bind nothing. */
  lemma OthersBindNothing(resolve: Resolver, table: MacroTable, s: Section, depth: nat)
    requires CanonicalSection(s) && Canonical([s]) && (s.TextSection? || s.ExpansionSection?)
    ensures Bind(resolve, table, [s], depth) == Ok(table)
  {
    BindOne(resolve, table, s, depth);
  }

  /** A section of definitions binds the macros that its lines define after their prefix. */
  lemma DefinitionsAreBound(resolve: Resolver, table: MacroTable, lines: seq<string>, ds: seq<Definition>, depth: nat)
    requires Canonical([DefinitionSection(lines)]) && CanonicalSection(DefinitionSection(lines))
    requires |lines| == |LinesOfAll(ds)| && forall i :: 0 <= i < |lines| ==> lines[i] == "//%" + LinesOfAll(ds)[i]
    requires forall i :: 0 <= i < |ds| ==> ds[i].Valid() && ds[i].name !in table
    requires forall i, j :: 0 <= i < j < |ds| ==> ds[i].name != ds[j].name
    ensures Bind(resolve, table, [DefinitionSection(lines)], depth) == Ok(AddAll(table, ds))
  {
    BindOne(resolve, table, DefinitionSection(lines), depth);
    DefinitionsAreRead(table, ds);
    assert DefinitionBody(lines) == LinesOfAll(ds);
  }

  /** A line that a definition section takes after its prefix. */
  predicate IsFineLine(line: string) {
    StartsWith(line, "PDDM") ==> FirstWord(line) in {"PDDM-DEFINE", "PDDM-DEFINE-END"}
  }

  lemma PrefixedWords()
    ensures "//%" + "PDDM" == PDDM && "//%" + "PDDM-DEFINE" == DEFINE && "//%" + "PDDM-DEFINE-END" == DEFINE_END
  {
  }

  lemma {:induction false} FirstWordPrefixed(prefix: string, line: string)
    requires ' ' !in prefix
    ensures FirstWord(prefix + line) == prefix + FirstWord(line)
  {
    if prefix == "" {
      assert prefix + line == line;
    } else {
      assert (prefix + line)[1..] == prefix[1..] + line;
      FirstWordPrefixed(prefix[1..], line);
    }
  }

  lemma PrefixedStarts(prefix: string, line: string, start: string)
    ensures StartsWith(prefix + line, prefix + start) <==> StartsWith(line, start)
  {
    if |start| <= |line| {
      assert (prefix + line)[..|prefix + start|] == prefix + line[..|start|];
      assert (prefix + line[..|start|])[|prefix|..] == line[..|start|] && (prefix + start)[|prefix|..] == start;
    }
  }

  lemma PrefixedLine(line: string)
    requires IsFineLine(line)
    ensures IsDefinitionLine("//%" + line) && FirstWord("//%" + line) == "//%" + FirstWord(line)
    ensures StartsWith(line, "PDDM") ==> IsDirective("//%" + line)
  {
    FirstWordPrefixed("//%", line);
    PrefixedStarts("//%", line, "PDDM");
    PrefixedStarts("//%", line, "");
    PrefixedWords();
    assert "//%" + "" == "//%";
  }

  ghost predicate HasPlainBody(d: Definition) {
    forall i :: 0 <= i < |d.body| ==> !StartsWith(d.body[i], "PDDM")
  }

  predicate AreFine(lines: seq<string>) {
    forall i :: 0 <= i < |lines| ==> IsFineLine(lines[i])
  }

  lemma FineAppend(a: seq<string>, b: seq<string>)
    requires AreFine(a) && AreFine(b)
    ensures AreFine(a + b)
  {
  }

  lemma DiffersAtStart(line: string, start: string)
    requires line != "" && start != "" && line[0] != start[0]
    ensures !StartsWith(line, start)
  {
  }

  lemma BlankIsFine(line: string)
    requires Blank(line)
    ensures IsFineLine(line)
  {
    if line != "" { DiffersAtStart(line, "PDDM"); }
  }

  lemma LinesAreFine(d: Definition)
    requires d.Valid() && HasPlainBody(d)
    ensures AreFine(d.Lines())
  {
    DefineLineIsDirective(d.line, d.name, d.args);
    EndLine();
    assert AreFine([d.line]) && AreFine(["PDDM-DEFINE-END"]) && AreFine([]);
    forall i | 0 <= i < |d.blanks|
      ensures IsFineLine(d.blanks[i])
    {
      BlankIsFine(d.blanks[i]);
    }
    FineAppend(["PDDM-DEFINE-END"], d.blanks);
    var after := if d.ended then ["PDDM-DEFINE-END"] + d.blanks else [];
    FineAppend(d.body, after);
    FineAppend([d.line], d.body + after);
  }

  lemma {:induction false} AllLinesAreFine(ds: seq<Definition>)
    requires forall i :: 0 <= i < |ds| ==> ds[i].Valid() && HasPlainBody(ds[i])
    ensures AreFine(LinesOfAll(ds))
  {
    if ds != [] {
      LinesAreFine(ds[0]);
      AllLinesAreFine(ds[1..]);
      FineAppend(ds[0].Lines(), LinesOfAll(ds[1..]));
    }
  }

  lemma FirstIsDefine(line: string)
    requires StartsWith(line, "PDDM-") && FirstWord(line) == MACRO_DEFINE
    ensures IsDirective("//%" + line) && FirstWord("//%" + line) == DEFINE
  {
    assert line[..4] == line[..5][..4] == "PDDM";
    PrefixedLine(line);
    assert "//%" + MACRO_DEFINE == DEFINE;
  }

  /** A file of definitions is read as one section, whatever they define. */
  lemma DefinitionsAreOneSection(lines: seq<string>, ds: seq<Definition>)
    requires ds != [] && forall i :: 0 <= i < |ds| ==> ds[i].Valid() && HasPlainBody(ds[i])
    requires |lines| == |LinesOfAll(ds)| && forall i :: 0 <= i < |lines| ==> lines[i] == "//%" + LinesOfAll(ds)[i]
    ensures Parse(lines) == Ok([DefinitionSection(lines)]) && CanonicalSection(DefinitionSection(lines))
  {
    AllLinesAreFine(ds);
    forall i | 0 <= i < |lines|
      ensures IsDefinitionLine(lines[i])
    {
      PrefixedLine(LinesOfAll(ds)[i]);
    }
    var first := LinesOfAll(ds)[0];
    assert first == ds[0].line;
    DefineLineIsDirective(ds[0].line, ds[0].name, ds[0].args);
    FirstIsDefine(first);
    ReadOpenSection(DefinitionSection(lines), []);
    assert lines + [] == lines;
  }

  /** The line imports the definitions of the file of this name. */
  ghost predicate Imports(line: string, name: string) {
    StartsWith(line, "//%PDDM-IMPORT-DEFINES ") && Trims(line[|"//%PDDM-IMPORT-DEFINES "|..], name)
  }

  lemma ImportNameIff(line: string, name: string)
    requires StartsWith(line, IMPORT_DEFINES + " ")
    ensures ImportName(line) == name <==> Imports(line, name)
  {
    assert IMPORT_DEFINES + " " == "//%PDDM-IMPORT-DEFINES ";
    LineOfImport(line);
    StripIff(line[|"//%PDDM-IMPORT-DEFINES "|..], name);
  }

  /** An import binds what the sections of the imported file bind, or fails if they cannot
    be bound. */
  lemma ImportBindsFile(resolve: Resolver, table: MacroTable, line: string, name: string, content: string,
                        secs: seq<Section>, depth: nat)
    requires CanonicalSection(ImportSection([line])) && Canonical([ImportSection([line])]) && Imports(line, name)
    requires resolve(name) == Some(content) && Parse(SplitLines(content)) == Ok(secs) && Canonical(secs)
    ensures Bind(resolve, table, [ImportSection([line])], depth + 1) ==
      match Bind(resolve, table, secs, depth)
      case Err(_) => Err(ImportFailed)
      case Ok(bound) => Ok(bound)
  {
    BindOne(resolve, table, ImportSection([line]), depth + 1);
    ImportNameIff(line, name);
  }

  /** An import also fails if there is no such file or it cannot be read. */
  lemma ImportNeedsFile(resolve: Resolver, table: MacroTable, line: string, name: string, depth: nat)
    requires CanonicalSection(ImportSection([line])) && Canonical([ImportSection([line])]) && Imports(line, name)
    requires resolve(name).None? || Parse(SplitLines(resolve(name).value)).Err?
    ensures Bind(resolve, table, [ImportSection([line])], depth) == Err(ImportFailed)
  {
    BindOne(resolve, table, ImportSection([line]), depth);
    ImportNameIff(line, name);
  }
}
