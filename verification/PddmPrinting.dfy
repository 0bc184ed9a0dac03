/** What a printed file looks like, piece by piece. */
module PddmPrinting {
  import opened Wrappers
  import opened Text
  import opened PddmSections
  import opened PddmRoundTrip

  // -------------------------------------------------------------------- numerals

  predicate IsDigit(c: char) { '0' <= c <= '9' }

  function DecimalValue(s: string): int {
    if s == "" then 0 else 10 * DecimalValue(s[..|s| - 1]) + (s[|s| - 1] as int - '0' as int)
  }

  /** s is n in decimal, without leading zeros. */
  predicate IsNumeral(n: nat, s: string) {
    && s != "" && (forall k :: 0 <= k < |s| ==> IsDigit(s[k]))
    && DecimalValue(s) == n && (|s| > 1 ==> s[0] != '0')
  }

  lemma {:induction false} NatToStringIsNumeral(n: nat)
    ensures IsNumeral(n, NatToString(n))
  {
    var digits := "0123456789";
    assert forall d :: 0 <= d < 10 ==> digits[d] as int == '0' as int + d;
    if n >= 10 {
      NatToStringIsNumeral(n / 10);
      var s := NatToString(n);
      assert s[..|s| - 1] == NatToString(n / 10);
      if |s[..|s| - 1]| == 1 { assert DecimalValue(s[..|s| - 1][..0]) == 0; }
    } else {
      assert [digits[n]][..0] == "";
    }
  }

  // ------------------------------------------------------------------ expansions

  /** The reference that an EXPAND line makes. */
  ghost predicate RefersTo(line: string, ref: string) {
    StartsWith(line, "//%PDDM-EXPAND") && Trims(line[|"//%PDDM-EXPAND"|..], ref)
  }

  /** What stands for an EXPAND line: the line, a notice, an empty line and the lines of the
    text it expands to, in order, without the white space at their ends. */
  ghost predicate IsBlock(line: string, text: string, block: seq<string>) {
    && |block| > 3 && block[0] == line && block[1] == GENERATED && block[2] == ""
    && exists pieces: seq<string> ::
         && |pieces| == |block| - 3 && AllUnbroken(pieces) && JoinBreaks(pieces) == text
         && forall i :: 0 <= i < |pieces| ==> TrimsRight(pieces[i], block[i + 3])
  }

  /** The block of an EXPAND line, if what it refers to expands. */
  ghost predicate IsBlockOf(f: Expander, line: string, block: seq<string>) {
    exists ref :: RefersTo(line, ref) && f(ref).Some? && IsBlock(line, f(ref).value, block)
  }

  /** The line that ends an expansion. */
  ghost predicate IsEndOf(captured: seq<string>, end: string) {
    if |captured| == 1 then exists ref :: RefersTo(captured[0], ref) && end == "//%PDDM-EXPAND-END " + ref
    else exists digits :: IsNumeral(|captured|, digits) && end == "//%PDDM-EXPAND-END (" + digits + " expansions)"
  }

  function Flatten(parts: seq<seq<string>>): seq<string> {
    if parts == [] then [] else parts[0] + Flatten(parts[1..])
  }

  ghost predicate AreBlocksOf(f: Expander, captured: seq<string>, blocks: seq<seq<string>>) {
    |blocks| == |captured| && forall i :: 0 <= i < |blocks| ==> IsBlockOf(f, captured[i], blocks[i])
  }

  /** The lines of an expansion: block by block, and then the end. */
  ghost predicate IsExpanded(f: Expander, captured: seq<string>, lines: seq<string>) {
    exists blocks, end :: AreBlocksOf(f, captured, blocks) && IsEndOf(captured, end) && lines == Flatten(blocks) + [end]
  }

  /** The lines of a collapsed expansion: no block is left. */
  ghost predicate IsCollapsed(captured: seq<string>, lines: seq<string>) {
    exists end :: IsEndOf(captured, end) && lines == captured + [end]
  }

  lemma MacroOfRefers(line: string)
    requires IsExpandLine(line)
    ensures RefersTo(line, MacroOf(line))
    ensures forall ref :: RefersTo(line, ref) ==> ref == MacroOf(line)
  {
    assert line[..|EXPAND|] == FirstWord(line);
    forall ref
      ensures Trims(line[|EXPAND|..], ref) <==> ref == MacroOf(line)
    {
      StripIff(line[|EXPAND|..], ref);
    }
  }

  lemma StrippedPieces(text: string)
    ensures var pieces, out := SplitBreaks(text), StrippedLines(text);
      && |out| == |pieces| && AllUnbroken(pieces) && JoinBreaks(pieces) == text
      && forall i :: 0 <= i < |pieces| ==> TrimsRight(pieces[i], out[i])
  {
    SplitBreaksJoins(text);
    var pieces, out := SplitBreaks(text), StrippedLines(text);
    forall i | 0 <= i < |pieces|
      ensures TrimsRight(pieces[i], out[i])
    {
      StripRightIff(pieces[i], out[i]);
    }
  }

  lemma TextMakesBlock(line: string, text: string, out: seq<string>)
    requires |out| == |SplitBreaks(text)| && AllUnbroken(SplitBreaks(text)) && JoinBreaks(SplitBreaks(text)) == text
    requires forall i :: 0 <= i < |out| ==> TrimsRight(SplitBreaks(text)[i], out[i])
    ensures IsBlock(line, text, [line] + ([GENERATED, ""] + out))
  {
    var block := [line] + ([GENERATED, ""] + out);
    assert forall i :: 0 <= i < |out| ==> block[i + 3] == out[i];
  }

  lemma GeneratedIsBlock(f: Expander, line: string)
    requires IsExpandLine(line)
    ensures match Generated(Some(f), line)
      case Ok(lines) => IsBlockOf(f, line, [line] + lines)
      case Err(_) => f(MacroOf(line)).None?
  {
    MacroOfRefers(line);
    if f(MacroOf(line)).Some? {
      var text := f(MacroOf(line)).value;
      StrippedPieces(text);
      TextMakesBlock(line, text, StrippedLines(text));
    }
  }

  lemma {:induction false} PrintsBlocks(f: Expander, captured: seq<string>) returns (blocks: seq<seq<string>>)
    requires Captured(captured) && PrintExpansions(Some(f), captured).Ok?
    ensures AreBlocksOf(f, captured, blocks) && PrintExpansions(Some(f), captured).value == Flatten(blocks)
  {
    blocks := [];
    if captured != [] {
      blocks := PrintsBlocks(f, captured[1..]);
      GeneratedIsBlock(f, captured[0]);
      blocks := [[captured[0]] + Generated(Some(f), captured[0]).value] + blocks;
    }
  }

  lemma EndMarkerOf(note: string)
    ensures EXPAND_END + " " + note == "//%PDDM-EXPAND-END " + note
  {
    assert EXPAND_END + " " == "//%PDDM-EXPAND-END ";
  }

  lemma EndMarkerIsEnd(captured: seq<string>)
    requires Captured(captured)
    ensures IsEndOf(captured, EndMarker(captured))
  {
    if |captured| == 1 {
      MacroOfRefers(captured[0]);
      EndMarkerOf(MacroOf(captured[0]));
    } else {
      NatToStringIsNumeral(|captured|);
      EndMarkerOf("(" + NatToString(|captured|) + " expansions)");
      var digits := NatToString(|captured|);
      assert "//%PDDM-EXPAND-END " + ("(" + digits + " expansions)") == "//%PDDM-EXPAND-END (" + digits + " expansions)";
    }
  }

  lemma {:induction false} FailureIsAReference(f: Expander, captured: seq<string>)
    requires Captured(captured) && PrintExpansions(Some(f), captured).Err?
    ensures exists i, ref :: 0 <= i < |captured| && RefersTo(captured[i], ref) && f(ref).None?
  {
    GeneratedIsBlock(f, captured[0]);
    MacroOfRefers(captured[0]);
    if Generated(Some(f), captured[0]).Ok? {
      FailureIsAReference(f, captured[1..]);
      var i, ref :| 0 <= i < |captured[1..]| && RefersTo(captured[1..][i], ref) && f(ref).None?;
      assert captured[1..][i] == captured[i + 1];
    }
  }

  /** A printed expansion has these lines, or one of its references does not expand. */
  lemma ExpansionIsPrinted(f: Expander, captured: seq<string>)
    requires captured != [] && Captured(captured)
    ensures match PrintSection(Some(f), ExpansionSection(captured))
      case Ok(lines) => IsExpanded(f, captured, lines)
      case Err(_) => exists i, ref :: 0 <= i < |captured| && RefersTo(captured[i], ref) && f(ref).None?
  {
    if PrintExpansions(Some(f), captured).Ok? {
      var blocks := PrintsBlocks(f, captured);
      EndMarkerIsEnd(captured);
    } else {
      FailureIsAReference(f, captured);
    }
  }

  // --------------------------------------------------------------------- files

  /** The lines of a section: of an expansion as above, of any other its own. */
  ghost predicate IsPart(expand: Option<Expander>, s: Section, lines: seq<string>) {
    if !s.ExpansionSection? then lines == s.lines
    else if expand.None? then IsCollapsed(s.lines, lines)
    else IsExpanded(expand.value, s.lines, lines)
  }

  /** The lines of a file, section by section. */
  ghost predicate IsPrinted(expand: Option<Expander>, secs: seq<Section>, lines: seq<string>) {
    exists parts :: |parts| == |secs| && lines == Flatten(parts)
      && forall i :: 0 <= i < |secs| ==> IsPart(expand, secs[i], parts[i])
  }

  lemma SectionIsPart(expand: Option<Expander>, s: Section)
    requires WellFormed(s) && PrintSection(expand, s).Ok?
    ensures IsPart(expand, s, PrintSection(expand, s).value)
  {
    if s.ExpansionSection? && expand.Some? {
      ExpansionIsPrinted(expand.value, s.lines);
    } else if s.ExpansionSection? {
      CollapseExpansions(s.lines);
      EndMarkerIsEnd(s.lines);
    }
  }

  lemma {:induction false} PrintsParts(expand: Option<Expander>, secs: seq<Section>) returns (parts: seq<seq<string>>)
    requires AllWellFormed(secs) && Print(expand, secs).Ok?
    ensures |parts| == |secs| && Print(expand, secs).value == Flatten(parts)
    ensures forall i :: 0 <= i < |secs| ==> IsPart(expand, secs[i], parts[i])
  {
    parts := [];
    if secs != [] {
      parts := PrintsParts(expand, secs[1..]);
      SectionIsPart(expand, secs[0]);
      parts := [PrintSection(expand, secs[0]).value] + parts;
    }
  }

  /** What is printed for a file is what its sections stand for, one after the other. */
  lemma PrintIsPrinted(expand: Option<Expander>, secs: seq<Section>)
    requires AllWellFormed(secs) && Print(expand, secs).Ok?
    ensures IsPrinted(expand, secs, Print(expand, secs).value)
  {
    var parts := PrintsParts(expand, secs);
  }
}
