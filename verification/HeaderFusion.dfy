/** Fusing a tree of headers or sources into one file by inlining every include once. */
module HeaderFusion {

  const GMOCK_H_SEED := "include/gmock/gmock.h"
  const GMOCK_ALL_CC_SEED := "src/gmock-all.cc"
  const GTEST_H_SEED := "include/gtest/gtest.h"
  const GTEST_SPI_H_SEED := "include/gtest/gtest-spi.h"
  const GTEST_ALL_CC_SEED := "src/gtest-all.cc"
  const INCLUDE_DIR := "include/"
  const SPI_HEADER := "gtest/gtest-spi.h"
  const GMOCK_H_OUTPUT := "gmock/gmock.h"
  const GTEST_H_OUTPUT := "gtest/gtest.h"

  /** The include patterns a line can match, with the file it names. */
  datatype Kind = GmockInclude(file: string) | GtestInclude(file: string) | SrcInclude(file: string) | Plain

  datatype Line = Line(text: string, kind: Kind)

  /** The four traversals of the two scripts. */
  datatype Mode = GmockH | GmockAllCc | GtestH | GtestAllCc {
    function Seed(): string {
      match this
      case GmockH => GMOCK_H_SEED
      case GmockAllCc => GMOCK_ALL_CC_SEED
      case GtestH => GTEST_H_SEED
      case GtestAllCc => GTEST_ALL_CC_SEED
    }
  }

  /** What the patterns guarantee about the file names they capture. */
  predicate WellKinded(kind: Kind) {
    match kind
    case GmockInclude(file) => "gmock/" <= file
    case GtestInclude(file) => "gtest/" <= file
    case SrcInclude(file) => "src/" <= file
    case Plain => true
  }

  type Files = map<string, seq<Line>>

  predicate WellFormed(files: Files) {
    forall f, i :: f in files && 0 <= i < |files[f]| ==> WellKinded(files[f][i].kind)
  }

  /** The paths that stand for an include that was written once, not for a file that was
    inlined. */
  predicate IsToken(mode: Mode, path: string) {
    match mode
    case GmockH => path == GTEST_H_SEED
    case GmockAllCc => path == GMOCK_H_SEED
    case GtestH => false
    case GtestAllCc => path == GTEST_H_SEED
  }

  // ------------------------------------------------------- what the lines call for

  /** The line includes a file that is to be fused in its place. */
  predicate Leads(mode: Mode, line: Line, path: string) {
    match mode
    case GmockH => line.kind.GmockInclude? && path == INCLUDE_DIR + line.kind.file
    case GmockAllCc => line.kind == SrcInclude(path)
    case GtestH => line.kind.GtestInclude? && path == INCLUDE_DIR + line.kind.file
    case GtestAllCc =>
      || line.kind == SrcInclude(path)
      || (line.kind == GtestInclude(SPI_HEADER) && path == INCLUDE_DIR + SPI_HEADER)
  }

  /** The line includes a header that has been fused into a file of its own. */
  predicate AsksForHeader(mode: Mode, line: Line) {
    match mode
    case GmockH => line.kind.GtestInclude?
    case GmockAllCc => line.kind.GmockInclude?
    case GtestH => false
    case GtestAllCc => line.kind.GtestInclude? && line.kind.file != SPI_HEADER
  }

  /** The include of that file. */
  function HeaderInclude(mode: Mode): string {
    match mode
    case GmockH => "#include \"gtest/gtest.h\"\n"
    case GmockAllCc => "#include \"gmock/gmock.h\"\n"
    case GtestH => ""
    case GtestAllCc => "#include \"gtest/gtest.h\"\n"
  }

  /** The line has no include that the mode looks for. */
  predicate IsOrdinary(mode: Mode, line: Line) {
    match mode
    case GmockH => !line.kind.GmockInclude? && !line.kind.GtestInclude?
    case GmockAllCc => line.kind.Plain?
    case GtestH => !line.kind.GtestInclude?
    case GtestAllCc => !line.kind.GtestInclude? && !line.kind.SrcInclude?
  }

  /** Every line is of one of these sorts, but for the includes of gtest headers in the
    sources of gmock, which are left out. */
  lemma LinesAreSorted(mode: Mode, line: Line)
    ensures IsOrdinary(mode, line) || AsksForHeader(mode, line) || (exists path :: Leads(mode, line, path))
      || (mode.GmockAllCc? && line.kind.GtestInclude?)
    ensures !(IsOrdinary(mode, line) && AsksForHeader(mode, line))
    ensures forall path :: Leads(mode, line, path) ==> !IsOrdinary(mode, line) && !AsksForHeader(mode, line)
  {
    if !line.kind.Plain? {
      assert mode.GmockH? && line.kind.GmockInclude? ==> Leads(mode, line, INCLUDE_DIR + line.kind.file);
      assert mode.GtestH? && line.kind.GtestInclude? ==> Leads(mode, line, INCLUDE_DIR + line.kind.file);
      assert !mode.GmockH? && !mode.GtestH? && line.kind.SrcInclude? ==> Leads(mode, line, line.kind.file);
      assert mode.GtestAllCc? && line.kind == GtestInclude(SPI_HEADER)
        ==> Leads(mode, line, INCLUDE_DIR + SPI_HEADER);
    }
  }

  lemma LeadsToOne(mode: Mode, line: Line, path: string)
    requires Leads(mode, line, path)
    ensures forall other :: Leads(mode, line, other) ==> other == path
  {
  }

  // --------------------------------------------------------- what is done with them

  /** What a traversal does with a line: inline a file, write an include of an already
    fused header unless that was done before, drop the line or copy it. */
  datatype Action = Inline(path: string) | Once(token: string, text: string) | Drop | Copy(text: string)

  function ActionOf(mode: Mode, line: Line): Action {
    match (mode, line.kind)
    case (GmockH, GmockInclude(file)) => Inline("include/" + file)
    case (GmockH, GtestInclude(_)) => Once(GTEST_H_SEED, "#include \"" + GTEST_H_OUTPUT + "\"\n")
    case (GmockH, _) => Copy(line.text)
    case (GmockAllCc, GmockInclude(_)) => Once(GMOCK_H_SEED, "#include \"" + GMOCK_H_OUTPUT + "\"\n")
    case (GmockAllCc, GtestInclude(_)) => Drop
    case (GmockAllCc, SrcInclude(file)) => Inline(file)
    case (GmockAllCc, Plain) => Copy(line.text)
    case (GtestH, GtestInclude(file)) => Inline("include/" + file)
    case (GtestH, _) => Copy(line.text)
    case (GtestAllCc, GtestInclude(file)) =>
      if "include/" + file == GTEST_SPI_H_SEED then Inline(GTEST_SPI_H_SEED)
      else Once(GTEST_H_SEED, "#include \"" + GTEST_H_OUTPUT + "\"\n")
    case (GtestAllCc, SrcInclude(file)) => Inline(file)
    case (GtestAllCc, _) => Copy(line.text)
  }

  /** Each line is dealt with as it calls for. */
  lemma ActionsAreRight(mode: Mode, line: Line)
    ensures forall path :: ActionOf(mode, line) == Inline(path) <==> Leads(mode, line, path)
    ensures ActionOf(mode, line).Copy? <==> IsOrdinary(mode, line)
    ensures ActionOf(mode, line).Copy? ==> ActionOf(mode, line).text == line.text
    ensures ActionOf(mode, line).Once? <==> AsksForHeader(mode, line)
    ensures ActionOf(mode, line).Once? ==>
      ActionOf(mode, line).text == HeaderInclude(mode) && IsToken(mode, ActionOf(mode, line).token)
    ensures ActionOf(mode, line).Drop? <==> mode.GmockAllCc? && line.kind.GtestInclude?
  {
    var gmock, gtest := "#include \"" + GMOCK_H_OUTPUT + "\"\n", "#include \"" + GTEST_H_OUTPUT + "\"\n";
    assert gmock == "#include \"gmock/gmock.h\"\n" && gtest == "#include \"gtest/gtest.h\"\n";
    if mode.GtestAllCc? && line.kind.GtestInclude? {
      var file := line.kind.file;
      assert "include/" + "gtest/gtest-spi.h" == GTEST_SPI_H_SEED;
      assert ("include/" + file)[8..] == file && GTEST_SPI_H_SEED[8..] == "gtest/gtest-spi.h";
    }
  }

  /** The two uses of the set of processed files do not get in each other's way. */
  lemma TokensAreNotInlined(mode: Mode, line: Line, path: string)
    requires WellKinded(line.kind) && Leads(mode, line, path)
    ensures !IsToken(mode, path)
  {
    match (mode, line.kind)
    case (GmockH, GmockInclude(file)) =>
      assert ("include/" + file)[9] == 'm' && GTEST_H_SEED[9] == 't';
    case (GmockAllCc, SrcInclude(file)) => assert file[0] == 's' && GMOCK_H_SEED[0] == 'i';
    case (GtestAllCc, GtestInclude(file)) => assert |GTEST_SPI_H_SEED| != |GTEST_H_SEED|;
    case (GtestAllCc, SrcInclude(file)) => assert file[0] == 's' && GTEST_H_SEED[0] == 'i';
    case _ =>
  }

  lemma SeedsAreNotTokens(mode: Mode)
    ensures !IsToken(mode, mode.Seed())
  {
    assert GMOCK_H_SEED[9] == 'm' && GTEST_H_SEED[9] == 't';
    assert GMOCK_ALL_CC_SEED[0] == GTEST_ALL_CC_SEED[0] == 's' && GMOCK_H_SEED[0] == GTEST_H_SEED[0] == 'i';
  }

  // ------------------------------------------------------------ the include graph

  datatype Tree = Tree(mode: Mode, files: Files) {

    predicate Inlines(f: string, i: int, g: string) {
      f in files && 0 <= i < |files[f]| && Leads(mode, files[f][i], g)
    }

    predicate Copies(f: string, i: int) {
      f in files && 0 <= i < |files[f]| && IsOrdinary(mode, files[f][i])
    }

    predicate Notes(f: string, i: int, token: string) {
      f in files && 0 <= i < |files[f]| && AsksForHeader(mode, files[f][i]) && IsToken(mode, token)
    }

    ghost predicate Includes(f: string, g: string) {
      exists i :: Inlines(f, i, g)
    }

    ghost predicate IsPath(p: seq<string>) {
      p != [] && forall i, j :: 0 <= i < |p| && 0 <= j < |p| && j == i + 1 ==> Includes(p[i], p[j])
    }

    /** g is f or is included by f, directly or not. */
    ghost predicate Reaches(f: string, g: string) {
      exists p :: IsPath(p) && p[0] == f && p[|p| - 1] == g
    }

    lemma ReachesItself(f: string)
      ensures Reaches(f, f)
    {
      assert IsPath([f]);
    }

    lemma ReachesStep(f: string, g: string, h: string)
      requires Reaches(f, g) && Includes(g, h)
      ensures Reaches(f, h)
    {
      var p :| IsPath(p) && p[0] == f && p[|p| - 1] == g;
      assert IsPath(p + [h]);
    }

    lemma ReachesTransitive(f: string, g: string, h: string)
      requires Reaches(f, g) && Reaches(g, h)
      ensures Reaches(f, h)
    {
      var p :| IsPath(p) && p[0] == f && p[|p| - 1] == g;
      var q :| IsPath(q) && q[0] == g && q[|q| - 1] == h;
      var r := p[..|p| - 1] + q;
      assert IsPath(r);
    }

    lemma {:induction false} PathStaysIn(s: set<string>, f: string, p: seq<string>)
      requires f in s && IsPath(p) && p[0] == f
      requires forall x, y :: x in s && Reaches(f, x) && Includes(x, y) ==> y in s
      ensures p[|p| - 1] in s && Reaches(f, p[|p| - 1])
      decreases |p|
    {
      var n := |p| - 1;
      if n == 0 {
        ReachesItself(f);
      } else {
        assert IsPath(p[..n]);
        PathStaysIn(s, f, p[..n]);
        assert Includes(p[n - 1], p[n]);
        ReachesStep(f, p[n - 1], p[n]);
      }
    }

    /** A set that is closed under inclusion wherever f leads contains all that f reaches. */
    lemma ClosedHoldsReachable(s: set<string>, f: string, h: string)
      requires f in s && Reaches(f, h)
      requires forall x, y :: x in s && Reaches(f, x) && Includes(x, y) ==> y in s
      ensures h in s
    {
      var p :| IsPath(p) && p[0] == f && p[|p| - 1] == h;
      PathStaysIn(s, f, p);
    }
  }
}
