/** The recursive traversal that writes the fused file. */
module Fuser {
  import opened HeaderFusion

  /** Where a piece of the output comes from. */
  datatype Origin = FromLine(file: string, index: int) | OnceWritten(token: string)

  function TextOf(t: Tree, o: Origin): string {
    match o
    case FromLine(f, i) => if f in t.files && 0 <= i < |t.files[f]| then t.files[f][i].text else ""
    case OnceWritten(_) => HeaderInclude(t.mode)
  }

  function Render(t: Tree, trace: seq<Origin>): seq<string> {
    seq(|trace|, k requires 0 <= k < |trace| => TextOf(t, trace[k]))
  }

  lemma RenderAppend(t: Tree, trace: seq<Origin>, o: Origin)
    ensures Render(t, trace + [o]) == Render(t, trace) + [TextOf(t, o)]
  {
  }

  // ------------------------------------------------------- what the output satisfies

  ghost predicate NoRepeats(trace: seq<Origin>) {
    forall a, b :: 0 <= a < b < |trace| ==> trace[a] != trace[b]
  }

  /** The lines of one file come in their order. */
  ghost predicate InFileOrder(trace: seq<Origin>) {
    forall a, b :: 0 <= a < b < |trace| && trace[a].FromLine? && trace[b].FromLine? && trace[a].file == trace[b].file
      ==> trace[a].index < trace[b].index
  }

  /** Only copied lines of processed files and includes that are noted are written. */
  ghost predicate Accounted(t: Tree, processed: set<string>, trace: seq<Origin>) {
    && (forall o :: o in trace && o.FromLine? ==>
         o.file in processed && !IsToken(t.mode, o.file) && t.Copies(o.file, o.index))
    && (forall o :: o in trace && o.OnceWritten? ==> o.token in processed && IsToken(t.mode, o.token))
    && (forall x :: x in processed && IsToken(t.mode, x) ==> OnceWritten(x) in trace)
  }

  ghost predicate Complete(t: Tree, processed: set<string>, trace: seq<Origin>, f: string) {
    && f in t.files
    && (forall g :: t.Includes(f, g) ==> g in processed)
    && (forall i :: t.Copies(f, i) ==> FromLine(f, i) in trace)
    && (forall i, token :: t.Notes(f, i, token) ==> token in processed)
  }

  /** All processed files other than those still being read are written completely. */
  ghost predicate Settled(t: Tree, processed: set<string>, trace: seq<Origin>, open: set<string>) {
    forall f :: f in processed && !IsToken(t.mode, f) && f !in open ==> Complete(t, processed, trace, f)
  }

  /** All of a file that was included before a line, and all that the file leads to, is
    written before the line, unless the file leads back to the one the line is in. */
  ghost predicate UsableAt(t: Tree, sofar: seq<Origin>, f: string, j: int) {
    forall i, g, h, m ::
      i < j && t.Inlines(f, i, g) && !t.Reaches(g, f) && t.Reaches(g, h) && t.Copies(h, m) ==> FromLine(h, m) in sofar
  }

  ghost predicate BeforeUse(t: Tree, trace: seq<Origin>) {
    forall k :: 0 <= k < |trace| && trace[k].FromLine? ==> UsableAt(t, trace[..k], trace[k].file, trace[k].index)
  }

  ghost predicate Good(t: Tree, processed: set<string>, trace: seq<Origin>, open: set<string>) {
    && open <= processed
    && Accounted(t, processed, trace)
    && Settled(t, processed, trace, open)
    && NoRepeats(trace) && InFileOrder(trace) && BeforeUse(t, trace)
  }

  /** How far an open file has been read: the first n lines are dealt with. */
  ghost predicate ReadUpTo(t: Tree, processed: set<string>, trace: seq<Origin>, f: string, n: int) {
    && (forall i, g :: i < n && t.Inlines(f, i, g) ==> g in processed)
    && (forall i :: i < n && t.Copies(f, i) ==> FromLine(f, i) in trace)
    && (forall i, token :: i < n && t.Notes(f, i, token) ==> token in processed)
    && (forall o :: o in trace && o.FromLine? && o.file == f ==> o.index < n)
  }

  /** Some file that `path` leads to asks for the token's include. */
  ghost predicate Noted(t: Tree, path: string, token: string) {
    exists f, i :: t.Reaches(path, f) && t.Notes(f, i, token)
  }

  lemma AppendKeepsOrder(t: Tree, trace: seq<Origin>, o: Origin)
    requires NoRepeats(trace) && InFileOrder(trace) && BeforeUse(t, trace)
    requires o !in trace
    requires o.FromLine? ==> UsableAt(t, trace, o.file, o.index)
    requires o.FromLine? ==> forall x :: x in trace && x.FromLine? && x.file == o.file ==> x.index < o.index
    ensures NoRepeats(trace + [o]) && InFileOrder(trace + [o]) && BeforeUse(t, trace + [o])
  {
    var trace' := trace + [o];
    forall k | 0 <= k < |trace'| && trace'[k].FromLine?
      ensures UsableAt(t, trace'[..k], trace'[k].file, trace'[k].index)
    {
      assert trace'[..k] == trace[..k];
      assert trace[..|trace|] == trace;
    }
  }

  lemma AppendKeepsSettled(t: Tree, processed: set<string>, trace: seq<Origin>, open: set<string>, o: Origin,
                           processed': set<string>)
    requires Settled(t, processed, trace, open) && processed <= processed'
    requires forall f :: f in processed' && f !in processed ==> IsToken(t.mode, f) || f in open
    ensures Settled(t, processed', trace + [o], open)
  {
    forall f | f in processed' && !IsToken(t.mode, f) && f !in open
      ensures Complete(t, processed', trace + [o], f)
    {
      assert Complete(t, processed, trace, f);
    }
  }

  lemma ReachedIsNoToken(t: Tree, g: string, x: string)
    requires WellFormed(t.files) && !IsToken(t.mode, g) && t.Reaches(g, x)
    ensures !IsToken(t.mode, x)
  {
    var p :| t.IsPath(p) && p[0] == g && p[|p| - 1] == x;
    if |p| > 1 {
      assert t.Includes(p[|p| - 2], x);
      var i :| t.Inlines(p[|p| - 2], i, x);
      TokensAreNotInlined(t.mode, t.files[p[|p| - 2]][i], x);
    }
  }

  lemma ReachedIsSettled(t: Tree, processed: set<string>, trace: seq<Origin>, open: set<string>, f: string, g: string,
                         x: string)
    requires WellFormed(t.files) && Settled(t, processed, trace, open) && !IsToken(t.mode, g)
    requires forall y :: y in open ==> t.Reaches(y, f)
    requires !t.Reaches(g, f) && t.Reaches(g, x) && x in processed
    ensures Complete(t, processed, trace, x)
  {
    if x in open {
      t.ReachesTransitive(g, x, f);
    }
    ReachedIsNoToken(t, g, x);
  }

  /** Everything a file included so far leads to is written, unless it leads back. */
  lemma IncludedIsUsable(t: Tree, processed: set<string>, trace: seq<Origin>, open: set<string>, f: string, n: int)
    requires WellFormed(t.files) && Settled(t, processed, trace, open) && ReadUpTo(t, processed, trace, f, n)
    requires forall x :: x in open ==> t.Reaches(x, f)
    ensures UsableAt(t, trace, f, n)
  {
    forall i, g, h, m | i < n && t.Inlines(f, i, g) && !t.Reaches(g, f) && t.Reaches(g, h) && t.Copies(h, m)
      ensures FromLine(h, m) in trace
    {
      TokensAreNotInlined(t.mode, t.files[f][i], g);
      forall x, y | x in processed && t.Reaches(g, x) && t.Includes(x, y)
        ensures y in processed
      {
        ReachedIsSettled(t, processed, trace, open, f, g, x);
      }
      t.ClosedHoldsReachable(processed, g, h);
      ReachedIsSettled(t, processed, trace, open, f, g, h);
    }
  }

  lemma LineIsRead(t: Tree, processed: set<string>, trace: seq<Origin>, f: string, i: int)
    requires ReadUpTo(t, processed, trace, f, i) && t.Copies(f, i)
    ensures ReadUpTo(t, processed, trace + [FromLine(f, i)], f, i + 1)
  {
  }

  /** Writing the next ordinary line of an open file. */
  lemma LineKeepsGood(t: Tree, processed: set<string>, trace: seq<Origin>, open: set<string>, f: string, i: int)
    requires WellFormed(t.files) && Good(t, processed, trace, open) && ReadUpTo(t, processed, trace, f, i)
    requires f in processed && !IsToken(t.mode, f) && t.Copies(f, i)
    requires forall x :: x in open ==> t.Reaches(x, f)
    ensures Good(t, processed, trace + [FromLine(f, i)], open)
    ensures ReadUpTo(t, processed, trace + [FromLine(f, i)], f, i + 1)
  {
    var o := FromLine(f, i);
    IncludedIsUsable(t, processed, trace, open, f, i);
    AppendKeepsOrder(t, trace, o);
    AppendKeepsSettled(t, processed, trace, open, o, processed);
    LineIsRead(t, processed, trace, f, i);
  }

  /** Writing an include that is noted. */
  lemma OnceKeepsGood(t: Tree, processed: set<string>, trace: seq<Origin>, open: set<string>, f: string, i: int,
                      token: string)
    requires Good(t, processed, trace, open) && ReadUpTo(t, processed, trace, f, i)
    requires token !in processed && IsToken(t.mode, token) && t.Notes(f, i, token)
    ensures Good(t, processed + {token}, trace + [OnceWritten(token)], open)
    ensures ReadUpTo(t, processed + {token}, trace + [OnceWritten(token)], f, i + 1)
  {
    var o := OnceWritten(token);
    AppendKeepsOrder(t, trace, o);
    AppendKeepsSettled(t, processed, trace, open, o, processed + {token});
  }

  /** A line that neither is copied nor asks for a header is read once what it includes is. */
  lemma OtherLineIsRead(t: Tree, processed: set<string>, trace: seq<Origin>, f: string, i: int)
    requires ReadUpTo(t, processed, trace, f, i) && f in t.files && 0 <= i < |t.files[f]|
    requires !IsOrdinary(t.mode, t.files[f][i])
    requires forall path :: Leads(t.mode, t.files[f][i], path) ==> path in processed
    requires forall token :: IsToken(t.mode, token) && AsksForHeader(t.mode, t.files[f][i]) ==> token in processed
    ensures ReadUpTo(t, processed, trace, f, i + 1)
  {
  }

  class Fuser {
    const t: Tree
    var processed: set<string>
    var output: seq<string>
    ghost var trace: seq<Origin>

    constructor (t: Tree)
      ensures this.t == t && processed == {} && output == [] && trace == []
    {
      this.t := t;
      processed, output, trace := {}, [], [];
    }

    ghost predicate Valid(open: set<string>)
      reads this
    {
      WellFormed(t.files) && Good(t, processed, trace, open) && output == Render(t, trace)
    }

    /** What a (partial) traversal may have added since `processed` and `trace` were p and tr. */
    ghost predicate Added(p: set<string>, tr: seq<Origin>, path: string)
      reads this
    {
      && p <= processed && tr <= trace
      && (forall o :: o in trace && o !in tr && o.FromLine? ==> o.file !in p)
      && (forall f :: f in processed && f !in p && !IsToken(t.mode, f) ==> t.Reaches(path, f))
      && (forall x :: x in processed && x !in p && IsToken(t.mode, x) ==> Noted(t, path, x))
    }

    /** Inlines a file unless that has been done; false if some file is missing.  `open` are
      the files whose lines are being read. */
    method ProcessFile(path: string, ghost open: set<string>) returns (ok: bool)
      requires Valid(open) && !IsToken(t.mode, path)
      requires forall x :: x in open ==> t.Reaches(x, path)
      modifies this
      ensures ok ==> Valid(open) && path in processed && Added(old(processed), old(trace), path)
      ensures !ok ==> exists g :: t.Reaches(path, g) && g !in t.files
      decreases t.files.Keys - processed, 0
    {
      if path in processed { return true; }
      t.ReachesItself(path);
      if path !in t.files { return false; }
      ghost var p, tr, inner := processed, trace, open + {path};
      processed := processed + {path};
      for i := 0 to |t.files[path]|
        invariant Valid(inner) && path in processed
        invariant ReadUpTo(t, processed, trace, path, i)
        invariant Added(p, tr, path)
      {
        ok := ProcessLine(path, i, inner, p, tr);
        if !ok { return; }
      }
      return true;
    }

    /** Copies an ordinary line. */
    method WriteLine(path: string, i: nat, text: string, ghost inner: set<string>, ghost p: set<string>,
                     ghost tr: seq<Origin>)
      requires Valid(inner) && path in inner && !IsToken(t.mode, path)
      requires t.Copies(path, i) && text == t.files[path][i].text
      requires forall x :: x in inner ==> t.Reaches(x, path)
      requires ReadUpTo(t, processed, trace, path, i) && Added(p, tr, path) && path !in p
      modifies this
      ensures Valid(inner) && ReadUpTo(t, processed, trace, path, i + 1) && Added(p, tr, path)
      ensures processed == old(processed)
    {
      LineKeepsGood(t, processed, trace, inner, path, i);
      RenderAppend(t, trace, FromLine(path, i));
      output := output + [text];
      trace := trace + [FromLine(path, i)];
    }

    /** Writes an include that is written once and notes it as processed. */
    method WriteOnce(path: string, i: nat, token: string, text: string, ghost inner: set<string>, ghost p: set<string>,
                     ghost tr: seq<Origin>)
      requires Valid(inner) && path in inner && IsToken(t.mode, token) && token !in processed
      requires t.Notes(path, i, token) && text == HeaderInclude(t.mode)
      requires t.Reaches(path, path)
      requires ReadUpTo(t, processed, trace, path, i) && Added(p, tr, path)
      modifies this
      ensures Valid(inner) && ReadUpTo(t, processed, trace, path, i + 1) && Added(p, tr, path)
    {
      OnceKeepsGood(t, processed, trace, inner, path, i, token);
      RenderAppend(t, trace, OnceWritten(token));
      assert Noted(t, path, token);
      processed := processed + {token};
      output := output + [text];
      trace := trace + [OnceWritten(token)];
    }

    /** Deals with one line of an open file. */
    method ProcessLine(path: string, i: nat, ghost inner: set<string>, ghost p: set<string>, ghost tr: seq<Origin>)
        returns (ok: bool)
      requires Valid(inner) && path in inner && !IsToken(t.mode, path)
      requires path in t.files && i < |t.files[path]|
      requires forall x :: x in inner ==> t.Reaches(x, path)
      requires ReadUpTo(t, processed, trace, path, i) && Added(p, tr, path) && path !in p
      modifies this
      ensures ok ==> Valid(inner) && ReadUpTo(t, processed, trace, path, i + 1) && Added(p, tr, path)
      ensures !ok ==> exists g :: t.Reaches(path, g) && g !in t.files
      decreases t.files.Keys - processed, 2
    {
      ActionsAreRight(t.mode, t.files[path][i]);
      match ActionOf(t.mode, t.files[path][i])
      case Drop =>
        OtherLineIsRead(t, processed, trace, path, i);
        return true;
      case Copy(text) =>
        WriteLine(path, i, text, inner, p, tr);
        return true;
      case Once(token, text) =>
        if token !in processed {
          WriteOnce(path, i, token, text, inner, p, tr);
        } else {
          OtherLineIsRead(t, processed, trace, path, i);
        }
        return true;
      case Inline(q) =>
        TokensAreNotInlined(t.mode, t.files[path][i], q);
        ok := InlineFile(path, i, q, inner, p, tr);
    }

    lemma AddedTwice(p: set<string>, tr: seq<Origin>, p1: set<string>, tr1: seq<Origin>, path: string, q: string)
      requires t.Reaches(path, q) && p <= p1 && tr <= tr1
      requires forall o :: o in tr1 && o !in tr && o.FromLine? ==> o.file !in p
      requires forall f :: f in p1 && f !in p && !IsToken(t.mode, f) ==> t.Reaches(path, f)
      requires forall x :: x in p1 && x !in p && IsToken(t.mode, x) ==> Noted(t, path, x)
      requires Added(p1, tr1, q)
      ensures Added(p, tr, path)
    {
      forall f | f in processed && f !in p && !IsToken(t.mode, f)
        ensures t.Reaches(path, f)
      {
        if f !in p1 {
          t.ReachesTransitive(path, q, f);
        }
      }
      forall x | x in processed && x !in p && IsToken(t.mode, x)
        ensures Noted(t, path, x)
      {
        if x !in p1 {
          var f, i :| t.Reaches(q, f) && t.Notes(f, i, x);
          t.ReachesTransitive(path, q, f);
        }
      }
    }

    /** The recursive call for an include at line i of an open file. */
    method InlineFile(path: string, i: nat, q: string, ghost inner: set<string>, ghost p: set<string>,
                      ghost tr: seq<Origin>) returns (ok: bool)
      requires Valid(inner) && path in inner && !IsToken(t.mode, q) && t.Inlines(path, i, q)
      requires forall x :: x in inner ==> t.Reaches(x, path)
      requires ReadUpTo(t, processed, trace, path, i) && Added(p, tr, path)
      modifies this
      ensures ok ==> Valid(inner) && ReadUpTo(t, processed, trace, path, i + 1) && Added(p, tr, path)
      ensures !ok ==> exists g :: t.Reaches(path, g) && g !in t.files
      decreases t.files.Keys - processed, 1
    {
      assert t.Includes(path, q);
      forall x | x in inner
        ensures t.Reaches(x, q)
      {
        t.ReachesStep(x, path, q);
      }
      ghost var p1, tr1 := processed, trace;
      ok := ProcessFile(q, inner);
      if ok {
        LinesAreSorted(t.mode, t.files[path][i]);
        LeadsToOne(t.mode, t.files[path][i], q);
        OtherLineIsRead(t, processed, trace, path, i);
        AddedTwice(p, tr, p1, tr1, path, q);
      } else {
        ghost var g :| t.Reaches(q, g) && g !in t.files;
        t.ReachesTransitive(path, q, g);
      }
    }
  }

  /** What fusing a tree produces: every ordinary line of every file the seed leads to,
    exactly once; an include of an already fused header at most once, and only if some
    file asks for it; and everything before it is used. */
  ghost predicate IsFused(t: Tree, processed: set<string>, trace: seq<Origin>) {
    var seed := t.mode.Seed();
    && (forall f :: !IsToken(t.mode, f) ==> (f in processed <==> t.Reaches(seed, f)))
    && (forall f, i :: FromLine(f, i) in trace <==> t.Reaches(seed, f) && t.Copies(f, i))
    && (forall x :: OnceWritten(x) in trace <==> Noted(t, seed, x))
    && NoRepeats(trace) && InFileOrder(trace) && BeforeUse(t, trace)
  }

  /** A traversal that ends without open files has fused the tree. */
  lemma SettledIsFused(t: Tree, processed: set<string>, trace: seq<Origin>)
    requires WellFormed(t.files) && Good(t, processed, trace, {}) && t.mode.Seed() in processed
    requires forall f :: f in processed && !IsToken(t.mode, f) ==> t.Reaches(t.mode.Seed(), f)
    requires forall x :: x in processed && IsToken(t.mode, x) ==> Noted(t, t.mode.Seed(), x)
    ensures IsFused(t, processed, trace)
    ensures forall g :: t.Reaches(t.mode.Seed(), g) ==> g in t.files
  {
    var seed := t.mode.Seed();
    SeedsAreNotTokens(t.mode);
    forall g | t.Reaches(seed, g)
      ensures g in processed && !IsToken(t.mode, g) && Complete(t, processed, trace, g)
    {
      forall x, y | x in processed && t.Reaches(seed, x) && t.Includes(x, y)
        ensures y in processed
      {
        ReachedIsNoToken(t, seed, x);
        assert Complete(t, processed, trace, x);
      }
      t.ClosedHoldsReachable(processed, seed, g);
      ReachedIsNoToken(t, seed, g);
    }
    forall f, i, x | t.Reaches(seed, f) && t.Notes(f, i, x)
      ensures OnceWritten(x) in trace
    {
      assert Complete(t, processed, trace, f);
    }
  }

  lemma WrittenIsShown(t: Tree, trace: seq<Origin>, o: Origin)
    requires o in trace
    ensures TextOf(t, o) in Render(t, trace)
  {
    var k :| 0 <= k < |trace| && trace[k] == o;
    assert Render(t, trace)[k] == TextOf(t, o);
  }

  /** What has become of a line of a fused file: its include has been followed, or an
    include of a fused header stands in the output, or the line itself does. */
  ghost predicate IsDealtWith(mode: Mode, line: Line, processed: set<string>, output: seq<string>) {
    && (line.kind.SrcInclude? && (mode.GmockAllCc? || mode.GtestAllCc?) ==> line.kind.file in processed)
    && (line.kind.GmockInclude? && mode.GmockH? ==> INCLUDE_DIR + line.kind.file in processed)
    && (line.kind.GtestInclude? && mode.GtestH? ==> INCLUDE_DIR + line.kind.file in processed)
    && (line.kind == GtestInclude(SPI_HEADER) && mode.GtestAllCc? ==> INCLUDE_DIR + SPI_HEADER in processed)
    && (line.kind.GmockInclude? && mode.GmockAllCc? ==> "#include \"gmock/gmock.h\"\n" in output)
    && (line.kind.GtestInclude? && (mode.GmockH? || (mode.GtestAllCc? && line.kind.file != SPI_HEADER))
        ==> "#include \"gtest/gtest.h\"\n" in output)
    && (line.kind.Plain? ==> line.text in output)
    && (line.kind.SrcInclude? && (mode.GmockH? || mode.GtestH?) ==> line.text in output)
    && (line.kind.GmockInclude? && (mode.GtestH? || mode.GtestAllCc?) ==> line.text in output)
  }

  lemma FusedLinesAreDealtWith(t: Tree, processed: set<string>, trace: seq<Origin>, f: string, i: nat)
    requires WellFormed(t.files) && IsFused(t, processed, trace)
    requires f in t.files && f in processed && !IsToken(t.mode, f) && i < |t.files[f]|
    ensures IsDealtWith(t.mode, t.files[f][i], processed, Render(t, trace))
  {
    var mode, line, seed, output := t.mode, t.files[f][i], t.mode.Seed(), Render(t, trace);
    if IsOrdinary(mode, line) {
      WrittenIsShown(t, trace, FromLine(f, i));
    }
    if AsksForHeader(mode, line) {
      var token := if mode.GmockAllCc? then GMOCK_H_SEED else GTEST_H_SEED;
      assert t.Notes(f, i, token);
      WrittenIsShown(t, trace, OnceWritten(token));
    }
    forall path | Leads(mode, line, path)
      ensures path in processed
    {
      assert t.Inlines(f, i, path);
      t.ReachesStep(seed, f, path);
      TokensAreNotInlined(mode, line, path);
    }
  }

  /** Where each traversal starts. */
  ghost predicate HasSeed(mode: Mode, processed: set<string>) {
    match mode
    case GmockH => "include/gmock/gmock.h" in processed
    case GmockAllCc => "src/gmock-all.cc" in processed
    case GtestH => "include/gtest/gtest.h" in processed
    case GtestAllCc => "src/gtest-all.cc" in processed
  }

  /** Runs a traversal from its seed; false if a file is missing. */
  method Fuse(t: Tree) returns (ok: bool, fuser: Fuser)
    requires WellFormed(t.files)
    ensures fuser.t == t
    ensures ok <==> forall g :: t.Reaches(t.mode.Seed(), g) ==> g in t.files
    ensures ok ==> IsFused(t, fuser.processed, fuser.trace) && fuser.output == Render(t, fuser.trace)
    ensures ok ==> HasSeed(t.mode, fuser.processed)
    ensures ok ==> forall f, i ::
                     f in fuser.processed && !IsToken(t.mode, f) && f in t.files && 0 <= i < |t.files[f]| ==>
                     IsDealtWith(t.mode, t.files[f][i], fuser.processed, fuser.output)
  {
    fuser := new Fuser(t);
    SeedsAreNotTokens(t.mode);
    ok := fuser.ProcessFile(t.mode.Seed(), {});
    if ok {
      SettledIsFused(t, fuser.processed, fuser.trace);
      forall f, i | f in fuser.processed && !IsToken(t.mode, f) && f in t.files && 0 <= i < |t.files[f]|
        ensures IsDealtWith(t.mode, t.files[f][i], fuser.processed, fuser.output)
      {
        FusedLinesAreDealtWith(t, fuser.processed, fuser.trace, f, i);
      }
    }
  }
}
