/** Lines and words of a text.  The only line break is '\n'. */
module Text {

  predicate StartsWith(s: string, prefix: string) {
    |prefix| <= |s| && s[..|prefix|] == prefix
  }

  /** The part of a line before its first space. */
  function FirstWord(s: string): (w: string)
    ensures ' ' !in w && w <= s
    ensures |w| == |s| || s[|w|] == ' '
  {
    if s == "" || s[0] == ' ' then "" else [s[0]] + FirstWord(s[1..])
  }

  predicate IsSpace(c: char) {
    c in {' ', '\t', '\n', '\r', 11 as char, 12 as char}
  }

  function StripLeft(s: string): (t: string)
    ensures forall c :: c in t ==> c in s
  {
    if s != "" && IsSpace(s[0]) then StripLeft(s[1..]) else s
  }

  function StripRight(s: string): (t: string)
    ensures t <= s
    ensures forall c :: c in t ==> c in s
  {
    if s != "" && IsSpace(s[|s| - 1]) then StripRight(s[..|s| - 1]) else s
  }

  function Strip(s: string): (t: string)
    ensures forall c :: c in t ==> c in s
  {
    StripLeft(StripRight(s))
  }

  /** The lines of a text; a final line break does not start another line. */
  function SplitLines(t: string): (lines: seq<string>)
    ensures t != "" ==> lines != []
  {
    if t == "" then []
    else if t[0] == '\n' then [""] + SplitLines(t[1..])
    else if |t| == 1 then [t]
    else
      var rest := SplitLines(t[1..]);
      [[t[0]] + rest[0]] + rest[1..]
  }

  /** Every line ended by a line break. */
  function Unlines(lines: seq<string>): string {
    if lines == [] then "" else lines[0] + "\n" + Unlines(lines[1..])
  }

  /** The pieces between line breaks; there is always at least one. */
  function SplitBreaks(t: string): (pieces: seq<string>)
    ensures pieces != []
  {
    SplitLines(t + "\n")
  }

  function JoinBreaks(pieces: seq<string>): string {
    if pieces == [] then "" else if |pieces| == 1 then pieces[0]
    else pieces[0] + "\n" + JoinBreaks(pieces[1..])
  }

  predicate Unbroken(line: string) {
    '\n' !in line
  }

  predicate AllUnbroken(lines: seq<string>) {
    forall i :: 0 <= i < |lines| ==> Unbroken(lines[i])
  }

  lemma {:induction false} SplitLinesUnbroken(t: string)
    ensures AllUnbroken(SplitLines(t))
  {
    if t != "" {
      SplitLinesUnbroken(t[1..]);
    }
  }

  lemma {:induction false} SplitFirstLine(line: string, rest: string)
    requires Unbroken(line)
    ensures SplitLines(line + "\n" + rest) == [line] + SplitLines(rest)
  {
    var t := line + "\n" + rest;
    if line == "" {
      assert t[1..] == rest;
    } else {
      SplitFirstLine(line[1..], rest);
      assert t[1..] == line[1..] + "\n" + rest;
      assert [t[0]] + line[1..] == line;
      assert ([line[1..]] + SplitLines(rest))[1..] == SplitLines(rest);
    }
  }

  /** Splitting undoes ending every line with a break. */
  lemma {:induction false} SplitUnlines(lines: seq<string>)
    requires AllUnbroken(lines)
    ensures SplitLines(Unlines(lines)) == lines
  {
    if lines != [] {
      SplitFirstLine(lines[0], Unlines(lines[1..]));
      SplitUnlines(lines[1..]);
    }
  }

  lemma {:induction false} UnlinesAppend(a: seq<string>, b: seq<string>)
    ensures Unlines(a + b) == Unlines(a) + Unlines(b)
  {
    if a == [] {
      assert a + b == b;
    } else {
      UnlinesAppend(a[1..], b);
      assert (a + b)[1..] == a[1..] + b;
    }
  }

  lemma ConcatAssociates<T>(a: seq<T>, b: seq<T>, c: seq<T>)
    ensures a + b + c == a + (b + c)
  {
  }

  lemma {:induction false} JoinIsUnlines(pieces: seq<string>)
    requires pieces != []
    ensures JoinBreaks(pieces) + "\n" == Unlines(pieces)
  {
    if |pieces| > 1 {
      JoinIsUnlines(pieces[1..]);
    } else {
      assert pieces[1..] == [];
    }
  }

  // ------------------------------------------------------ what stripping and splitting mean

  predicate Blank(s: string) {
    forall k :: 0 <= k < |s| ==> IsSpace(s[k])
  }

  predicate EndsInk(t: string) {
    t == "" || !IsSpace(t[|t| - 1])
  }

  /** t is s without the white space after it. */
  ghost predicate TrimsRight(s: string, t: string) {
    EndsInk(t) && exists after :: Blank(after) && s == t + after
  }

  /** t is s without the white space around it. */
  ghost predicate Trims(s: string, t: string) {
    && (t == "" || !IsSpace(t[0])) && EndsInk(t)
    && exists before, after :: Blank(before) && Blank(after) && s == before + t + after
  }

  lemma {:induction false} StripRightPadded(t: string, after: string)
    requires EndsInk(t) && Blank(after)
    ensures StripRight(t + after) == t
  {
    if after == "" {
      assert t + after == t;
    } else {
      assert (t + after)[..|t + after| - 1] == t + after[..|after| - 1];
      StripRightPadded(t, after[..|after| - 1]);
    }
  }

  lemma {:induction false} StripRightParts(s: string) returns (after: string)
    ensures Blank(after) && s == StripRight(s) + after && EndsInk(StripRight(s))
  {
    after := "";
    if s != "" && IsSpace(s[|s| - 1]) {
      var n := |s| - 1;
      after := StripRightParts(s[..n]);
      assert s == StripRight(s) + (after + [s[n]]);
      after := after + [s[n]];
    }
  }

  lemma {:induction false} StripLeftPadded(before: string, t: string)
    requires Blank(before) && (t == "" || !IsSpace(t[0]))
    ensures StripLeft(before + t) == t
  {
    if before == "" {
      assert before + t == t;
    } else {
      assert (before + t)[1..] == before[1..] + t;
      StripLeftPadded(before[1..], t);
    }
  }

  lemma {:induction false} StripLeftParts(s: string) returns (before: string)
    ensures Blank(before) && s == before + StripLeft(s)
    ensures StripLeft(s) == "" || !IsSpace(StripLeft(s)[0])
    ensures EndsInk(s) ==> EndsInk(StripLeft(s))
  {
    before := "";
    if s != "" && IsSpace(s[0]) {
      before := StripLeftParts(s[1..]);
      assert s == [s[0]] + before + StripLeft(s);
      before := [s[0]] + before;
    }
  }

  lemma StripRightIff(s: string, t: string)
    ensures StripRight(s) == t <==> TrimsRight(s, t)
  {
    var after := StripRightParts(s);
    if TrimsRight(s, t) {
      var rest :| Blank(rest) && s == t + rest;
      StripRightPadded(t, rest);
    }
  }

  lemma StripIff(s: string, t: string)
    ensures Strip(s) == t <==> Trims(s, t)
  {
    var after := StripRightParts(s);
    var before := StripLeftParts(StripRight(s));
    assert s == before + Strip(s) + after;
    if Trims(s, t) {
      var pre, post :| Blank(pre) && Blank(post) && s == pre + t + post;
      if t == "" {
        StripRightPadded("", pre + post);
        assert s == "" + (pre + post);
      } else {
        StripRightPadded(pre + t, post);
        StripLeftPadded(pre, t);
      }
    }
  }

  /** Splitting loses nothing but whether the last line was ended by a break. */
  lemma {:induction false} SplitLinesLosesNothing(t: string)
    ensures AllUnbroken(SplitLines(t))
    ensures Unlines(SplitLines(t)) == if t == "" || t[|t| - 1] == '\n' then t else t + "\n"
  {
    SplitLinesUnbroken(t);
    if t != "" {
      var rest := SplitLines(t[1..]);
      SplitLinesLosesNothing(t[1..]);
      assert t == [t[0]] + t[1..];
      if t[0] == '\n' {
        assert ([""] + rest)[1..] == rest;
      } else if |t| == 1 {
        assert [t][1..] == [];
      } else {
        var first := [[t[0]] + rest[0]];
        assert (first + rest[1..])[1..] == rest[1..];
        assert [t[0]] + Unlines(rest) == ([t[0]] + rest[0]) + "\n" + Unlines(rest[1..]);
      }
    }
  }

  /** The pieces between the breaks of a text, joined, are the text. */
  lemma SplitBreaksJoins(t: string)
    ensures AllUnbroken(SplitBreaks(t)) && JoinBreaks(SplitBreaks(t)) == t
  {
    SplitLinesLosesNothing(t + "\n");
    JoinIsUnlines(SplitBreaks(t));
    var joined := JoinBreaks(SplitBreaks(t));
    assert (joined + "\n")[..|joined|] == (t + "\n")[..|t|];
  }
}
