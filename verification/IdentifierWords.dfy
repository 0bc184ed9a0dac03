/** Turning the name of an identifier into the words it is made of. */
module IdentifierWords {
  import Text

  predicate IsUpper(c: char) { 'A' <= c <= 'Z' }

  predicate IsLower(c: char) { 'a' <= c <= 'z' }

  predicate IsAlpha(c: char) { IsUpper(c) || IsLower(c) }

  predicate IsDigit(c: char) { '0' <= c <= '9' }

  predicate IsAlNum(c: char) { IsAlpha(c) || IsDigit(c) }

  function ToLower(c: char): char { if IsUpper(c) then c - 'A' + 'a' else c }

  // ----------------------------------------------------------- what should happen

  /** The longest run of digits, or else of lower-case letters, at the start of a string. */
  function Run(s: string, digits: bool): (n: nat)
    ensures n <= |s|
    ensures forall k :: 0 <= k < n ==> if digits then IsDigit(s[k]) else IsLower(s[k])
  {
    if s != "" && (if digits then IsDigit(s[0]) else IsLower(s[0])) then 1 + Run(s[1..], digits) else 0
  }

  /** The longest match of [A-Za-z][a-z]*|\d+ at the start of a string that has one. */
  function WordLength(s: string): (n: nat)
    requires s != "" && IsAlNum(s[0])
    ensures 0 < n <= |s|
  {
    if IsDigit(s[0]) then Run(s, true) else 1 + Run(s[1..], false)
  }

  /** The words of a name, each as long as it can be. */
  function Words(s: string): seq<string>
    decreases |s|
  {
    if s == "" then []
    else if !IsAlNum(s[0]) then Words(s[1..])
    else [s[..WordLength(s)]] + Words(s[WordLength(s)..])
  }

  function Lowered(word: string): (low: string)
    ensures |low| == |word|
  {
    seq(|word|, k requires 0 <= k < |word| => ToLower(word[k]))
  }

  /** The words in lower case with a space between each two. */
  function Spoken(words: seq<string>): string {
    if words == [] then ""
    else Lowered(words[0]) + (if |words| == 1 then "" else " " + Spoken(words[1..]))
  }

  ghost predicate IsWord(w: string) {
    w != "" && IsAlNum(w[0]) && WordLength(w) == |w|
  }

  lemma {:induction false} RunOfRun(s: string, digits: bool)
    ensures Run(s[..Run(s, digits)], digits) == Run(s, digits)
  {
    var n := Run(s, digits);
    if n > 0 {
      assert s[..n][1..] == s[1..][..n - 1];
      RunOfRun(s[1..], digits);
    }
  }

  lemma {:induction false} WordsAreWords(s: string)
    ensures forall i :: 0 <= i < |Words(s)| ==> IsWord(Words(s)[i])
    decreases |s|
  {
    if s != "" && !IsAlNum(s[0]) {
      WordsAreWords(s[1..]);
    } else if s != "" {
      var n := WordLength(s);
      WordsAreWords(s[n..]);
      RunOfRun(s, true);
      RunOfRun(s[1..], false);
      assert s[..n][1..] == s[1..][..n - 1];
    }
  }

  // ------------------------------------------------------------------ what happens

  predicate StartsNewWord(prev: char, c: char) {
    || IsUpper(c)
    || (!IsAlpha(prev) && IsLower(c))
    || (!IsDigit(prev) && IsDigit(c))
  }

  /** The character before the next one, '\0' at the start. */
  function Last(s: string): char { if s == "" then '\0' else s[|s| - 1] }

  /** The words when one more character follows. */
  function WithChar(words: seq<string>, prev: char, c: char): seq<string> {
    if !IsAlNum(c) then words
    else if StartsNewWord(prev, c) || words == [] then words + [[c]]
    else words[..|words| - 1] + [words[|words| - 1] + [c]]
  }

  lemma {:induction false} RunSnoc(s: string, digits: bool, c: char)
    ensures Run(s + [c], digits)
      == if Run(s, digits) == |s| && (if digits then IsDigit(c) else IsLower(c)) then |s| + 1 else Run(s, digits)
  {
    if s != "" {
      assert (s + [c])[1..] == s[1..] + [c];
      RunSnoc(s[1..], digits, c);
    } else {
      assert [c][1..] == "";
    }
  }

  /** A first word grows only if it is all there is. */
  lemma WordLengthSnoc(s: string, c: char)
    requires s != "" && IsAlNum(s[0])
    ensures var n := WordLength(s);
      WordLength(s + [c]) == if n == |s| && IsAlNum(c) && !StartsNewWord(Last(s), c) then n + 1 else n
  {
    RunSnoc(s, true, c);
    RunSnoc(s[1..], false, c);
    assert (s + [c])[1..] == s[1..] + [c];
    if !IsDigit(s[0]) && WordLength(s) == |s| {
      assert |s| > 1 ==> IsLower(s[1..][|s| - 2]);
    }
  }

  lemma WithCharAppend(a: seq<string>, b: seq<string>, prev: char, c: char)
    ensures b != [] ==> WithChar(a + b, prev, c) == a + WithChar(b, prev, c)
    ensures StartsNewWord(prev, c) || !IsAlNum(c) ==> WithChar(a + b, prev, c) == a + WithChar(b, '\0', c)
  {
  }

  /** Cutting a name into longest words is the same as looking at each two neighbouring characters. */
  lemma {:induction false} WordsSnoc(s: string, c: char)
    ensures Words(s + [c]) == WithChar(Words(s), Last(s), c)
    ensures IsAlNum(Last(s)) ==> Words(s) != []
    decreases |s|
  {
    if s == "" {
      assert s + [c] == [c] && Words([c][1..]) == [];
      if IsAlNum(c) { assert [c][..WordLength([c])] == [c]; }
    } else if !IsAlNum(s[0]) {
      assert (s + [c])[1..] == s[1..] + [c];
      WordsSnoc(s[1..], c);
    } else {
      var n := WordLength(s);
      WordLengthSnoc(s, c);
      if WordLength(s + [c]) == n {
        assert (s + [c])[..n] == s[..n] && (s + [c])[n..] == s[n..] + [c];
        WordsSnoc(s[n..], c);
        WithCharAppend([s[..n]], Words(s[n..]), Last(s), c);
      } else {
        assert (s + [c])[..n + 1] == s + [c] && s[..n] == s;
      }
    }
  }

  /** What one more character adds to the spoken words. */
  lemma {:induction false} SpokenSnoc(words: seq<string>, c: char)
    ensures Spoken(words + [[c]]) == Spoken(words) + (if words == [] then "" else " ") + [ToLower(c)]
    ensures words != [] ==>
      Spoken(words[..|words| - 1] + [words[|words| - 1] + [c]]) == Spoken(words) + [ToLower(c)]
  {
    if words != [] {
      var more, longer := words + [[c]], words[..|words| - 1] + [words[|words| - 1] + [c]];
      assert more[1..] == words[1..] + [[c]];
      SpokenSnoc(words[1..], c);
      if |words| > 1 {
        assert longer[1..] == words[1..][..|words| - 2] + [words[1..][|words| - 2] + [c]];
      }
    }
  }

  method ConvertIdentifierNameToWords(name: string) returns (result: string)
    ensures result == Spoken(Words(name))
  {
    result := "";
    var prev, p := '\0', 0;
    while p < |name|
      invariant 0 <= p <= |name| && prev == Last(name[..p])
      invariant result == Spoken(Words(name[..p]))
    {
      var c := name[p];
      assert name[..p + 1] == name[..p] + [c];
      WordsSnoc(name[..p], c);
      SpokenSnoc(Words(name[..p]), c);
      WordsAreWords(name[..p]);
      var startsNewWord := StartsNewWord(prev, c);
      if IsAlNum(c) {
        if startsNewWord && result != "" {
          result := result + " ";
        }
        result := result + [ToLower(c)];
      }
      prev, p := c, p + 1;
    }
    assert name[..p] == name;
  }

  // ----------------------------------------------------- what the spoken words are

  /** Nothing but lower-case letters, digits and single spaces between them. */
  ghost predicate IsTidy(r: string) {
    && (forall k :: 0 <= k < |r| ==> IsLower(r[k]) || IsDigit(r[k]) || (r[k] == ' ' && 0 < k < |r| - 1))
    && (forall k :: 0 < k < |r| ==> r[k - 1] != ' ' || r[k] != ' ')
  }

  lemma {:induction false} FullRun(s: string, digits: bool)
    requires forall k :: 0 <= k < |s| ==> if digits then IsDigit(s[k]) else IsLower(s[k])
    ensures Run(s, digits) == |s|
  {
    if s != "" { FullRun(s[1..], digits); }
  }

  lemma WordIsAlNum(w: string)
    requires IsWord(w)
    ensures forall k :: 0 <= k < |w| ==> IsAlNum(w[k])
    ensures IsWord(Lowered(w))
  {
    if IsDigit(w[0]) { FullRun(Lowered(w), true); } else { FullRun(Lowered(w)[1..], false); }
  }

  lemma {:induction false} SpokenIsTidy(words: seq<string>)
    requires forall i :: 0 <= i < |words| ==> IsWord(words[i])
    ensures IsTidy(Spoken(words)) && (words != [] ==> Spoken(words) != "")
  {
    if words != [] {
      var w, rest := Lowered(words[0]), Spoken(words[1..]);
      WordIsAlNum(words[0]);
      SpokenIsTidy(words[1..]);
      if |words| > 1 {
        assert Spoken(words) == w + ([' '] + rest);
      }
    }
  }

  /** Every name's words are spoken tidily. */
  lemma ConversionIsTidy(name: string)
    ensures IsTidy(Spoken(Words(name)))
  {
    WordsAreWords(name);
    SpokenIsTidy(Words(name));
  }

  lemma {:induction false} RunBeforeSpace(w: string, rest: string, digits: bool)
    requires rest != "" && rest[0] == ' '
    ensures Run(w + rest, digits) == Run(w, digits)
  {
    if w != "" {
      assert (w + rest)[1..] == w[1..] + rest;
      RunBeforeSpace(w[1..], rest, digits);
    } else {
      assert w + rest == rest;
    }
  }

  lemma WordBeforeSpace(w: string, rest: string)
    requires w != "" && IsAlNum(w[0]) && rest != "" && rest[0] == ' '
    ensures WordLength(w + rest) == WordLength(w)
  {
    RunBeforeSpace(w, rest, true);
    RunBeforeSpace(w[1..], rest, false);
    assert (w + rest)[1..] == w[1..] + rest;
  }

  /** Spoken words are heard as they were spoken. */
  lemma {:induction false} WordsOfSpoken(words: seq<string>)
    requires forall i :: 0 <= i < |words| ==> IsWord(words[i])
    ensures |Words(Spoken(words))| == |words|
    ensures forall i :: 0 <= i < |words| ==> Words(Spoken(words))[i] == Lowered(words[i])
  {
    if words != [] {
      var w := Lowered(words[0]);
      WordIsAlNum(words[0]);
      WordsOfSpoken(words[1..]);
      if |words| > 1 {
        var rest := " " + Spoken(words[1..]);
        WordBeforeSpace(w, rest);
        assert (w + rest)[..|w|] == w && (w + rest)[|w|..] == rest && rest[1..] == Spoken(words[1..]);
      } else {
        assert w[..|w|] == w && w[|w|..] == "" && w + "" == w;
      }
    }
  }

  lemma {:induction false} LoweredTwice(words: seq<string>, again: seq<string>)
    requires |again| == |words| && forall i :: 0 <= i < |words| ==> again[i] == Lowered(words[i])
    ensures Spoken(again) == Spoken(words)
  {
    if words != [] {
      assert Lowered(again[0]) == Lowered(words[0]);
      LoweredTwice(words[1..], again[1..]);
    }
  }

  lemma ConversionIsIdempotent(name: string)
    ensures Spoken(Words(Spoken(Words(name)))) == Spoken(Words(name))
  {
    WordsAreWords(name);
    WordsOfSpoken(Words(name));
    LoweredTwice(Words(name), Words(Spoken(Words(name))));
  }

  // --------------------------------------------------------- no letter is lost or changed

  /** Lowering keeps digits and lower-case letters, and the place in the alphabet of others. */
  ghost predicate IsLoweredTo(c: char, d: char) {
    if 'A' <= c <= 'Z' then 'a' <= d <= 'z' && d as int - 'a' as int == c as int - 'A' as int else d == c
  }

  predicate IsLetterOrDigit(c: char) {
    'a' <= c <= 'z' || 'A' <= c <= 'Z' || '0' <= c <= '9'
  }

  /** The letters and digits of a string. */
  function Letters(s: string): string {
    if s == "" then "" else (if IsLetterOrDigit(s[0]) then [s[0]] else "") + Letters(s[1..])
  }

  function Concat(words: seq<string>): string {
    if words == [] then "" else words[0] + Concat(words[1..])
  }

  lemma {:induction false} LettersAppend(a: string, b: string)
    ensures Letters(a + b) == Letters(a) + Letters(b)
  {
    if a == "" {
      assert a + b == b;
    } else {
      LettersAppend(a[1..], b);
      assert (a + b)[1..] == a[1..] + b && (a + b)[0] == a[0];
      Text.ConcatAssociates(if IsLetterOrDigit(a[0]) then [a[0]] else "", Letters(a[1..]), Letters(b));
    }
  }

  lemma {:induction false} AllLetters(s: string)
    requires forall k :: 0 <= k < |s| ==> IsAlNum(s[k])
    ensures Letters(s) == s
  {
    if s != "" { AllLetters(s[1..]); }
  }

  lemma {:induction false} WordsHoldLetters(s: string)
    ensures Concat(Words(s)) == Letters(s)
    decreases |s|
  {
    if s != "" && !IsAlNum(s[0]) {
      WordsHoldLetters(s[1..]);
    } else if s != "" {
      var n := WordLength(s);
      WordsHoldLetters(s[n..]);
      WordsAreWords(s);
      WordIsAlNum(Words(s)[0]);
      AllLetters(s[..n]);
      LettersAppend(s[..n], s[n..]);
      assert s == s[..n] + s[n..];
    }
  }

  lemma LoweredAppend(a: string, b: string)
    ensures Lowered(a + b) == Lowered(a) + Lowered(b)
  {
  }

  lemma {:induction false} SpokenHoldsLetters(words: seq<string>)
    requires forall i :: 0 <= i < |words| ==> IsWord(words[i])
    ensures Letters(Spoken(words)) == Lowered(Concat(words))
  {
    if words != [] {
      var w, rest := Lowered(words[0]), if |words| == 1 then "" else " " + Spoken(words[1..]);
      SpokenHoldsLetters(words[1..]);
      WordIsAlNum(words[0]);
      WordIsAlNum(w);
      AllLetters(w);
      LettersAppend(w, rest);
      LoweredAppend(words[0], Concat(words[1..]));
      assert |words| > 1 ==> rest[1..] == Spoken(words[1..]);
    }
  }

  /** The letters and digits of the result are those of the name, one by one and in order,
    each lowered. */
  lemma ConversionKeepsLetters(name: string)
    ensures var before, after := Letters(name), Letters(Spoken(Words(name)));
      |after| == |before| && forall k :: 0 <= k < |before| ==> IsLoweredTo(before[k], after[k])
  {
    WordsHoldLetters(name);
    WordsAreWords(name);
    SpokenHoldsLetters(Words(name));
  }
}
