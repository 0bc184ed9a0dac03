/** Reading macro definitions. */
module PddmMacros {
  import opened Wrappers
  import opened Text
  import opened PddmSections

  const MACRO_DEFINE := "PDDM-DEFINE"
  const MACRO_DEFINE_END := "PDDM-DEFINE-END"

  datatype Macro = Macro(args: seq<string>, body: string)

  type MacroTable = map<string, Macro>

  datatype Header = Header(name: string, args: seq<string>)

  predicate IsWordChar(c: char) {
    'a' <= c <= 'z' || 'A' <= c <= 'Z' || '0' <= c <= '9' || c == '_'
  }

  predicate IsWord(s: string) {
    s != "" && forall i :: 0 <= i < |s| ==> IsWordChar(s[i])
  }

  /** The longest prefix of word characters. */
  function WordPrefix(s: string): (w: string)
    ensures w <= s && forall i :: 0 <= i < |w| ==> IsWordChar(w[i])
    ensures |w| == |s| || !IsWordChar(s[|w|])
  {
    if s == "" || !IsWordChar(s[0]) then "" else [s[0]] + WordPrefix(s[1..])
  }

  /** The prefix before the first c, or all of s. */
  function Before(s: string, c: char): (p: string)
    ensures p <= s && c !in p
    ensures |p| == |s| || s[|p|] == c
  {
    if s == "" || s[0] == c then "" else [s[0]] + Before(s[1..], c)
  }

  function SplitAt(s: string, c: char): (parts: seq<string>)
    ensures parts != []
    decreases |s|
  {
    var p := Before(s, c);
    if |p| == |s| then [s] else [p] + SplitAt(s[|p| + 1..], c)
  }

  /** The argument names of a definition, unless one is empty, malformed or repeated. */
  function ParseArgs(parts: seq<string>, sofar: seq<string>): Option<seq<string>>
    decreases |parts|
  {
    if parts == [] then Some(sofar)
    else
      var arg := Strip(parts[0]);
      if !IsWord(arg) || arg in sofar then None else ParseArgs(parts[1..], sofar + [arg])
  }

  function ParseArgsStr(inside: string): Option<seq<string>> {
    var argsStr := Strip(inside);
    if argsStr == "" then Some([]) else ParseArgs(SplitAt(argsStr, ','), [])
  }

  function ParseDefineLine(input: string): Option<Header> {
    var line := Strip(if |input| <= 12 then "" else input[12..]);
    var name := WordPrefix(line);
    if name == "" || |name| == |line| || line[|name|] != '(' then None
    else
      var rest := line[|name| + 1..];
      var inside := Before(rest, ')');
      if |inside| + 1 != |rest| then None
      else
        match ParseArgsStr(inside)
        case None => None
        case Some(args) => Some(Header(name, args))
  }

  /** A macro being defined: its header and the lines of its body so far. */
  datatype Open = Open(header: Header, lines: seq<string>) {
    function Close(): Macro { Macro(header.args, JoinBreaks(lines)) }
  }

  /** The table once the open macro, if any, is entered. */
  function Enter(table: MacroTable, cur: Option<Open>): MacroTable {
    match cur
    case None => table
    case Some(open) => table[open.header.name := open.Close()]
  }

  datatype State = State(table: MacroTable, cur: Option<Open>)

  /** The effect of one line; None if it is an error. */
  function ParseLine(st: State, line: string): Option<State> {
    if StartsWith(line, "PDDM-") then
      var directive, table := FirstWord(line), Enter(st.table, st.cur);
      if directive == MACRO_DEFINE then
        match ParseDefineLine(line)
        case None => None
        case Some(header) => if header.name in table then None else Some(State(table, Some(Open(header, []))))
      else if directive == MACRO_DEFINE_END && st.cur.Some? then Some(State(table, None))
      else None
    else if st.cur.Some? then Some(State(st.table, Some(Open(st.cur.value.header, st.cur.value.lines + [line]))))
    else if Strip(line) == "" then Some(st)
    else None
  }

  function ParseLinesFrom(st: State, lines: seq<string>): Option<MacroTable>
    decreases |lines|
  {
    if lines == [] then Some(Enter(st.table, st.cur))
    else
      match ParseLine(st, lines[0])
      case None => None
      case Some(next) => ParseLinesFrom(next, lines[1..])
  }

  function ReadDefinitions(table: MacroTable, lines: seq<string>): Option<MacroTable> {
    ParseLinesFrom(State(table, None), lines)
  }

  /** Definitions only ever add to the table: no macro is redefined. */
  lemma {:induction false} DefinitionsAreKept(st: State, lines: seq<string>)
    requires st.cur.Some? ==> st.cur.value.header.name !in st.table
    ensures var r := ParseLinesFrom(st, lines);
      r.Some? ==> forall name :: name in st.table ==> name in r.value && r.value[name] == st.table[name]
    decreases |lines|
  {
    if lines != [] && ParseLine(st, lines[0]).Some? {
      DefinitionsAreKept(ParseLine(st, lines[0]).value, lines[1..]);
    }
  }

  /** A DEFINE line ends the macro before it: defining macros in one block or in two blocks
    split at a DEFINE line comes to the same. */
  lemma {:induction false} BlocksMayBeSplit(st: State, a: seq<string>, b: seq<string>)
    requires b != [] && StartsWith(b[0], "PDDM-") && FirstWord(b[0]) == MACRO_DEFINE
    ensures ParseLinesFrom(st, a + b) ==
      match ParseLinesFrom(st, a)
      case None => None
      case Some(table) => ReadDefinitions(table, b)
    decreases |a|
  {
    if a == [] {
      assert a + b == b;
    } else {
      assert (a + b)[1..] == a[1..] + b;
      if ParseLine(st, a[0]).Some? {
        BlocksMayBeSplit(ParseLine(st, a[0]).value, a[1..], b);
      }
    }
  }

  lemma {:induction false} JoinBreaksAdd(pieces: seq<string>, last: string)
    ensures JoinBreaks(pieces + [last]) == (if pieces == [] then "" else JoinBreaks(pieces) + "\n") + last
  {
    if |pieces| > 1 {
      JoinBreaksAdd(pieces[1..], last);
      assert (pieces + [last])[1..] == pieces[1..] + [last];
    } else if |pieces| == 1 {
      assert (pieces + [last])[1..] == [last];
    }
  }

  /** A macro whose body grows line by line. */
  class MacroDefinition {
    const args: seq<string>
    var body: string
    var needNewLine: bool
    ghost var lines: seq<string>

    ghost predicate Valid()
      reads this
    {
      body == JoinBreaks(lines) && (needNewLine <==> lines != [])
    }

    constructor (args: seq<string>)
      ensures this.args == args && lines == [] && Valid()
    {
      this.args := args;
      body, needNewLine, lines := "", false, [];
    }

    /** Lines handed to a definition hold no line break, so one is put between any two. */
    method AppendLine(line: string)
      requires Valid() && Unbroken(line)
      modifies this
      ensures Valid() && lines == old(lines) + [line]
    {
      JoinBreaksAdd(lines, line);
      if needNewLine {
        body := body + "\n";
      }
      body := body + line;
      needNewLine := line == "" || line[|line| - 1] != '\n';
      lines := lines + [line];
    }
  }

  class MacroCollection {
    var macros: map<string, MacroDefinition>

    ghost predicate Valid()
      reads this, macros.Values
    {
      && (forall name :: name in macros ==> macros[name].Valid())
      && (forall a, b :: a in macros && b in macros && macros[a] == macros[b] ==> a == b)
    }

    function Table(): MacroTable
      reads this, macros.Values
    {
      map name | name in macros :: Macro(macros[name].args, macros[name].body)
    }

    constructor ()
      ensures macros == map[] && Valid() && Table() == map[]
    {
      macros := map[];
    }

    /** The heap holds the table of a state of the parser, its open macro included. */
    ghost predicate Holds(st: State, current: MacroDefinition?)
      reads this, macros.Values, current
    {
      && Table() == Enter(st.table, st.cur)
      && (st.cur.None? <==> current == null)
      && (current != null ==>
           var h := st.cur.value.header;
           && h.name in macros && macros[h.name] == current
           && current.args == h.args && current.lines == st.cur.value.lines)
    }

    /** Enters a new macro, which then is the open one. */
    method StartMacro(header: Header, ghost st: State, ghost before: MacroDefinition?) returns (current: MacroDefinition)
      requires Valid() && Holds(st, before) && header.name !in macros
      modifies this
      ensures Valid() && fresh(current)
      ensures Holds(State(Enter(st.table, st.cur), Some(Open(header, []))), current)
    {
      ghost var table := Table();
      current := new MacroDefinition(header.args);
      macros := macros[header.name := current];
      assert Table() == table[header.name := Macro(header.args, "")];
    }

    /** Adds a line to the open macro. */
    method ExtendMacro(current: MacroDefinition, line: string, ghost st: State)
      requires Valid() && Holds(st, current) && Unbroken(line)
      modifies current
      ensures Valid()
      ensures Holds(State(st.table, Some(Open(st.cur.value.header, st.cur.value.lines + [line]))), current)
    {
      ghost var table, name := Table(), st.cur.value.header.name;
      current.AppendLine(line);
      assert Table() == table[name := Macro(current.args, current.body)];
    }

    /** False stands for the exception; the table is then of no further use. */
    method ParseLines(lines: seq<string>) returns (ok: bool)
      requires Valid() && AllUnbroken(lines)
      modifies this
      ensures Valid()
      ensures ok <==> ReadDefinitions(old(Table()), lines).Some?
      ensures ok ==> Some(Table()) == ReadDefinitions(old(Table()), lines)
    {
      ghost var st := State(Table(), None);
      var current: MacroDefinition? := null;
      for i := 0 to |lines|
        invariant Valid()
        invariant Holds(st, current)
        invariant current != null ==> fresh(current)
        invariant ReadDefinitions(old(Table()), lines) == ParseLinesFrom(st, lines[i..])
      {
        var line := lines[i];
        ghost var next := ParseLine(st, line);
        assert lines[i..][1..] == lines[i + 1..];
        if StartsWith(line, "PDDM-") {
          var directive := FirstWord(line);
          if directive == MACRO_DEFINE {
            var header := ParseDefineLine(line);
            if header == None || header.value.name in macros { return false; }
            current := StartMacro(header.value, st, current);
          } else if directive == MACRO_DEFINE_END && current != null {
            current := null;
          } else {
            return false;
          }
        } else if current != null {
          ExtendMacro(current, line, st);
        } else if Strip(line) != "" {
          return false;
        }
        st := next.value;
      }
      return true;
    }
  }
}
