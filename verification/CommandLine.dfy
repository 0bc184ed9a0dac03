/** Google Mock's command line flags: parsing them and removing them from argv. */
module CommandLine {
  import opened Wrappers
  import opened Text

  const PREFIX := "--gmock_"
  const CATCH_LEAKED_MOCKS := "catch_leaked_mocks"
  const VERBOSE := "verbose"

  /** The value of the flag in a string of the form "--gmock_flag=value". */
  function ParseFlagValue(str: string, flag: string, defOptional: bool): Option<string> {
    var flagStr := PREFIX + flag;
    if !StartsWith(str, flagStr) then None
    else
      var rest := str[|flagStr|..];
      if defOptional && rest == "" then Some("")
      else if rest == "" || rest[0] != '=' then None
      else Some(rest[1..])
  }

  /** The strings that give a flag a value, written out. */
  predicate GivesValue(str: string, flag: string, defOptional: bool, value: string) {
    || str == "--gmock_" + flag + "=" + value
    || (defOptional && value == "" && str == "--gmock_" + flag)
  }

  lemma FlagValueIff(str: string, flag: string, defOptional: bool, value: string)
    ensures ParseFlagValue(str, flag, defOptional) == Some(value) <==> GivesValue(str, flag, defOptional, value)
  {
    var flagStr := PREFIX + flag;
    if GivesValue(str, flag, defOptional, value) {
      assert str[..|flagStr|] == flagStr;
      assert str == flagStr + "=" + value ==> str[|flagStr|..] == "=" + value;
      assert str == flagStr ==> str[|flagStr|..] == "";
    }
    if ParseFlagValue(str, flag, defOptional) == Some(value) {
      var rest := str[|flagStr|..];
      assert str == flagStr + rest;
      assert rest != "" ==> rest == "=" + rest[1..];
    }
  }

  predicate IsTrue(value: string) {
    value == "" || value[0] !in {'0', 'f', 'F'}
  }

  class Flags {
    var catchLeakedMocks: bool
    var verbose: string
  }

  /** False, and no change, if the string is not this flag. */
  method ParseBoolFlag(str: string, flag: string, flags: Flags) returns (ok: bool)
    modifies flags`catchLeakedMocks
    ensures ok == ParseFlagValue(str, flag, true).Some?
    ensures flags.catchLeakedMocks == if ok then IsTrue(ParseFlagValue(str, flag, true).value) else old(flags.catchLeakedMocks)
  {
    var value := ParseFlagValue(str, flag, true);
    if value.None? { return false; }
    flags.catchLeakedMocks := IsTrue(value.value);
    return true;
  }

  method ParseStringFlag(str: string, flag: string, flags: Flags) returns (ok: bool)
    modifies flags`verbose
    ensures ok == ParseFlagValue(str, flag, false).Some?
    ensures flags.verbose == if ok then ParseFlagValue(str, flag, false).value else old(flags.verbose)
  {
    var value := ParseFlagValue(str, flag, false);
    if value.None? { return false; }
    flags.verbose := value.value;
    return true;
  }

  // ----------------------------------------------------------- what should happen

  function LeakValue(arg: string): Option<string> { ParseFlagValue(arg, CATCH_LEAKED_MOCKS, true) }

  function VerboseValue(arg: string): Option<string> { ParseFlagValue(arg, VERBOSE, false) }

  predicate IsMockFlag(arg: string) {
    LeakValue(arg).Some? || VerboseValue(arg).Some?
  }

  /** The arguments that are not Google Mock flags, in order. */
  function Kept(args: seq<string>): (kept: seq<string>)
    ensures |kept| <= |args|
  {
    if args == [] then [] else (if IsMockFlag(args[0]) then [] else [args[0]]) + Kept(args[1..])
  }

  /** The last of the values that the arguments give to a flag, or the value it had. */
  function LastLeak(args: seq<string>, start: bool): bool {
    if args == [] then start
    else
      var n := |args| - 1;
      if LeakValue(args[n]).Some? then IsTrue(LeakValue(args[n]).value) else LastLeak(args[..n], start)
  }

  function LastVerbose(args: seq<string>, start: string): string {
    if args == [] then start
    else
      var n := |args| - 1;
      if VerboseValue(args[n]).Some? then VerboseValue(args[n]).value else LastVerbose(args[..n], start)
  }

  /** The argument takes the flag variables from leak and verbose to leak' and verbose'. */
  ghost predicate SetBy(arg: string, leak: bool, verbose: string, leak': bool, verbose': string) {
    && leak' == (if LeakValue(arg).Some? then IsTrue(LeakValue(arg).value) else leak)
    && verbose' == if VerboseValue(arg).Some? then VerboseValue(arg).value else verbose
  }

  lemma {:induction false} KeptIsExact(args: seq<string>)
    ensures forall i :: 0 <= i < |Kept(args)| ==> !IsMockFlag(Kept(args)[i])
    ensures forall arg :: !IsMockFlag(arg) ==> multiset(Kept(args))[arg] == multiset(args)[arg]
  {
    if args != [] {
      KeptIsExact(args[1..]);
      assert args == [args[0]] + args[1..];
    }
  }

  lemma {:induction false} KeptAppend(a: seq<string>, b: seq<string>)
    ensures Kept(a + b) == Kept(a) + Kept(b)
  {
    if a == [] {
      assert a + b == b;
    } else {
      KeptAppend(a[1..], b);
      var first := if IsMockFlag(a[0]) then [] else [a[0]];
      assert (a + b)[1..] == a[1..] + b;
      assert first + Kept(a[1..]) + Kept(b) == first + (Kept(a[1..]) + Kept(b));
    }
  }

  /** No argument is a value for both flags. */
  lemma FlagsDoNotOverlap(arg: string)
    ensures LeakValue(arg).None? || VerboseValue(arg).None?
  {
    assert (PREFIX + CATCH_LEAKED_MOCKS)[8] == 'c' && (PREFIX + VERBOSE)[8] == 'v';
    if LeakValue(arg).Some? { assert arg[..|PREFIX + CATCH_LEAKED_MOCKS|][8] == arg[8]; }
    if VerboseValue(arg).Some? { assert arg[..|PREFIX + VERBOSE|][8] == arg[8]; }
  }

  // ------------------------------------------------- the same, by the strings alone

  predicate SetsLeaks(arg: string, value: string) {
    arg == "--gmock_catch_leaked_mocks=" + value || (value == "" && arg == "--gmock_catch_leaked_mocks")
  }

  predicate SetsVerbose(arg: string, value: string) {
    arg == "--gmock_verbose=" + value
  }

  ghost predicate IsFlag(arg: string) {
    exists value :: SetsLeaks(arg, value) || SetsVerbose(arg, value)
  }

  lemma FlagNames()
    ensures "--gmock_" + CATCH_LEAKED_MOCKS == "--gmock_catch_leaked_mocks"
    ensures "--gmock_" + CATCH_LEAKED_MOCKS + "=" == "--gmock_catch_leaked_mocks="
    ensures "--gmock_" + VERBOSE + "=" == "--gmock_verbose="
  {
  }

  lemma FlagsAreThese(arg: string)
    ensures forall value :: LeakValue(arg) == Some(value) <==> SetsLeaks(arg, value)
    ensures forall value :: VerboseValue(arg) == Some(value) <==> SetsVerbose(arg, value)
    ensures IsMockFlag(arg) <==> IsFlag(arg)
  {
    forall value
      ensures LeakValue(arg) == Some(value) <==> SetsLeaks(arg, value)
      ensures VerboseValue(arg) == Some(value) <==> SetsVerbose(arg, value)
    {
      FlagValueIff(arg, CATCH_LEAKED_MOCKS, true, value);
      FlagValueIff(arg, VERBOSE, false, value);
      FlagNames();
    }
    if LeakValue(arg).Some? { assert SetsLeaks(arg, LeakValue(arg).value); }
    if VerboseValue(arg).Some? { assert SetsVerbose(arg, VerboseValue(arg).value); }
  }

  /** A flag holds the value of the last argument that sets it, or what it held before. */
  ghost predicate VerboseAfter(args: seq<string>, before: string, after: string) {
    || (after == before && forall i, value :: 0 <= i < |args| ==> !SetsVerbose(args[i], value))
    || exists i :: 0 <= i < |args| && SetsVerbose(args[i], after)
         && forall j, value :: i < j < |args| ==> !SetsVerbose(args[j], value)
  }

  /** A bool flag is false just if that value starts with one of three characters. */
  ghost predicate LeaksAfter(args: seq<string>, before: bool, after: bool) {
    || (after == before && forall i, value :: 0 <= i < |args| ==> !SetsLeaks(args[i], value))
    || exists i, value :: 0 <= i < |args| && SetsLeaks(args[i], value)
         && (!after <==> |value| > 0 && (value[0] == '0' || value[0] == 'f' || value[0] == 'F'))
         && forall j, later :: i < j < |args| ==> !SetsLeaks(args[j], later)
  }

  /** `kept` are the arguments at the positions of those that are no flags. */
  ghost predicate IsSifted(args: seq<string>, kept: seq<string>, positions: seq<int>) {
    && |kept| == |positions|
    && (forall k :: 0 <= k < |positions| ==> 0 <= positions[k] < |args| && kept[k] == args[positions[k]])
    && (forall j, k :: 0 <= j < k < |positions| ==> positions[j] < positions[k])
    && (forall i :: 0 <= i < |args| ==> (i in positions <==> !IsFlag(args[i])))
  }

  lemma VerboseStep(args: seq<string>, arg: string, before: string, after: string)
    requires VerboseAfter(args, before, after)
    ensures (forall value :: !SetsVerbose(arg, value)) ==> VerboseAfter(args + [arg], before, after)
    ensures forall value :: SetsVerbose(arg, value) ==> VerboseAfter(args + [arg], before, value)
  {
    var more := args + [arg];
    forall value | SetsVerbose(arg, value)
      ensures VerboseAfter(more, before, value)
    {
      assert SetsVerbose(more[|args|], value);
    }
    if forall value :: !SetsVerbose(arg, value) {
      if i :| 0 <= i < |args| && SetsVerbose(args[i], after)
              && forall j, value :: i < j < |args| ==> !SetsVerbose(args[j], value) {
        assert SetsVerbose(more[i], after);
      }
    }
  }

  lemma LeaksStep(args: seq<string>, arg: string, before: bool, after: bool)
    requires LeaksAfter(args, before, after)
    ensures (forall value :: !SetsLeaks(arg, value)) ==> LeaksAfter(args + [arg], before, after)
    ensures forall value :: SetsLeaks(arg, value) ==> LeaksAfter(args + [arg], before, IsTrue(value))
  {
    var more := args + [arg];
    forall value | SetsLeaks(arg, value)
      ensures LeaksAfter(more, before, IsTrue(value))
    {
      assert SetsLeaks(more[|args|], value);
    }
    if forall value :: !SetsLeaks(arg, value) {
      if i, value :| 0 <= i < |args| && SetsLeaks(args[i], value)
                     && (!after <==> |value| > 0 && (value[0] == '0' || value[0] == 'f' || value[0] == 'F'))
                     && forall j, later :: i < j < |args| ==> !SetsLeaks(args[j], later) {
        assert SetsLeaks(more[i], value);
      }
    }
  }

  lemma {:induction false} LastValues(args: seq<string>, leak: bool, verbose: string)
    ensures LeaksAfter(args, leak, LastLeak(args, leak))
    ensures VerboseAfter(args, verbose, LastVerbose(args, verbose))
  {
    if args != [] {
      var n := |args| - 1;
      LastValues(args[..n], leak, verbose);
      FlagsAreThese(args[n]);
      LeaksStep(args[..n], args[n], leak, LastLeak(args[..n], leak));
      VerboseStep(args[..n], args[n], verbose, LastVerbose(args[..n], verbose));
      assert args == args[..n] + [args[n]];
    }
  }

  lemma SiftOn(args: seq<string>, kept: seq<string>, positions: seq<int>, arg: string)
    requires IsSifted(args, kept, positions)
    ensures IsFlag(arg) ==> IsSifted(args + [arg], kept, positions)
    ensures !IsFlag(arg) ==> IsSifted(args + [arg], kept + [arg], positions + [|args|])
  {
  }

  lemma {:induction false} KeptIsSifted(args: seq<string>) returns (positions: seq<int>)
    ensures IsSifted(args, Kept(args), positions)
  {
    positions := [];
    if args != [] {
      var n := |args| - 1;
      positions := KeptIsSifted(args[..n]);
      SiftOn(args[..n], Kept(args[..n]), positions, args[n]);
      FlagsAreThese(args[n]);
      KeptAppend(args[..n], [args[n]]);
      assert args == args[..n] + [args[n]] && [args[n]][1..] == [] && Kept(args[..n]) + [] == Kept(args[..n]);
      if !IsMockFlag(args[n]) { positions := positions + [n]; }
    }
  }

  // ------------------------------------------------------------- InitGoogleMock

  /** argv holds argc arguments and then null. */
  ghost predicate IsArgv(argv: array<Option<string>>, argc: int)
    reads argv
  {
    && 0 <= argc < argv.Length
    && (forall i :: 0 <= i < argc ==> argv[i].Some?)
    && argv[argc] == None
  }

  ghost function ArgsFrom(argv: seq<Option<string>>, lo: int, hi: int): (args: seq<string>)
    requires 0 <= lo <= hi <= |argv| && forall i :: lo <= i < hi ==> argv[i].Some?
    ensures |args| == hi - lo && forall k :: 0 <= k < hi - lo ==> args[k] == argv[lo + k].value
  {
    seq(hi - lo, k requires 0 <= k < hi - lo => argv[lo + k].value)
  }

  /** From 1 to i, argv holds the kept arguments; from i to argc', what the original holds at the end. */
  ghost predicate Sifted(orig: seq<Option<string>>, kept: seq<string>, argv: seq<Option<string>>,
                         i: int, argc': int, argc: int) {
    && 1 <= i <= argc' <= argc < |orig| == |argv|
    && argv[0] == orig[0] && argv[argc + 1..] == orig[argc + 1..]
    && |kept| == i - 1 && (forall k :: 1 <= k < i ==> argv[k] == Some(kept[k - 1]))
    && argv[i..argc' + 1] == orig[i + argc - argc'..argc + 1]
  }

  lemma SiftedNext(orig: seq<Option<string>>, kept: seq<string>, argv: seq<Option<string>>, i: int, argc': int, argc: int)
    requires Sifted(orig, kept, argv, i, argc', argc)
    ensures argv[i] == orig[i + argc - argc']
  {
    assert argv[i..argc' + 1][0] == orig[i + argc - argc'..argc + 1][0];
  }

  lemma ShiftDropsArg(orig: seq<Option<string>>, kept: seq<string>, before: seq<Option<string>>,
                      after: seq<Option<string>>, i: int, argc': int, argc: int)
    requires Sifted(orig, kept, before, i, argc', argc) && i < argc' && |after| == |before|
    requires forall k :: 0 <= k < i ==> after[k] == before[k]
    requires forall k :: i <= k < argc' ==> after[k] == before[k + 1]
    requires forall k :: argc' <= k < |after| ==> after[k] == before[k]
    ensures Sifted(orig, kept, after, i, argc' - 1, argc)
  {
    assert after[argc + 1..] == before[argc + 1..];
    assert after[i..argc'] == before[i..argc' + 1][1..];
    assert orig[i + argc - argc'..argc + 1][1..] == orig[i + 1 + argc - argc'..argc + 1];
  }

  lemma NextIsKept(orig: seq<Option<string>>, kept: seq<string>, argv: seq<Option<string>>, i: int, argc': int, argc: int)
    requires Sifted(orig, kept, argv, i, argc', argc) && i < argc' && argv[i].Some?
    ensures Sifted(orig, kept + [argv[i].value], argv, i + 1, argc', argc)
  {
    assert argv[i + 1..argc' + 1] == argv[i..argc' + 1][1..];
    assert orig[i + argc - argc'..argc + 1][1..] == orig[i + 1 + argc - argc'..argc + 1];
  }

  /** Tries both flags on an argument. */
  method ParseFlags(arg: string, flags: Flags) returns (found: bool)
    modifies flags
    ensures found == IsMockFlag(arg)
    ensures SetBy(arg, old(flags.catchLeakedMocks), old(flags.verbose), flags.catchLeakedMocks, flags.verbose)
  {
    FlagsDoNotOverlap(arg);
    found := ParseBoolFlag(arg, CATCH_LEAKED_MOCKS, flags);
    if !found {
      found := ParseStringFlag(arg, VERBOSE, flags);
    }
  }

  /** Moves the elements after i one place down, the null at argc included. */
  method ShiftLeft(argv: array<Option<string>>, i: int, argc: int)
    requires 0 <= i < argc < argv.Length
    modifies argv
    ensures forall k :: 0 <= k < i ==> argv[k] == old(argv[k])
    ensures forall k :: i <= k < argc ==> argv[k] == old(argv[k + 1])
    ensures forall k :: argc <= k < argv.Length ==> argv[k] == old(argv[k])
  {
    var j := i;
    while j != argc
      invariant i <= j <= argc
      invariant forall k :: 0 <= k < i ==> argv[k] == old(argv[k])
      invariant forall k :: i <= k < j ==> argv[k] == old(argv[k + 1])
      invariant forall k :: j <= k < argv.Length ==> argv[k] == old(argv[k])
    {
      argv[j] := argv[j + 1];
      j := j + 1;
    }
  }

  /** The body of the loop: takes a flag out of argv, and then steps back and counts one less. */
  method VisitArg(i: int, argc: int, argv: array<Option<string>>, flags: Flags,
                  ghost orig: seq<Option<string>>, ghost kept: seq<string>, ghost all: int)
    returns (i': int, argc': int)
    requires Sifted(orig, kept, argv[..], i, argc, all) && i < argc && orig[i + all - argc].Some?
    modifies argv, flags
    ensures var arg := orig[i + all - argc].value;
      && i' == (if IsMockFlag(arg) then i - 1 else i) && argc' == argc - (i - i')
      && Sifted(orig, kept + (if IsMockFlag(arg) then [] else [arg]), argv[..], i' + 1, argc', all)
      && SetBy(arg, old(flags.catchLeakedMocks), old(flags.verbose), flags.catchLeakedMocks, flags.verbose)
  {
    SiftedNext(orig, kept, argv[..], i, argc, all);
    i', argc' := i, argc;
    var found := ParseFlags(argv[i].value, flags);
    if found {
      ghost var before := argv[..];
      ShiftLeft(argv, i, argc);
      ShiftDropsArg(orig, kept, before, argv[..], i, argc, all);
      assert kept + [] == kept;
      argc' := argc' - 1;
      i' := i' - 1;
    } else {
      NextIsKept(orig, kept, argv[..], i, argc, all);
    }
  }

  lemma SiftedAll(orig: seq<Option<string>>, kept: seq<string>, argv: seq<Option<string>>, argc': int, argc: int)
    requires Sifted(orig, kept, argv, argc', argc', argc)
    ensures argv[argc'] == orig[argc] && forall k :: argc < k < |argv| ==> argv[k] == orig[k]
    ensures forall k :: 1 <= k < argc' ==> argv[k].Some?
    ensures ArgsFrom(argv, 1, argc') == kept
  {
    assert argv[argc'..argc' + 1][0] == orig[argc..argc + 1][0];
    forall k | argc < k < |argv| ensures argv[k] == orig[k] {
      assert argv[argc + 1..][k - argc - 1] == orig[argc + 1..][k - argc - 1];
    }
  }

  lemma StepOn(args: seq<string>, n: nat, leak: bool, verbose: string)
    requires n < |args|
    ensures Kept(args[..n + 1]) == Kept(args[..n]) + if IsMockFlag(args[n]) then [] else [args[n]]
    ensures SetBy(args[n], LastLeak(args[..n], leak), LastVerbose(args[..n], verbose),
                  LastLeak(args[..n + 1], leak), LastVerbose(args[..n + 1], verbose))
  {
    assert args[..n + 1] == args[..n] + [args[n]] && args[..n + 1][..n] == args[..n];
    KeptAppend(args[..n], [args[n]]);
    assert [args[n]][1..] == [];
  }

  /** Takes the flags out of argv one by one. */
  method RemoveFlags(argc: int, argv: array<Option<string>>, flags: Flags) returns (argc': int)
    requires argc > 0 && IsArgv(argv, argc)
    modifies argv, flags
    ensures IsArgv(argv, argc') && 0 < argc' <= argc && argv[0] == old(argv[0])
    ensures
      var args := ArgsFrom(old(argv[..]), 1, argc);
      && ArgsFrom(argv[..], 1, argc') == Kept(args)
      && flags.catchLeakedMocks == LastLeak(args, old(flags.catchLeakedMocks))
      && flags.verbose == LastVerbose(args, old(flags.verbose))
    ensures forall i :: argc < i < argv.Length ==> argv[i] == old(argv[i])
  {
    argc' := argc;
    ghost var orig, leak, verbose := argv[..], flags.catchLeakedMocks, flags.verbose;
    ghost var args := ArgsFrom(orig, 1, argc);
    ghost var seen := 0;
    var i := 1;
    while i != argc'
      invariant 1 <= i <= argc' <= argc && seen == argc - argc' + i - 1
      invariant Sifted(orig, Kept(args[..seen]), argv[..], i, argc', argc)
      invariant flags.catchLeakedMocks == LastLeak(args[..seen], leak)
      invariant flags.verbose == LastVerbose(args[..seen], verbose)
      decreases argc' - i
    {
      StepOn(args, seen, leak, verbose);
      i, argc' := VisitArg(i, argc', argv, flags, orig, Kept(args[..seen]), argc);
      i := i + 1;
      seen := seen + 1;
    }
    assert args[..seen] == args;
    SiftedAll(orig, Kept(args), argv[..], argc', argc);
  }

  /** Removes the Google Mock flags from argv and sets the flag variables. */
  method InitGoogleMockImpl(argc: int, argv: array<Option<string>>, flags: Flags) returns (argc': int)
    requires argc <= 0 || IsArgv(argv, argc)
    modifies argv, flags
    ensures argc <= 0 ==> argc' == argc && unchanged(argv) && unchanged(flags)
    ensures argc > 0 ==> IsArgv(argv, argc') && 0 < argc' <= argc && argv[0] == old(argv[0])
    ensures argc > 0 ==>
      var args := ArgsFrom(old(argv[..]), 1, argc);
      && (exists positions :: IsSifted(args, ArgsFrom(argv[..], 1, argc'), positions))
      && LeaksAfter(args, old(flags.catchLeakedMocks), flags.catchLeakedMocks)
      && VerboseAfter(args, old(flags.verbose), flags.verbose)
    ensures forall i :: 0 < argc < i < argv.Length ==> argv[i] == old(argv[i])
  {
    if argc <= 0 { return argc; }
    ghost var args := ArgsFrom(argv[..], 1, argc);
    LastValues(args, flags.catchLeakedMocks, flags.verbose);
    ghost var positions := KeptIsSifted(args);
    argc' := RemoveFlags(argc, argv, flags);
    assert IsSifted(args, ArgsFrom(argv[..], 1, argc'), positions);
  }
}
