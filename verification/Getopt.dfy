/** The option parser: its state between calls, and the command line that it permutes in place. */
module Getopt {
  import opened Wrappers
  import opened OptionGrammar

  /** The observable outcome of a call that reports `item`. */
  predicate Reports(item: Item, c: char, optarg: Option<string>, optopt: char) {
    match item
    case Opt(x, a) => c == x && optarg == a
    case Bad(x) => c == '?' && optopt == x && optarg == None
  }

  class Parser {
    var optarg: Option<string>
    var optind: nat
    var optopt: char
    var prevArgv: array?<string>
    var argvIndex: nat
    var argvIndex2: nat
    var optOffset: nat
    var dashdash: bool
    var nonopt: nat
    /** The words behind argv[0]: those used up, those still to come, and the operands found so far. */
    ghost var used: seq<string>
    ghost var pending: seq<string>
    ghost var operands: seq<string>

    /** Where the three groups of words are. */
    ghost predicate Shape(argv: array<string>)
      reads `prevArgv, `used, `pending, `operands, `nonopt, `argvIndex, `argvIndex2, argv
    {
      && argv.Length > 0 && prevArgv == argv
      && argv[1..] == used + pending + operands
      && nonopt == |operands|
      && argvIndex <= argv.Length && argvIndex2 <= argv.Length
      && (if pending == [] then argvIndex + nonopt >= argv.Length
          else argvIndex == 1 + |used| && argvIndex2 <= argvIndex)
    }

    /** Between calls: at an option letter or at the start of a word, or at the end. */
    ghost predicate Between(argv: array<string>)
      reads `prevArgv, `used, `pending, `operands, `nonopt, `argvIndex, `argvIndex2, argv, `optOffset, `dashdash
    {
      && Shape(argv)
      && AtLetter(pending, optOffset)
      && (pending != [] ==> !dashdash)
      && (!dashdash ==> forall i :: 0 <= i < |operands| ==> Plain(operands[i]))
    }

    /** A new argv starts a new parse. */
    ghost predicate Ready(argv: array<string>)
      reads `prevArgv, `used, `pending, `operands, `nonopt, `argvIndex, `argvIndex2, argv, `optOffset, `dashdash
    {
      argv.Length > 0 && (prevArgv == argv ==> Between(argv))
    }

    ghost function Pending(argv: array<string>): seq<string>
      requires argv.Length > 0
      reads this, argv
    {
      if prevArgv == argv then pending else argv[1..]
    }

    ghost function Used(argv: array<string>): seq<string>
      reads this
    {
      if prevArgv == argv then used else []
    }

    ghost function Operands(argv: array<string>): seq<string>
      reads this
    {
      if prevArgv == argv then operands else []
    }

    ghost function Offset(argv: array<string>): nat
      reads this
    {
      if prevArgv == argv then optOffset else 1
    }

    constructor ()
      ensures prevArgv == null
    {
      optarg, optind, optopt := None, 0, '?';
      prevArgv := null;
      argvIndex, argvIndex2, optOffset, dashdash, nonopt := 0, 0, 0, false, 0;
      used, pending, operands := [], [], [];
    }

    /** Moves on to the next option, stepping over the arguments looked up already. */
    method IncrementIndex(argv: array<string>)
      requires argvIndex < argv.Length && argvIndex2 <= argv.Length
      modifies this`argvIndex, this`optOffset
      ensures optOffset == 1
      ensures old(argvIndex) < argvIndex <= argv.Length
      ensures old(argvIndex) >= argvIndex2 ==> argvIndex == old(argvIndex) + 1
      ensures old(argvIndex) + 1 == argvIndex2 < argv.Length && !Dashed(argv[argvIndex2]) ==>
                argvIndex == argvIndex2 + 1
    {
      if argvIndex < argvIndex2 {
        argvIndex := argvIndex + 1;
        while argvIndex < argv.Length && !Dashed(argv[argvIndex]) && argvIndex < argvIndex2 + 1
          invariant old(argvIndex) < argvIndex <= argv.Length
          invariant old(argvIndex) + 1 == argvIndex2 ==> argvIndex <= argvIndex2 + 1
        {
          argvIndex := argvIndex + 1;
        }
      } else {
        argvIndex := argvIndex + 1;
      }
      optOffset := 1;
    }

    /** Moves the present word to the end, unless it is among the operands moved there already. */
    method PermuteArgvOnce(argv: array<string>) returns (moved: bool)
      requires Shape(argv) && argvIndex < argv.Length
      modifies argv, this`nonopt, this`operands, this`pending
      ensures moved == (old(pending) != [])
      ensures Shape(argv) && argv[0] == old(argv[0])
      ensures moved ==> old(pending) != [] && pending == old(pending)[1..] && operands == old(operands) + [old(pending)[0]]
      ensures !moved ==> unchanged(argv) && unchanged(this)
    {
      if argvIndex + nonopt >= argv.Length {
        return false;
      }
      ghost var before := argv[1..];
      var tmp := argv[argvIndex];
      forall i | argvIndex <= i < argv.Length - 1 {
        argv[i] := argv[i + 1];
      }
      argv[argv.Length - 1] := tmp;
      nonopt := nonopt + 1;
      Rotated(before, argv[1..], used, pending, operands);
      operands, pending := operands + [pending[0]], pending[1..];
      return true;
    }

    /** Steps over "--".  Behind it every word is an operand. */
    method SkipDashDash(argv: array<string>)
      requires Shape(argv)
      modifies this`dashdash, this`argvIndex, this`optOffset, this`used, this`pending
      ensures Shape(argv)
      ensures old(pending) != [] && old(pending)[0] == "--" ==>
                dashdash && used == old(used) + ["--"] && pending == old(pending)[1..] && optOffset == 1
      ensures old(pending) != [] && old(pending)[0] != "--" ==> unchanged(this)
      ensures old(pending) == [] ==> pending == [] && used == old(used)
      ensures old(pending) == [] && "--" !in operands ==> dashdash == old(dashdash)
      ensures old(dashdash) ==> dashdash
      ensures optOffset == 1 || optOffset == old(optOffset)
    {
      ghost var i := argvIndex;
      if argvIndex < argv.Length && argv[argvIndex] == "--" {
        dashdash := true;
        IncrementIndex(argv);
        if pending != [] {
          assert argv[1..][i - 1] == pending[0];
          used, pending := used + ["--"], pending[1..];
        }
      }
      assert i < argv.Length ==> argv[i] == argv[1..][i - 1];
    }

    /** Counts the first `n` pending words as used up. */
    ghost method UseUp(argv: array<string>, n: nat)
      requires argv.Length > 0 && argv[1..] == used + pending + operands && n <= |pending|
      modifies this`used, this`pending
      ensures used == old(used) + old(pending)[..n] && pending == old(pending)[n..]
      ensures argv[1..] == used + pending + operands
    {
      used, pending := used + pending[..n], pending[n..];
    }

    method NextWord(argv: array<string>)
      requires Shape(argv) && pending != []
      modifies this`argvIndex, this`optOffset, this`used, this`pending
      ensures Shape(argv) && optOffset == 1
      ensures used == old(used) + old(pending)[..1] && pending == old(pending)[1..]
    {
      IncrementIndex(argv);
      UseUp(argv, 1);
    }

    /** The words and the outcome after the grammar's step `s` within a word of option letters, if it is tame. */
    ghost predicate Took(argv: array<string>, s: Step, used0: seq<string>, c: char)
      requires s.Found?
      reads this, argv
    {
      if Tame(s) then
        && Shape(argv) && used == used0 + s.used && pending == s.rest && optOffset == s.off
        && Reports(s.item, c, optarg, optopt)
      else !Reports(s.item, c, optarg, optopt)
    }

    /** The branch for a word of option letters. */
    method TakeOption(argv: array<string>, optstr: string) returns (c: char)
      requires Shape(argv) && pending != [] && IsOption(pending[0]) && 1 <= optOffset < |pending[0]| && optarg == None
      modifies this`argvIndex, this`argvIndex2, this`optOffset, this`optarg, this`optopt, this`used, this`pending
      ensures Took(argv, Take(old(pending), old(optOffset), optstr), old(used), c)
    {
      assert argv[argvIndex] == argv[1..][argvIndex - 1] == pending[0];
      c := argv[argvIndex][optOffset];
      optOffset := optOffset + 1;
      var p := IndexOf(optstr, c);
      if p == |optstr| {
        c := TakeUnknownLetter(argv, c, optstr);
      } else if p + 1 < |optstr| && optstr[p + 1] == ':' {
        c := TakeWithArgument(argv, c, p + 2 == |optstr| || optstr[p + 2] != ':', optstr);
      } else {
        TakeFlagLetter(argv, c, optstr);
      }
    }

    /** The branch for an unknown option. */
    method TakeUnknownLetter(argv: array<string>, option: char, ghost optstr: string) returns (c: char)
      requires Shape(argv) && pending != [] && IsOption(pending[0]) && 1 < optOffset <= |pending[0]| && optarg == None
      requires option == pending[0][optOffset - 1] && KindOf(optstr, option) == Unknown
      modifies this`argvIndex, this`optOffset, this`optopt, this`used, this`pending
      ensures Took(argv, Take(old(pending), old(optOffset) - 1, optstr), old(used), c)
    {
      TakeUnknown(pending, optOffset - 1, optstr, option);
      assert pending[..1] == [pending[0]];
      optopt := option;
      c := '?';
      NextWord(argv);
    }

    /** The branch for an option without argument. */
    method TakeFlagLetter(argv: array<string>, option: char, ghost optstr: string)
      requires Shape(argv) && pending != [] && IsOption(pending[0]) && 1 < optOffset <= |pending[0]| && optarg == None
      requires option == pending[0][optOffset - 1] && KindOf(optstr, option) == Flag
      modifies this`argvIndex, this`optOffset, this`used, this`pending
      ensures Took(argv, Take(old(pending), old(optOffset) - 1, optstr), old(used), option)
    {
      assert argv[argvIndex] == argv[1..][argvIndex - 1] == pending[0];
      TakeFlag(pending, optOffset - 1, optstr, option);
      assert pending[..1] == [pending[0]];
      if optOffset == |argv[argvIndex]| {
        NextWord(argv);
      }
    }

    /** The branch for an option that takes an argument. */
    method TakeWithArgument(argv: array<string>, option: char, required: bool, ghost optstr: string) returns (c: char)
      requires Shape(argv) && pending != [] && IsOption(pending[0]) && 1 < optOffset <= |pending[0]| && optarg == None
      requires option == pending[0][optOffset - 1] && KindOf(optstr, option) == if required then Required else Optional
      modifies this`argvIndex, this`argvIndex2, this`optOffset, this`optarg, this`optopt, this`used, this`pending
      ensures Took(argv, Take(old(pending), old(optOffset) - 1, optstr), old(used), c)
    {
      assert argv[argvIndex] == argv[1..][argvIndex - 1] == pending[0];
      c := option;
      if optOffset < |argv[argvIndex]| {
        optarg := Some(argv[argvIndex][optOffset..]);
        NextWord(argv);
      } else if required {
        c := TakeNextWord(argv, option);
      } else {
        NextWord(argv);
      }
    }

    /** -o ARGUMENT */
    method TakeNextWord(argv: array<string>, option: char) returns (c: char)
      requires Shape(argv) && pending != [] && optarg == None
      modifies this`argvIndex, this`argvIndex2, this`optOffset, this`optarg, this`optopt, this`used, this`pending
      ensures |old(pending)| == 1 ==>
                && Shape(argv) && used == old(used) + old(pending) && pending == [] && optOffset == 1
                && Reports(Bad(option), c, optarg, optopt)
      ensures |old(pending)| > 1 && !Dashed(old(pending)[1]) ==>
                && Shape(argv) && used == old(used) + old(pending)[..2] && pending == old(pending)[2..] && optOffset == 1
                && Reports(Opt(option, Some(old(pending)[1])), c, optarg, optopt)
      ensures optarg.Some? ==> !Dashed(optarg.value)
    {
      LookUpArgument(argv);
      assert |pending| > 1 ==> argv[argvIndex + 1] == argv[1..][argvIndex] == pending[1];
      IncrementIndex(argv);
      c := option;
      if optarg == None {
        optopt := c;
        c := '?';
      }
      UseUp(argv, if |pending| == 1 then 1 else 2);
    }

    /** Looks for the argument from the present word, or from the last argument found, onwards. */
    method LookUpArgument(argv: array<string>)
      requires Shape(argv) && pending != []
      modifies this`argvIndex2, this`optarg
      ensures argvIndex < argvIndex2 <= argv.Length
      ensures optarg.Some? ==> !Dashed(optarg.value)
      ensures |pending| > 1 && !Dashed(pending[1]) ==> argvIndex2 == argvIndex + 1 && optarg == Some(pending[1])
      ensures |pending| == 1 ==> optarg == None
    {
      assert forall i :: argvIndex <= i < argv.Length - nonopt ==> argv[i] == argv[1..][i - 1] == pending[i - argvIndex];
      if argvIndex2 < argvIndex {
        argvIndex2 := argvIndex;
      }
      argvIndex2 := argvIndex2 + 1;
      while argvIndex2 < argv.Length && Dashed(argv[argvIndex2])
        invariant argvIndex < argvIndex2 <= argv.Length
        invariant |pending| > 1 && !Dashed(pending[1]) ==> argvIndex2 == argvIndex + 1
      {
        argvIndex2 := argvIndex2 + 1;
      }
      optarg := if argvIndex2 < argv.Length then Some(argv[argvIndex2]) else None;
      if argvIndex2 + nonopt >= argv.Length {
        optarg := None;
      }
    }

    // ----- A call -----

    /** Starts over when argv is a new one. */
    method Restart(argv: array<string>)
      requires Ready(argv)
      modifies this
      ensures Between(argv) && pending == old(Pending(argv)) && used == old(Used(argv))
      ensures operands == old(Operands(argv)) && optOffset == old(Offset(argv))
      ensures optind == old(optind) && optopt == old(optopt)
    {
      if prevArgv != argv {
        prevArgv := argv;
        argvIndex, argvIndex2, optOffset, dashdash, nonopt := 1, 1, 1, false, 0;
        used, pending, operands := [], argv[1..], [];
      }
    }

    /** What a call does to the three groups of words when the grammar's next step is `s`. */
    ghost predicate Moved(argv: array<string>, s: Step, used0: seq<string>, operands0: seq<string>)
      reads `prevArgv, `used, `pending, `operands, `nonopt, `argvIndex, `argvIndex2, argv, `optOffset, `dashdash
    {
      && Between(argv) && operands == operands0 + s.passed + (if s.End? then s.after else [])
      && used == used0 + (if s.End? then s.delimiter else s.used)
      && pending == (if s.End? then [] else s.rest)
      && (s.Found? ==> optOffset == s.off)
    }

    /**
     Within a call, before "--": `passed` are the operands stepped over, and what follows is the rest
     of the grammar's step.
     */
    ghost predicate BeforeDelimiter(argv: array<string>, s: Step, optstr: string,
                                    used0: seq<string>, operands0: seq<string>, passed: seq<string>)
      reads `prevArgv, `used, `pending, `operands, `nonopt, `argvIndex, `argvIndex2, argv, `optOffset, `dashdash
    {
      && Between(argv) && used == used0 && operands == operands0 + passed
      && s == Behind(passed, Next(pending, optOffset, optstr))
    }

    /** Within a call, behind "--": the words behind it up to `checked` have been looked at. */
    ghost predicate BehindDelimiter(argv: array<string>, s: Step, used0: seq<string>, operands0: seq<string>, checked: int)
      reads `prevArgv, `used, `pending, `operands, `nonopt, `argvIndex, `argvIndex2, argv, `optOffset, `dashdash
    {
      && Shape(argv) && dashdash && optOffset == 1
      && s.End? && s.delimiter == ["--"] && |pending| <= |s.after|
      && if |operands| + |pending| == |operands0| + |s.passed| + |s.after| then
           // no word has been lost
           && used == used0 + ["--"] && operands + pending == operands0 + s.passed + s.after
           && forall i :: 1 <= i < checked && i < |s.after| ==> s.after[i] != "--"
         else
           // one has been, because it was "--"
           |operands| + |pending| < |operands0| + |s.passed| + |s.after| && !Tame(s)
    }

    /** The result of a call whose step by the grammar is `s`. */
    ghost predicate Outcome(argv: array<string>, s: Step, used0: seq<string>, operands0: seq<string>, c: Option<char>)
      reads `prevArgv, `used, `pending, `operands, `nonopt, `argvIndex, `argvIndex2, argv, `optOffset, `dashdash, `optarg, `optopt
    {
      match s
      case Found(item, _, _, _, _, _) =>
        c.Some? && if Tame(s) then Moved(argv, s, used0, operands0) && Reports(item, c.value, optarg, optopt)
                   else !Reports(item, c.value, optarg, optopt)
      case End(passed, _, after) =>
        && c.None? && Shape(argv) && pending == []
        && if Tame(s) then Moved(argv, s, used0, operands0)
           else |operands| < |operands0| + |passed| + |after|
    }

    /** At getopt_top. */
    ghost predicate AtTop(argv: array<string>, before: bool, s: Step, optstr: string,
                          used0: seq<string>, operands0: seq<string>, passed: seq<string>)
      reads `prevArgv, `used, `pending, `operands, `nonopt, `argvIndex, `argvIndex2, argv, `optOffset, `dashdash
    {
      if before then BeforeDelimiter(argv, s, optstr, used0, operands0, passed)
      else s.End? && |pending| < |s.after| && BehindDelimiter(argv, s, used0, operands0, |s.after| - |pending|)
    }

    /** Behind the check for "--". */
    ghost predicate Looking(argv: array<string>, before: bool, s: Step, optstr: string,
                            used0: seq<string>, operands0: seq<string>, passed: seq<string>)
      reads `prevArgv, `used, `pending, `operands, `nonopt, `argvIndex, `argvIndex2, argv, `optOffset, `dashdash
    {
      if before then
        BeforeDelimiter(argv, s, optstr, used0, operands0, passed) && (pending != [] ==> pending[0] != "--")
      else
        s.End? && BehindDelimiter(argv, s, used0, operands0, |s.after| - |pending| + 1)
    }

    method CheckDashDash(argv: array<string>, ghost before: bool, ghost s: Step, ghost optstr: string,
                         ghost used0: seq<string>, ghost operands0: seq<string>, ghost passed: seq<string>)
      returns (ghost before': bool)
      requires AtTop(argv, before, s, optstr, used0, operands0, passed)
      modifies this`dashdash, this`argvIndex, this`optOffset, this`used, this`pending
      ensures Looking(argv, before', s, optstr, used0, operands0, passed)
      ensures |pending| <= |old(pending)|
    {
      ghost var ws := pending;
      before' := before && (pending != [] ==> pending[0] != "--");
      SkipDashDash(argv);
      if before && !before' {
        assert s == Behind(passed, End([], ws[..1], ws[1..]));
        assert ws[..1] == ["--"];
      } else if !before && ws != [] && ws[0] == "--" && |operands| + |ws| == |operands0| + |s.passed| + |s.after| {
        assert (operands + ws)[|operands|] == (operands0 + s.passed + s.after)[|operands|];
        assert s.after[|s.after| - |ws|] == "--";
      } else if !before && ws != [] && |operands| + |ws| == |operands0| + |s.passed| + |s.after| {
        assert (operands + ws)[|operands|] == (operands0 + s.passed + s.after)[|operands|];
      }
    }

    /** Nothing is left to look at. */
    lemma NothingLeft(argv: array<string>, before: bool, s: Step, optstr: string,
                      used0: seq<string>, operands0: seq<string>, passed: seq<string>)
      requires Looking(argv, before, s, optstr, used0, operands0, passed) && pending == []
      ensures Outcome(argv, s, used0, operands0, None)
    {
      assert operands + pending == operands;
    }

    /** Moves the present word, an operand, to the end; or ends the call when there is none left. */
    method PassOperand(argv: array<string>, ghost before: bool, ghost s: Step, ghost optstr: string,
                       ghost used0: seq<string>, ghost operands0: seq<string>, ghost passed: seq<string>)
      returns (moved: bool, ghost passed': seq<string>)
      requires argvIndex < argv.Length && Looking(argv, before, s, optstr, used0, operands0, passed)
      requires before && pending != [] ==> Plain(pending[0])
      modifies argv, this`nonopt, this`operands, this`pending
      ensures argv[0] == old(argv[0])
      ensures moved ==> |pending| < |old(pending)| && AtTop(argv, before, s, optstr, used0, operands0, passed')
      ensures !moved ==> Outcome(argv, s, used0, operands0, None)
    {
      ghost var ws := pending;
      moved := PermuteArgvOnce(argv);
      passed' := passed;
      if !moved {
        NothingLeft(argv, before, s, optstr, used0, operands0, passed);
      } else if before {
        ghost var next := Next(ws[1..], 1, optstr);
        passed' := passed + [ws[0]];
        assert s == Behind(passed, next.Behind(ws[0]));
        assert passed + [ws[0]] + next.passed == passed + ([ws[0]] + next.passed);
      } else {
        assert old(operands) + ws == old(operands) + [ws[0]] + ws[1..];
      }
    }

    method ReportOption(argv: array<string>, optstr: string, ghost s: Step,
                        ghost used0: seq<string>, ghost operands0: seq<string>, ghost passed: seq<string>)
      returns (c: char)
      requires BeforeDelimiter(argv, s, optstr, used0, operands0, passed) && pending != [] && IsOption(pending[0])
      requires optarg == None
      modifies this`argvIndex, this`argvIndex2, this`optOffset, this`optarg, this`optopt, this`used, this`pending
      ensures Outcome(argv, s, used0, operands0, Some(c))
    {
      assert s == Behind(passed, Take(pending, optOffset, optstr));
      c := TakeOption(argv, optstr);
    }

    /** A word of option letters in front of the delimiter is the first of those to be looked at. */
    lemma AtOption(argv: array<string>, before: bool, s: Step, optstr: string,
                   used0: seq<string>, operands0: seq<string>, passed: seq<string>)
      requires argvIndex < argv.Length && Looking(argv, before, s, optstr, used0, operands0, passed) && !dashdash
      requires |argv[argvIndex]| > 0 && argv[argvIndex][0] == '-' && argv[argvIndex] != "-"
      ensures BeforeDelimiter(argv, s, optstr, used0, operands0, passed) && pending != [] && IsOption(pending[0])
    {
      assert argv[argvIndex] == argv[1..][argvIndex - 1];
    }

    /** From getopt_top to the end of the call, or back to getopt_top. */
    method Round(argv: array<string>, optstr: string, ghost before: bool, ghost s: Step,
                 ghost used0: seq<string>, ghost operands0: seq<string>, ghost passed: seq<string>)
      returns (again: bool, c: Option<char>, ghost before': bool, ghost passed': seq<string>)
      requires AtTop(argv, before, s, optstr, used0, operands0, passed)
      modifies argv, this`argvIndex, this`argvIndex2, this`optOffset, this`dashdash, this`nonopt
      modifies this`optarg, this`optopt, this`used, this`pending, this`operands
      ensures argv[0] == old(argv[0])
      ensures again ==> |pending| < |old(pending)| && AtTop(argv, before', s, optstr, used0, operands0, passed')
      ensures !again ==> Outcome(argv, s, used0, operands0, c)
    {
      optarg, passed' := None, passed;
      before' := CheckDashDash(argv, before, s, optstr, used0, operands0, passed);
      assert argvIndex < argv.Length ==> argv[argvIndex] == argv[1..][argvIndex - 1];
      if argvIndex == argv.Length {
        NothingLeft(argv, before', s, optstr, used0, operands0, passed);
        return false, None, before', passed;
      } else if dashdash || |argv[argvIndex]| == 0 || argv[argvIndex][0] != '-' || argv[argvIndex] == "-" {
        again, passed' := PassOperand(argv, before', s, optstr, used0, operands0, passed);
        return again, None, before', passed';
      } else {
        AtOption(argv, before', s, optstr, used0, operands0, passed);
        var o := ReportOption(argv, optstr, s, used0, operands0, passed);
        return false, Some(o), before', passed;
      }
    }

    /** Every character of `optstr` is an option letter or a colon: operands are moved to the end. */
    predicate Permuting(optstr: string) {
      optstr == "" || (optstr[0] != '-' && optstr[0] != '+')
    }

    /** One call: the next item of the command line, or None (-1) at the end. */
    method GetOpt(argv: array<string>, optstr: string) returns (c: Option<char>)
      requires Ready(argv) && Permuting(optstr)
      modifies this, argv
      ensures argv[0] == old(argv[0]) && prevArgv == argv
      ensures Outcome(argv, Next(old(Pending(argv)), old(Offset(argv)), optstr),
                      old(Used(argv)), old(Operands(argv)), c)
      ensures c == None ==> optind == argv.Length - nonopt
      ensures c != None ==> optind == argvIndex
      ensures c == None ==> 0 < optind <= argv.Length && argv[..optind] == [argv[0]] + used && argv[optind..] == operands
    {
      c := Call(argv, optstr);
      SetOptind(argv, c);
    }

    method SetOptind(argv: array<string>, c: Option<char>)
      requires c == None ==> Shape(argv) && pending == []
      modifies this`optind
      ensures c == None ==> optind == argv.Length - nonopt
      ensures c != None ==> optind == argvIndex
      ensures c == None ==> 0 < optind <= argv.Length && argv[..optind] == [argv[0]] + used && argv[optind..] == operands
    {
      if c == None {
        optind := argv.Length - nonopt;
        WordsAtEnd(argv);
      } else {
        optind := argvIndex;
      }
    }

    method Call(argv: array<string>, optstr: string) returns (c: Option<char>)
      requires Ready(argv) && Permuting(optstr)
      modifies this, argv
      ensures argv[0] == old(argv[0]) && prevArgv == argv
      ensures Outcome(argv, Next(old(Pending(argv)), old(Offset(argv)), optstr),
                      old(Used(argv)), old(Operands(argv)), c)
    {
      Restart(argv);
      c := Rounds(argv, optstr);
    }

    lemma WordsAtEnd(argv: array<string>)
      requires Shape(argv) && pending == []
      ensures nonopt < argv.Length
      ensures argv[..argv.Length - nonopt] == [argv[0]] + used && argv[argv.Length - nonopt..] == operands
    {
      assert argv[..] == [argv[0]] + argv[1..];
      assert used + pending + operands == used + operands;
    }

    /** Goes back to getopt_top until the call ends. */
    method Rounds(argv: array<string>, optstr: string) returns (c: Option<char>)
      requires Between(argv)
      modifies argv, this`argvIndex, this`argvIndex2, this`optOffset, this`dashdash, this`nonopt
      modifies this`optarg, this`optopt, this`used, this`pending, this`operands
      ensures argv[0] == old(argv[0])
      ensures Outcome(argv, Next(old(pending), old(optOffset), optstr), old(used), old(operands), c)
    {
      ghost var s, used0, operands0 := Next(pending, optOffset, optstr), used, operands;
      ghost var before, passed := true, [];
      assert s == Behind([], s);
      var again := true;
      c := None;
      while again
        invariant again ==> AtTop(argv, before, s, optstr, used0, operands0, passed)
        invariant !again ==> Outcome(argv, s, used0, operands0, c)
        invariant argv[0] == old(argv[0])
        decreases again, |pending|
      {
        again, c, before, passed := Round(argv, optstr, before, s, used0, operands0, passed);
      }
    }

    /** Parsing has come to the end: the operands are where optind points, behind all other words. */
    ghost predicate Finished(argv: array<string>, options: seq<string>, rest: seq<string>)
      reads this, argv
    {
      && Between(argv) && pending == [] && optind == argv.Length - nonopt
      && used == options && operands == rest
    }

    lemma FinishedWords(argv: array<string>, options: seq<string>, rest: seq<string>)
      requires Finished(argv, options, rest)
      ensures 0 < optind <= argv.Length && argv[optind..] == rest
      ensures argv[..] == [argv[0]] + options + rest
    {
      WordsAtEnd(argv);
      assert argv[..] == argv[..optind] + argv[optind..];
    }

    /** A call, checked against the grammar: they agree exactly when the grammar's step is tame. */
    method CompareCall(argv: array<string>, optstr: string, ws: seq<string>, off: nat, expected: seq<string>)
      returns (s: Step, agree: bool)
      requires Ready(argv) && Permuting(optstr) && AtLetter(ws, off)
      requires Pending(argv) == ws && Offset(argv) == off && Operands(argv) == expected
      modifies this, argv
      ensures argv[0] == old(argv[0])
      ensures s == Next(ws, off, optstr) && (agree <==> Tame(s))
      ensures agree ==> Between(argv) && prevArgv == argv
      ensures agree && s.Found? ==>
                pending == s.rest && optOffset == s.off
                && used == old(Used(argv)) + s.used && operands == expected + s.passed
      ensures agree && s.End? ==>
                Finished(argv, old(Used(argv)) + s.delimiter, expected + s.passed + s.after)
    {
      s := Next(ws, off, optstr);
      var c := GetOpt(argv, optstr);
      agree := match s
               case Found(item, _, _, _, _, _) => c.Some? && Reports(item, c.value, optarg, optopt)
               case End(passed, delimiter, after) => argv[optind..] == expected + passed + after;
    }

    /** Once at the end, a call changes nothing: -1 for ever, with the same operands behind optind. */
    method CallAtEnd(argv: array<string>, optstr: string, ghost options: seq<string>, ghost rest: seq<string>)
      returns (c: Option<char>)
      requires Finished(argv, options, rest) && Permuting(optstr)
      modifies this, argv
      ensures c == None && Finished(argv, options, rest)
      ensures argv[..] == old(argv[..]) && optind == old(optind)
    {
      FinishedWords(argv, options, rest);
      c := GetOpt(argv, optstr);
      FinishedWords(argv, options, rest);
    }

    /** The calls from here on, checked against the grammar. */
    method CompareRest(argv: array<string>, optstr: string, ws: seq<string>, off: nat, expected: seq<string>)
      returns (items: seq<Item>, agree: bool)
      requires Ready(argv) && Permuting(optstr) && AtLetter(ws, off)
      requires Pending(argv) == ws && Offset(argv) == off && Operands(argv) == expected
      modifies this, argv
      ensures argv[0] == old(argv[0]) && (agree <==> WellFormed(ws, off, optstr))
      ensures agree ==>
                var p := Parse(ws, off, optstr);
                items == p.items && Finished(argv, old(Used(argv)) + p.options, expected + p.operands)
      decreases |ws|, if ws == [] then 0 else |ws[0]| + 1 - off
    {
      items := [];
      var s;
      s, agree := CompareCall(argv, optstr, ws, off, expected);
      if agree && s.Found? {
        ghost var p := Parse(s.rest, s.off, optstr);
        Regroup(old(Used(argv)), s.used, p.options);
        Regroup(expected, s.passed, p.operands);
        items, agree := CompareRest(argv, optstr, s.rest, s.off, expected + s.passed);
        items := [s.item] + items;
      } else if agree {
        Regroup(expected, s.passed, s.after);
      }
    }

    /**
     A client that calls until the end, on a new command line, and compares every call with the
     grammar: they agree to the end exactly when the command line is well-formed.
     */
    method CompareWithGrammar(argv: array<string>, optstr: string) returns (items: seq<Item>, agree: bool)
      requires argv.Length > 0 && prevArgv != argv && Permuting(optstr)
      modifies this, argv
      ensures agree <==> WellFormed(old(argv[1..]), 1, optstr)
      ensures agree ==>
                var p := Parse(old(argv[1..]), 1, optstr);
                && items == p.items && Finished(argv, p.options, p.operands) && 0 < optind <= argv.Length
                && argv[..] == [old(argv[0])] + p.options + p.operands && argv[optind..] == p.operands
    {
      ghost var p := Parse(argv[1..], 1, optstr);
      assert [] + p.options == p.options && [] + p.operands == p.operands;
      items, agree := CompareRest(argv, optstr, argv[1..], 1, []);
      if agree {
        FinishedWords(argv, p.options, p.operands);
      }
    }
  }

  /** Moving the first pending word behind the operands. */
  lemma Rotated<T>(before: seq<T>, after: seq<T>, used: seq<T>, pending: seq<T>, operands: seq<T>)
    requires before == used + pending + operands && pending != [] && |after| == |before|
    requires forall i :: 0 <= i < |used| ==> after[i] == before[i]
    requires forall i :: |used| <= i < |before| - 1 ==> after[i] == before[i + 1]
    requires after[|before| - 1] == before[|used|]
    ensures after == used + pending[1..] + (operands + [pending[0]])
  {
  }

  lemma Regroup<T>(a: seq<T>, b: seq<T>, c: seq<T>)
    ensures a + b + c == a + (b + c)
  {
  }

  ghost function Behind(passed: seq<string>, s: Step): Step {
    s.(passed := passed + s.passed)
  }
}
