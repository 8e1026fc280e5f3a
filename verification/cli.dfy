/** Command-line handling of src/main.c: `parseArguments`, a left-to-right
    scan of argv that sets the action and the quiet and force flags, and the
    action dispatch of `main`. */
module Cli {
  import opened Types

  /** action_t */
  datatype Action = ActionNone | ActionHelp | ActionInfo | ActionDump

  /** The part of the application state the parser writes. */
  datatype AppState = AppState(eAction: Action, bQuiet: bool, bForce: bool)

  /** What one argument means to the parser. */
  datatype ArgKind = HelpOption | InfoOption | QuietOption | ForceOption | UnknownOption | Operand

  /** ASCII lower-casing, as `stricmp` compares. */
  function ToLower(c: char): char
  {
    if 'A' <= c <= 'Z' then (c as int - 'A' as int + 'a' as int) as char else c
  }

  /** stricmp(a, b) == 0 */
  predicate EqualsIgnoreCase(a: string, b: string)
  {
    |a| == |b| && forall k :: 0 <= k < |a| ==> ToLower(a[k]) == ToLower(b[k])
  }

  /** How parseArguments reads one argument (main.c lines 241-279): an
      argument starting with '-' is `-h` in either case, or exactly `-v`,
      `-q` or `-f`, or unknown; anything else is an operand. */
  function Classify(arg: string): (k: ArgKind)
    ensures k == Operand <==> |arg| == 0 || arg[0] != '-'
    ensures k == HelpOption <==> arg == "-h" || arg == "-H"
    ensures k == InfoOption <==> arg == "-v"
    ensures k == QuietOption <==> arg == "-q"
    ensures k == ForceOption <==> arg == "-f"
  {
    if |arg| == 0 || arg[0] != '-' then Operand
    else if EqualsIgnoreCase(arg, "-h") then
      assert ToLower(arg[1]) == 'h';
      HelpOption
    else if arg == "-v" then InfoOption
    else if arg == "-q" then QuietOption
    else if arg == "-f" then ForceOption
    else
      assert arg != "-h" && arg != "-H" by {
        if arg == "-h" || arg == "-H" {
          assert EqualsIgnoreCase(arg, "-h");
        }
      }
      UnknownOption
  }

  /** The effect of one recognised argument on the state. */
  function Step(st: AppState, kind: ArgKind): AppState
  {
    match kind
    case HelpOption => st.(eAction := ActionHelp)
    case InfoOption => st.(eAction := ActionInfo)
    case QuietOption => st.(bQuiet := true)
    case ForceOption => st.(bForce := true)
    case _ => st
  }

  /** The loop of parseArguments (main.c lines 237-282) over the arguments
      after argv[0]: an unknown option stops it with EINVAL. */
  function Scan(args: seq<string>, st: AppState): (Errno, AppState)
    decreases |args|
  {
    if |args| == 0 then (EOK, st)
    else if Classify(args[0]) == UnknownOption then (EINVAL, st)
    else Scan(args[1..], Step(st, Classify(args[0])))
  }

  //---------------------------------------------------------------------------
  // An independent description of the scan.
  //---------------------------------------------------------------------------

  /** The index of the first unknown option, or |args| when there is none. */
  function FirstUnknown(args: seq<string>): (k: nat)
    ensures k <= |args|
    ensures forall i :: 0 <= i < k ==> Classify(args[i]) != UnknownOption
    ensures k < |args| ==> Classify(args[k]) == UnknownOption
  {
    if |args| == 0 then 0
    else if Classify(args[0]) == UnknownOption then 0
    else 1 + FirstUnknown(args[1..])
  }

  /** The action named by the last `-h` or `-v` in `args`, or ActionNone. */
  function LastAction(args: seq<string>): Action
  {
    if |args| == 0 then ActionNone
    else match Classify(args[|args| - 1])
      case HelpOption => ActionHelp
      case InfoOption => ActionInfo
      case _ => LastAction(args[..|args| - 1])
  }

  /** LastAction of a sequence with one more argument in front. */
  lemma {:induction false} LastActionCons(a: string, rest: seq<string>)
    ensures LastAction([a] + rest) ==
      if LastAction(rest) != ActionNone then LastAction(rest)
      else if Classify(a) == HelpOption then ActionHelp
      else if Classify(a) == InfoOption then ActionInfo
      else ActionNone
    decreases |rest|
  {
    if |rest| > 0 {
      assert ([a] + rest)[..|rest|] == [a] + rest[..|rest| - 1];
      LastActionCons(a, rest[..|rest| - 1]);
    } else {
      assert [a] + rest == [a];
    }
  }

  /** The scan, described without the loop: it fails exactly when an unknown
      option occurs; the action is that of the last `-h`/`-v` before the
      first unknown option (kept as it was if there is none); quiet and force
      are set by a `-q` or `-f` before it and never cleared. */
  lemma {:induction false} ScanMeaning(args: seq<string>, st: AppState)
    ensures var r := Scan(args, st); var seen := args[..FirstUnknown(args)];
      && (r.0 == EINVAL <==> FirstUnknown(args) < |args|)
      && (r.0 == EOK <==> FirstUnknown(args) == |args|)
      && r.1.eAction == (if LastAction(seen) != ActionNone then LastAction(seen) else st.eAction)
      && (r.1.bQuiet <==> st.bQuiet || "-q" in seen)
      && (r.1.bForce <==> st.bForce || "-f" in seen)
    decreases |args|
  {
    if |args| > 0 && Classify(args[0]) != UnknownOption {
      var rest := args[1..];
      ScanMeaning(rest, Step(st, Classify(args[0])));
      var seen := args[..FirstUnknown(args)];
      assert seen == [args[0]] + rest[..FirstUnknown(rest)];
      LastActionCons(args[0], rest[..FirstUnknown(rest)]);
    }
  }

  /** parseArguments (main.c lines 229-301): the action is reset, the
      arguments after argv[0] are scanned, and an action still unset at the
      end becomes ActionDump, on the error path too. The quiet and force
      flags are not reset. */
  function ParseArguments(argv: seq<string>, st: AppState): (r: (Errno, AppState))
    ensures var args := if |argv| <= 1 then [] else argv[1..];
            var seen := args[..FirstUnknown(args)];
      && (r.0 == EOK || r.0 == EINVAL)
      && (r.0 == EINVAL <==> exists i :: 1 <= i < |argv| && Classify(argv[i]) == UnknownOption)
      && r.1.eAction == (if LastAction(seen) != ActionNone then LastAction(seen) else ActionDump)
      && (r.1.bQuiet <==> st.bQuiet || "-q" in seen)
      && (r.1.bForce <==> st.bForce || "-f" in seen)
  {
    var args := if |argv| <= 1 then [] else argv[1..];
    var r := Scan(args, st.(eAction := ActionNone));
    ScanMeaning(args, st.(eAction := ActionNone));
    assert (exists i :: 1 <= i < |argv| && Classify(argv[i]) == UnknownOption)
       <==> FirstUnknown(args) < |args| by {
      if FirstUnknown(args) < |args| {
        assert Classify(argv[1 + FirstUnknown(args)]) == UnknownOption;
      }
    }
    (r.0, if r.1.eAction == ActionNone then r.1.(eAction := ActionDump) else r.1)
  }

  /** An unknown option ends the scan: nothing after it changes the result. */
  lemma ParseStopsAtUnknown(argv: seq<string>, tail1: seq<string>, tail2: seq<string>, st: AppState)
    requires |argv| >= 2 && Classify(argv[|argv| - 1]) == UnknownOption
    ensures ParseArguments(argv + tail1, st) == ParseArguments(argv + tail2, st)
  {
    var args := argv[1..];
    assert args[|args| - 1] == argv[|argv| - 1];
    assert (argv + tail1)[1..] == args + tail1;
    assert (argv + tail2)[1..] == args + tail2;
    ScanStopsAtUnknown(args, tail1, tail2, st.(eAction := ActionNone));
  }

  /** The scan reads nothing after the first unknown option. */
  lemma {:induction false} ScanStopsAtUnknown(args: seq<string>, tail1: seq<string>, tail2: seq<string>, st: AppState)
    requires FirstUnknown(args) < |args|
    ensures Scan(args + tail1, st) == Scan(args + tail2, st)
    decreases |args|
  {
    assert (args + tail1)[0] == args[0] == (args + tail2)[0];
    if Classify(args[0]) != UnknownOption {
      assert (args + tail1)[1..] == args[1..] + tail1;
      assert (args + tail2)[1..] == args[1..] + tail2;
      ScanStopsAtUnknown(args[1..], tail1, tail2, Step(st, Classify(args[0])));
    }
  }

  //---------------------------------------------------------------------------
  // main
  //---------------------------------------------------------------------------

  /** What `main` did: the final state, the action it ran (if any), and the
      code it turns into the exit status. */
  datatype Outcome = Outcome(state: AppState, ran: Option<Action>, iExitCode: Errno)

  /** The result of the action functions: `showHelp`, `showInfo` and
      `dumpData` all return EOK, and ActionNone is EOK too. */
  function RunAction(a: Action): Errno
  {
    EOK
  }

  /** main (main.c lines 195-223) after `_construct`: parse, then run the
      action only when parsing succeeded. */
  function Main(argv: seq<string>): (r: Outcome)
    ensures var args := if |argv| <= 1 then [] else argv[1..];
      && (r.iExitCode == EOK <==> forall i :: 1 <= i < |argv| ==> Classify(argv[i]) != UnknownOption)
      && (r.iExitCode != EOK ==> r.iExitCode == EINVAL)
      && (r.ran.Some? <==> r.iExitCode == EOK)
      && (r.ran.Some? ==> r.ran.value == (if LastAction(args) != ActionNone then LastAction(args) else ActionDump))
      && r.state.eAction != ActionNone
  {
    var init := AppState(ActionNone, false, false);
    var (code, st) := ParseArguments(argv, init);
    if code == EOK then
      var args := if |argv| <= 1 then [] else argv[1..];
      assert args[..FirstUnknown(args)] == args;
      Outcome(st, Some(st.eAction), RunAction(st.eAction))
    else Outcome(st, None, code)
  }
}
