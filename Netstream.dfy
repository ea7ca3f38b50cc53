/*
 * netstream.c: the command-line options, the verbosity gate of the debug
 * prints, the test-only marking of every endpoint and the exit code main
 * computes once the endpoint threads are done.
 */
module Netstream {
  import opened Common
  import opened Conffile

  // ---------------------------------------------------------------------------
  // parse_args
  // ---------------------------------------------------------------------------

  /**
   * One option as getopt hands it over for the option string "c:dv::t": -c with
   * its argument, -d, -v with its optional argument, -t, or a character getopt
   * does not know.
   */
  datatype Opt = OptC(arg: string) | OptD | OptV(level: Option<string>) | OptT | Unknown(ch: char)

  /** struct cmd_args: the config file path, the daemon and test-only flags and the verbosity. */
  datatype CmdArgs = CmdArgs(cfgFile: string, daemonize: bool, verbosity: int, testonly: bool)

  /** What parse_args stores before it looks at any option. */
  function Defaults(): CmdArgs
  {
    CmdArgs("netstream.conf", false, 3, false)
  }

  /** atoi: the decimal prefix strtol reads, with no overflow handling. */
  function Atoi(s: string): int
  {
    Strtol(s)
  }

  /** The values of a C int, the type atoi returns. */
  predicate IsInt(n: int)
  {
    -0x8000_0000 <= n < 0x8000_0000
  }

  /**
   * Storing an int in a field of type enum verbosity. The enum has no negative
   * value, so it is an unsigned int, and a negative number is stored modulo 2^32.
   */
  function StoreVerbosity(n: int): int
  {
    n % 0x1_0000_0000
  }

  /**
   * The verbosity -v sets: 4 without an argument; otherwise the number atoi reads,
   * stored unsigned and then cut down to 7 when larger. A negative level is stored
   * as a huge unsigned number, so it ends up as 7 as well.
   */
  function VerbosityOf(level: Option<string>): (v: int)
    ensures Quiet <= v <= Debug
    ensures level.None? ==> v == Warn
    ensures level.Some? ==> (v == Atoi(level.value) <==> Quiet <= Atoi(level.value) <= Debug)
    ensures level.Some? && IsInt(Atoi(level.value)) && !(Quiet <= Atoi(level.value) <= Debug) ==> v == Debug
  {
    match level
    case None => 4
    case Some(s) => if StoreVerbosity(Atoi(s)) > 7 then 7 else StoreVerbosity(Atoi(s))
  }

  /** One pass of parse_args' switch for a known option. */
  function ApplyOpt(a: CmdArgs, o: Opt): CmdArgs
    requires !o.Unknown?
  {
    match o
    case OptC(f) => a.(cfgFile := f)
    case OptD => a.(daemonize := true)
    case OptV(l) => a.(verbosity := VerbosityOf(l))
    case OptT => a.(testonly := true)
  }

  /** The arguments after the options, taken left to right until the first unknown one. */
  function Fold(a: CmdArgs, opts: seq<Opt>): CmdArgs
    decreases |opts|
  {
    if opts == [] || opts[0].Unknown? then a
    else Fold(ApplyOpt(a, opts[0]), opts[1..])
  }

  /** Whether some option is one getopt does not know. */
  predicate HasUnknown(opts: seq<Opt>)
  {
    exists i :: 0 <= i < |opts| && opts[i].Unknown?
  }

  /**
   * parse_args over the options getopt returns: the defaults, then each option in
   * turn; the first unknown one makes it return -1 with the fields set so far.
   */
  method ParseArgs(opts: seq<Opt>) returns (r: int, args: CmdArgs)
    ensures r == 0 || r == -1
    ensures r == -1 <==> HasUnknown(opts)
    ensures args == Fold(Defaults(), opts)
  {
    args := CmdArgs("netstream.conf", false, 3, false);
    var i := 0;
    while i < |opts|
      invariant 0 <= i <= |opts|
      invariant forall j :: 0 <= j < i ==> !opts[j].Unknown?
      invariant Fold(Defaults(), opts) == Fold(args, opts[i..])
    {
      assert opts[i..][1..] == opts[i + 1..];
      match opts[i] {
        case OptC(f) => args := args.(cfgFile := f);
        case OptD => args := args.(daemonize := true);
        case OptV(l) =>
          if l.None? {
            args := args.(verbosity := 4);
          } else {
            args := args.(verbosity := StoreVerbosity(Atoi(l.value)));
            if args.verbosity > 7 {
              args := args.(verbosity := 7);
            }
          }
        case OptT => args := args.(testonly := true);
        case Unknown(_) => return -1, args;
      }
      i := i + 1;
    }
    r := 0;
  }

  /** Everything after the first unknown option is never looked at. */
  lemma {:induction false} FoldStopsAtUnknown(a: CmdArgs, opts: seq<Opt>, c: char, rest: seq<Opt>)
    ensures Fold(a, opts + [Unknown(c)] + rest) == Fold(a, opts)
    decreases |opts|
  {
    if opts == [] {
      assert (opts + [Unknown(c)] + rest)[0] == Unknown(c);
    } else {
      assert (opts + [Unknown(c)] + rest)[1..] == opts[1..] + [Unknown(c)] + rest;
      if !opts[0].Unknown? {
        FoldStopsAtUnknown(ApplyOpt(a, opts[0]), opts[1..], c, rest);
      }
    }
  }

  /** The flags -d and -t are set by any occurrence and never cleared. */
  lemma {:induction false} FoldFlags(a: CmdArgs, opts: seq<Opt>)
    requires !HasUnknown(opts)
    ensures Fold(a, opts).daemonize <==> a.daemonize || exists i :: 0 <= i < |opts| && opts[i].OptD?
    ensures Fold(a, opts).testonly <==> a.testonly || exists i :: 0 <= i < |opts| && opts[i].OptT?
    decreases |opts|
  {
    if opts != [] {
      assert forall i :: 1 <= i < |opts| ==> opts[1..][i - 1] == opts[i];
      FoldFlags(ApplyOpt(a, opts[0]), opts[1..]);
    }
  }

  /** For -c the last occurrence wins; with none the path is left as it was. */
  lemma {:induction false} FoldConfigFileLastWins(a: CmdArgs, opts: seq<Opt>)
    requires !HasUnknown(opts)
    ensures (forall i :: 0 <= i < |opts| ==> !opts[i].OptC?) ==> Fold(a, opts).cfgFile == a.cfgFile
    ensures forall i :: 0 <= i < |opts| && opts[i].OptC? && (forall j :: i < j < |opts| ==> !opts[j].OptC?) ==>
      Fold(a, opts).cfgFile == opts[i].arg
    decreases |opts|
  {
    if opts != [] {
      assert forall i :: 1 <= i < |opts| ==> opts[1..][i - 1] == opts[i];
      FoldConfigFileLastWins(ApplyOpt(a, opts[0]), opts[1..]);
    }
  }

  /** For -v the last occurrence wins; with none the verbosity is left as it was. */
  lemma {:induction false} FoldVerbosityLastWins(a: CmdArgs, opts: seq<Opt>)
    requires !HasUnknown(opts)
    ensures (forall i :: 0 <= i < |opts| ==> !opts[i].OptV?) ==> Fold(a, opts).verbosity == a.verbosity
    ensures forall i :: 0 <= i < |opts| && opts[i].OptV? && (forall j :: i < j < |opts| ==> !opts[j].OptV?) ==>
      Fold(a, opts).verbosity == VerbosityOf(opts[i].level)
    decreases |opts|
  {
    if opts != [] {
      assert forall i :: 1 <= i < |opts| ==> opts[1..][i - 1] == opts[i];
      FoldVerbosityLastWins(ApplyOpt(a, opts[0]), opts[1..]);
    }
  }

  /** Whatever the options, the verbosity parse_args leaves is one of the levels QUIET..DEBUG. */
  lemma {:induction false} FoldVerbosityCapped(a: CmdArgs, opts: seq<Opt>)
    requires Quiet <= a.verbosity <= Debug
    ensures Quiet <= Fold(a, opts).verbosity <= Debug
    decreases |opts|
  {
    if opts != [] && !opts[0].Unknown? {
      FoldVerbosityCapped(ApplyOpt(a, opts[0]), opts[1..]);
    }
  }

  /** With no options parse_args succeeds with the defaults. */
  lemma ParseArgsNoOptions()
    ensures Fold(Defaults(), []) == CmdArgs("netstream.conf", false, Err, false)
    ensures !HasUnknown([])
  {
  }

  /** "-v N" stores the level N itself for every N from 0 to 7. */
  lemma VerbosityReadsLevel(n: int)
    requires Quiet <= n <= Debug
    ensures Fold(Defaults(), [OptV(Some(Decimal(n)))]).verbosity == n
  {
    StrtolReadsDecimal(n, []);
    assert Decimal(n) + [] == Decimal(n);
    assert [OptV(Some(Decimal(n)))][1..] == [];
  }

  /** "-v N" for an int N outside 0..7, negative ones included, gives DEBUG. */
  lemma VerbosityOutOfRange(n: int)
    requires IsInt(n) && !(Quiet <= n <= Debug)
    ensures Fold(Defaults(), [OptV(Some(Decimal(n)))]).verbosity == Debug
  {
    StrtolReadsDecimal(n, []);
    assert Decimal(n) + [] == Decimal(n);
    assert [OptV(Some(Decimal(n)))][1..] == [];
  }

  // ---------------------------------------------------------------------------
  // dprint
  // ---------------------------------------------------------------------------

  /**
   * dprint: the result of printing the message (the oracle `printed`) when the
   * configured verbosity admits its level, 0 otherwise.
   */
  function Dprint(verbosity: int, verb: int, printed: int): int
  {
    if verbosity >= verb then printed else 0
  }

  /**
   * The argument of the last -v among the options: None when there is no -v,
   * Some(None) for a -v without an argument.
   */
  function LastLevel(opts: seq<Opt>): (l: Option<Option<string>>)
    ensures l.None? <==> forall i :: 0 <= i < |opts| ==> !opts[i].OptV?
    ensures l.Some? ==> exists i :: 0 <= i < |opts| && opts[i] == OptV(l.value) && forall j :: i < j < |opts| ==> !opts[j].OptV?
    decreases |opts|
  {
    if opts == [] then None
    else if opts[|opts| - 1].OptV? then Some(opts[|opts| - 1].level)
    else
      assert forall i :: 0 <= i < |opts| - 1 ==> opts[..|opts| - 1][i] == opts[i];
      LastLevel(opts[..|opts| - 1])
  }

  /**
   * The gate dprint applies once parse_args has succeeded. Without -v a message is
   * printed up to level ERR, after a bare -v up to WARN, after -v N with N in 0..7
   * up to N, and after -v N with any other int N (a negative one included) at
   * every level; dprint returns 0 for a message it does not print.
   */
  lemma DprintGate(opts: seq<Opt>, verb: int, printed: int)
    requires !HasUnknown(opts)
    ensures var out := Dprint(Fold(Defaults(), opts).verbosity, verb, printed);
      && (LastLevel(opts).None? ==> out == (if verb <= Err then printed else 0))
      && (LastLevel(opts) == Some(None) ==> out == (if verb <= Warn then printed else 0))
      && (LastLevel(opts).Some? && LastLevel(opts).value.Some? ==>
            var n := Atoi(LastLevel(opts).value.value);
            && (Quiet <= n <= Debug ==> out == (if verb <= n then printed else 0))
            && (IsInt(n) && !(Quiet <= n <= Debug) ==> out == (if verb <= Debug then printed else 0)))
  {
    FoldVerbosityLastWins(Defaults(), opts);
    if LastLevel(opts).Some? {
      var i :| 0 <= i < |opts| && opts[i] == OptV(LastLevel(opts).value) && forall j :: i < j < |opts| ==> !opts[j].OptV?;
      assert Fold(Defaults(), opts).verbosity == VerbosityOf(opts[i].level);
    }
  }

  // ---------------------------------------------------------------------------
  // main: test-only marking and the exit code
  // ---------------------------------------------------------------------------

  /** Every output in use and the input get the test-only flag of the command line. */
  method MarkTestOnly(config: IoConfig, testonly: bool)
    requires 0 <= config.nOuts <= config.outs.Length
    modifies config`input, config.outs
    ensures forall i :: 0 <= i < config.nOuts ==> config.outs[i] == old(config.outs[i]).(testOnly := testonly)
    ensures forall i :: config.nOuts <= i < config.outs.Length ==> config.outs[i] == old(config.outs[i])
    ensures config.input == old(config.input).(testOnly := testonly)
  {
    for i := 0 to config.nOuts
      invariant forall j :: 0 <= j < i ==> config.outs[j] == old(config.outs[j]).(testOnly := testonly)
      invariant forall j :: i <= j < config.outs.Length ==> config.outs[j] == old(config.outs[j])
      invariant config.input == old(config.input)
    {
      config.outs[i] := config.outs[i].(testOnly := testonly);
    }
    config.input := config.input.(testOnly := testonly);
  }

  /**
   * The end of main. `dead` holds the exit statuses of the endpoints on the dead
   * list when main last looked at it, `readJoin` the result of joining the reader,
   * and `joins` and `outStatus` the join result and final exit status of each
   * writer. A failing registered endpoint stops the wait; then every writer is
   * joined. The result is 1 when any of those is non-zero and 0 otherwise; the
   * reader's join result plays no part.
   */
  method ExitCode(dead: seq<int>, readJoin: int, joins: seq<int>, outStatus: seq<int>) returns (retval: int)
    requires |joins| == |outStatus|
    ensures retval == 0 || retval == 1
    ensures retval == 1 <==>
      (exists i :: 0 <= i < |dead| && dead[i] != 0) ||
      (exists i :: 0 <= i < |joins| && joins[i] != 0) ||
      (exists i :: 0 <= i < |outStatus| && outStatus[i] != 0)
  {
    retval := 0;
    for i := 0 to |dead|
      invariant forall j :: 0 <= j < i ==> dead[j] == 0
      invariant retval == 0
    {
      if dead[i] != 0 {
        retval := 1;
        break;
      }
    }
    ghost var deadFailed := retval == 1;
    assert deadFailed <==> exists i :: 0 <= i < |dead| && dead[i] != 0;
    var res := readJoin;
    for i := 0 to |joins|
      invariant retval == 0 || retval == 1
      invariant retval == 1 <==>
        (deadFailed || (exists j :: 0 <= j < i && joins[j] != 0) || (exists j :: 0 <= j < i && outStatus[j] != 0))
    {
      res := joins[i];
      if res != 0 {
        retval := 1;
      }
      if outStatus[i] != 0 {
        retval := 1;
      }
    }
  }
}
