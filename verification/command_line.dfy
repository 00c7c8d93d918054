/** The command-line handling of run_sim.py: a pass over the arguments after the program
    name that sets the verbosity flag and chooses how the external controller is loaded. */
module CommandLine {

  /** `verbose` and `use_script` as the script's entry point hands them to the simulation. */
  datatype Options = Options(verbose: bool, useScript: bool)

  /** The values before any argument is read. */
  const Defaults := Options(false, true)

  predicate IsVerboseFlag(arg: string) { arg == "-v" || arg == "--verbose" }
  predicate IsModuleFlag(arg: string) { arg == "-m" || arg == "--module" }
  predicate IsScriptFlag(arg: string) { arg == "-s" || arg == "--script" }

  /** A flag that chooses how the controller is loaded. */
  predicate IsModeFlag(arg: string) { IsModuleFlag(arg) || IsScriptFlag(arg) }

  /** The effect of one argument; anything that is not a known flag leaves `o` as it is. */
  function ApplyArg(o: Options, arg: string): (r: Options)
    ensures r.verbose <==> o.verbose || IsVerboseFlag(arg)
    ensures IsModeFlag(arg) ==> r.useScript == IsScriptFlag(arg)
    ensures !IsModeFlag(arg) ==> r.useScript == o.useScript
  {
    if IsVerboseFlag(arg) then o.(verbose := true)
    else if IsModuleFlag(arg) then o.(useScript := false)
    else if IsScriptFlag(arg) then o.(useScript := true)
    else o
  }

  /** The arguments applied to `o` from first to last. */
  function ApplyArgs(o: Options, args: seq<string>): (r: Options)
    ensures o.verbose ==> r.verbose
    ensures (forall i :: 0 <= i < |args| ==> !IsVerboseFlag(args[i]) && !IsModeFlag(args[i])) ==> r == o
    decreases |args|
  {
    if args == [] then o else ApplyArg(ApplyArgs(o, args[..|args| - 1]), args[|args| - 1])
  }

  /** `sys.argv[1:]`: the arguments after the program name. */
  function UserArgs(argv: seq<string>): (rest: seq<string>)
    ensures |rest| == if |argv| == 0 then 0 else |argv| - 1
    ensures forall i :: 0 <= i < |rest| ==> rest[i] == argv[i + 1]
  {
    if |argv| == 0 then [] else argv[1..]
  }

  /** Reading `a` and then `b` is reading `a + b`. */
  lemma {:induction false} ApplyArgsAppend(o: Options, a: seq<string>, b: seq<string>)
    ensures ApplyArgs(o, a + b) == ApplyArgs(ApplyArgs(o, a), b)
    decreases |b|
  {
    if b == [] {
      assert a + b == a;
    } else {
      assert (a + b)[..|a + b| - 1] == a + b[..|b| - 1];
      ApplyArgsAppend(o, a, b[..|b| - 1]);
    }
  }

  /** Verbosity is on exactly when it was on already or some argument is `-v` or `--verbose`. */
  lemma {:induction false} VerboseIffFlagGiven(o: Options, args: seq<string>)
    ensures ApplyArgs(o, args).verbose <==> o.verbose || exists i :: 0 <= i < |args| && IsVerboseFlag(args[i])
    decreases |args|
  {
    if args != [] {
      var prefix := args[..|args| - 1];
      VerboseIffFlagGiven(o, prefix);
      assert forall i :: 0 <= i < |prefix| ==> prefix[i] == args[i];
      if IsVerboseFlag(args[|args| - 1]) {
        assert exists i :: 0 <= i < |args| && IsVerboseFlag(args[i]);
      }
    }
  }

  /** Without a mode flag, the loading mode stays as it was. */
  lemma {:induction false} ModeKeptWithoutModeFlag(o: Options, args: seq<string>)
    requires forall i :: 0 <= i < |args| ==> !IsModeFlag(args[i])
    ensures ApplyArgs(o, args).useScript == o.useScript
    decreases |args|
  {
    if args != [] {
      ModeKeptWithoutModeFlag(o, args[..|args| - 1]);
    }
  }

  /** The last mode flag decides the loading mode. */
  lemma {:induction false} LastModeFlagWins(o: Options, args: seq<string>, k: nat)
    requires k < |args| && IsModeFlag(args[k])
    requires forall j :: k < j < |args| ==> !IsModeFlag(args[j])
    ensures ApplyArgs(o, args).useScript == IsScriptFlag(args[k])
  {
    ApplyArgsAppend(o, args[..k + 1], args[k + 1..]);
    assert args[..k + 1] + args[k + 1..] == args;
    assert args[..k + 1][..k] == args[..k];
    ModeKeptWithoutModeFlag(ApplyArgs(o, args[..k + 1]), args[k + 1..]);
  }

  /** An argument that is not one of the six flags changes nothing. */
  lemma OtherArgIgnored(o: Options, a: seq<string>, x: string, b: seq<string>)
    requires !IsVerboseFlag(x) && !IsModeFlag(x)
    ensures ApplyArgs(o, a + [x] + b) == ApplyArgs(o, a + b)
  {
    ApplyArgsAppend(o, a + [x], b);
    ApplyArgsAppend(o, a, b);
    assert (a + [x])[..|a + [x]| - 1] == a;
  }

  /** The argument loop of the script's entry point. */
  method ParseArgs(argv: seq<string>) returns (verbose: bool, useScript: bool)
    ensures Options(verbose, useScript) == ApplyArgs(Defaults, UserArgs(argv))
    ensures verbose <==> exists i :: 1 <= i < |argv| && IsVerboseFlag(argv[i])
    ensures (forall i :: 1 <= i < |argv| ==> !IsModeFlag(argv[i])) ==> useScript
    ensures forall k :: 1 <= k < |argv| && IsModeFlag(argv[k]) && (forall j :: k < j < |argv| ==> !IsModeFlag(argv[j]))
              ==> useScript == IsScriptFlag(argv[k])
  {
    verbose := false;
    useScript := true;
    var args := UserArgs(argv);
    for i := 0 to |args|
      invariant Options(verbose, useScript) == ApplyArgs(Defaults, args[..i])
    {
      assert args[..i + 1][..i] == args[..i];
      var arg := args[i];
      if arg == "-v" || arg == "--verbose" {
        verbose := true;
      } else if arg == "-m" || arg == "--module" {
        useScript := false;
      } else if arg == "-s" || arg == "--script" {
        useScript := true;
      }
    }
    assert args[..|args|] == args;
    assert forall i :: 0 <= i < |args| ==> args[i] == argv[i + 1];
    VerboseIffFlagGiven(Defaults, args);
    if exists i :: 1 <= i < |argv| && IsVerboseFlag(argv[i]) {
      var i :| 1 <= i < |argv| && IsVerboseFlag(argv[i]);
      assert IsVerboseFlag(args[i - 1]);
    }
    if forall i :: 1 <= i < |argv| ==> !IsModeFlag(argv[i]) {
      assert forall i :: 0 <= i < |args| ==> !IsModeFlag(args[i]);
      ModeKeptWithoutModeFlag(Defaults, args);
    }
    forall k | 1 <= k < |argv| && IsModeFlag(argv[k]) && (forall j :: k < j < |argv| ==> !IsModeFlag(argv[j]))
      ensures useScript == IsScriptFlag(argv[k])
    {
      assert forall j :: k - 1 < j < |args| ==> !IsModeFlag(args[j]);
      LastModeFlagWins(Defaults, args, k - 1);
    }
  }
}
