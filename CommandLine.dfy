/** The argument handling at the start of `main` in omero/verify_jars.py:
    an optional leading `-v`, then at least one directory. */
module CommandLine {
  import opened Wrappers

  /** What a valid command line asks for. */
  datatype Invocation = Invocation(verbose: bool, dirs: seq<string>)

  /** The exit status of `Stop(1, usage())`. */
  const UsageError: int := 1

  /** Python's `xs[k:]`, which is empty rather than an error when `k` is past the end. */
  function From(xs: seq<string>, k: nat): (r: seq<string>)
    ensures k <= |xs| ==> xs == xs[..k] + r
    ensures k >= |xs| ==> r == []
  {
    if k <= |xs| then xs[k..] else []
  }

  /** `main` as written: the checks read `args`, but the directories are taken
      from `argv` (the process's `sys.argv`). */
  function MainArgsAsWritten(args: seq<string>, argv: seq<string>): Result<Invocation, int> {
    if |args| < 2 then Failure(UsageError)
    else
      var verbose := args[1] == "-v";
      var dirs := if verbose then From(argv, 2) else From(argv, 1);
      if |dirs| < 1 then Failure(UsageError) else Success(Invocation(verbose, dirs))
  }

  /** `main` with the directories taken from its own argument list. */
  function MainArgs(args: seq<string>): (r: Result<Invocation, int>)
    ensures r.Failure? ==> r.error == UsageError
  {
    if |args| < 2 then Failure(UsageError)
    else
      var verbose := args[1] == "-v";
      var dirs := if verbose then args[2..] else args[1..];
      if |dirs| < 1 then Failure(UsageError) else Success(Invocation(verbose, dirs))
  }

  /** The command line is accepted exactly when it names at least one
      directory, after an optional `-v`; an accepted one is rebuilt from the
      program name, the flag and the directories. */
  lemma MainArgsMeaning(args: seq<string>)
    ensures MainArgs(args).Success? <==> |args| >= 2 && !(args[1] == "-v" && |args| == 2)
    ensures MainArgs(args).Success? ==>
      var inv := MainArgs(args).value;
      inv.dirs != [] && inv.verbose == (args[1] == "-v") &&
      args == args[..1] + (if inv.verbose then ["-v"] else []) + inv.dirs
  {
    if MainArgs(args).Success? {
      var inv := MainArgs(args).value;
      if inv.verbose {
        assert args == args[..1] + [args[1]] + args[2..];
      } else {
        assert args == args[..1] + args[1..];
      }
    }
  }

  /** When `main` is called as the script does, with `sys.argv` itself, the
      code as written behaves as intended. */
  lemma AsWrittenAgreesOnArgv(argv: seq<string>)
    ensures MainArgsAsWritten(argv, argv) == MainArgs(argv)
  {
  }

  /** Called with an argument list other than `sys.argv`, the code as written
      takes its directories from the wrong list: here `args` names a directory
      but the call is rejected with the usage error. */
  lemma AsWrittenIgnoresArgs()
    ensures MainArgs(["verify_jars.py", "lib"]) == Success(Invocation(false, ["lib"]))
    ensures MainArgsAsWritten(["verify_jars.py", "lib"], ["verify_jars.py"]) == Failure(UsageError)
  {
    assert ["verify_jars.py", "lib"][1..] == ["lib"];
  }
}
