/** What the three release scripts under scripts/ share: their command-line
    conventions, and the way a shell command is run. */
module ScriptSupport {
  import opened Wrappers

  /** `execCommand`: the trimmed standard output of a command, or `None` when
      `execSync` throws (a non-zero exit). Git and npm are not run: this is
      the oracle that answers for them. */
  type Exec = string -> Option<string>

  /** How a script run ends: `process.exit(code)`, or by reaching its end
      having released `version` under `tag`. */
  datatype Outcome = Exit(code: int) | Finished(version: string, tag: string)

  /** `args[0] || 'patch'`: a missing or empty first argument means "patch". */
  function VersionTypeArg(args: seq<string>): (t: string)
    ensures t != ""
    ensures |args| > 0 && args[0] != "" ==> t == args[0]
    ensures (|args| == 0 || args[0] == "") ==> t == "patch"
  {
    if |args| > 0 && args[0] != "" then args[0] else "patch"
  }

  /** `args.includes(long) || args.includes(short)`. */
  predicate HasFlag(args: seq<string>, long: string, short: string)
  {
    long in args || short in args
  }

  /** The git tag a version is released under. */
  function TagName(version: string): (tag: string)
    ensures |tag| == |version| + 1 && tag[0] == 'v' && tag[1..] == version
  {
    "v" + version
  }

  /** `execCommand(command)`: the command is issued (appended to the trace) and
      `ok` says whether it succeeded; a failure is thrown to the script's
      top-level handler, which exits with code 1. */
  method ExecCommand(trace: seq<string>, command: string, exec: Exec) returns (trace': seq<string>, ok: bool)
    ensures trace' == trace + [command]
    ensures ok == exec(command).Some?
  {
    trace' := trace + [command];
    ok := exec(command).Some?;
  }

  predicate AllSucceed(commands: seq<string>, exec: Exec)
  {
    forall k | 0 <= k < |commands| :: exec(commands[k]).Some?
  }

  /** A prefix of the second part of a plan, after the whole first part, is a
      prefix of the plan. */
  lemma PrefixAfter(a: seq<string>, b: seq<string>, p: seq<string>)
    requires |p| <= |b| && p == b[..|p|]
    ensures a + p == (a + b)[..|a| + |p|]
  {
  }
}
