/** The npm commands the program issues, as argument vectors, and the
    dry-run branch of `npmExec`. */
module Npm {
  import opened Wrappers

  /** One call of `npmExec`: the arguments after `npm` and the dry-run flag. */
  datatype Invocation = Invocation(args: seq<string>, dryRun: bool)

  /** What `npmExec` does with an invocation once it has echoed it: in dry
      run it resolves to `""` at once; otherwise it hands the argument
      vector to `spawn` with `shell: true`, whose outcome is not modelled. */
  datatype Effect = Resolved(stdout: string) | Spawned(args: seq<string>)

  /** `if (location)`: a location counts only when given and non-empty. */
  predicate LocationGiven(location: Option<string>) {
    location.Some? && location.value != ""
  }

  /** `npm.config(location).list()`: `config list --json`, plus
      `--location=<location>` when a location is given. */
  function ListArgs(location: Option<string>): (args: seq<string>)
    ensures |args| >= 3 && args[..3] == ["config", "list", "--json"]
    ensures |args| == 4 <==> LocationGiven(location)
    ensures |args| <= 4
    ensures |args| == 4 ==> args[3] == "--location=" + location.value
  {
    ["config", "list", "--json"] + (if LocationGiven(location) then ["--location=" + location.value] else [])
  }

  /** `npm.config(location).set(key, value)`: `config set`, then
      `--location <location>` when a location is given, then the key and the
      value. */
  function SetArgs(location: Option<string>, key: string, value: string): (args: seq<string>)
    ensures |args| >= 4 && args[..2] == ["config", "set"] && args[|args| - 2..] == [key, value]
    ensures |args| == 6 <==> LocationGiven(location)
    ensures |args| <= 6
    ensures |args| == 6 ==> args[2..4] == ["--location", location.value]
  {
    var loc := if LocationGiven(location) then ["--location", location.value] else [];
    var args := ["config", "set"] + loc + [key, value];
    assert args[|args| - 2..] == [key, value];
    args
  }

  /** `npm.pkg.get(key)`: `pkg get <key> --json`. */
  function PkgGetArgs(key: string): (args: seq<string>)
    ensures |args| == 4 && args[..2] == ["pkg", "get"] && args[2] == key && args[3] == "--json"
  {
    ["pkg", "get", key, "--json"]
  }

  /** The dry-run branch of `npmExec`: a dry-run invocation is echoed and
      resolves to the empty output without spawning anything; any other
      invocation hands its argument vector to `spawn("npm", args)`, which
      runs it through a shell (`shell: true`). What the shell then makes
      of the vector is not modelled. */
  function NpmExec(inv: Invocation): (e: Effect)
    ensures e.Resolved? <==> inv.dryRun
    ensures e.Resolved? ==> e.stdout == ""
    ensures e.Spawned? ==> e.args == inv.args
  {
    if inv.dryRun then Resolved("") else Spawned(inv.args)
  }

  /** The argument vectors of the invocations that actually spawn `npm`. */
  function SpawnedArgs(invs: seq<Invocation>): (spawned: seq<seq<string>>)
    ensures |spawned| <= |invs|
    ensures forall a :: a in spawned ==> exists i :: 0 <= i < |invs| && !invs[i].dryRun && invs[i].args == a
    ensures forall i :: 0 <= i < |invs| && !invs[i].dryRun ==> invs[i].args in spawned
    decreases |invs|
  {
    if |invs| == 0 then []
    else
      var rest := SpawnedArgs(invs[1..]);
      assert forall i :: 1 <= i < |invs| ==> invs[i] == invs[1..][i - 1];
      match NpmExec(invs[0])
      case Resolved(_) => rest
      case Spawned(args) => [args] + rest
  }
}
