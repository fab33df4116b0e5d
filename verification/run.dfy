/** `run`: the whole program after option parsing, from the include list
    to the auth tokens written. */
module Orchestrator {
  import opened Wrappers
  import opened Json
  import opened Errors
  import opened RegistryKey
  import opened Include
  import opened Discovery
  import opened Npm
  import opened Apply
  import opened Strings

  /** The parsed command line: the include directives (absent when no
      `--include` was given), the `--location`, and `--dry-run`. */
  datatype Options = Options(includes: Option<seq<Directive>>, location: Option<string>, dryRun: bool)

  /** How a run ends: the early "Nothing to configure." exit, a completed
      loop over the tasks, or an error thrown on the way. */
  datatype Status = NothingToConfigure | Configured | Failed(error: Error)

  /** The npm reads the run issued, the steps of the auth loop, and how the
      run ended. */
  datatype RunReport = RunReport(queries: seq<Invocation>, steps: seq<Step>, status: Status)

  /** The reads: `config list` for the given location, then, when a
      `publish` include exists, `pkg get publishConfig.registry`. Reads are
      never dry run. */
  function Queries(includes: seq<Directive>, location: Option<string>): (invs: seq<Invocation>)
    ensures 1 <= |invs| <= 2
    ensures invs[0] == Invocation(ListArgs(location), false)
    ensures |invs| == 2 <==> FindInclude(includes, "publish").Some?
    ensures |invs| == 2 ==> invs[1] == Invocation(["pkg", "get", "publishConfig.registry", "--json"], false)
  {
    [Invocation(ListArgs(location), false)]
      + (if FindInclude(includes, "publish").Some? then [Invocation(PkgGetArgs(PublishRegistryField), false)] else [])
  }

  /** Every invocation of a run, in the order it was issued. */
  function AllInvocations(r: RunReport): seq<Invocation> {
    r.queries + SetInvocations(r.steps)
  }

  /** `run`, as written: discovery comes first, and an empty discovery ends
      the run with "Nothing to configure." before the includes are checked;
      otherwise every include must be matched before any token is set. */
  function Run(opts: Options, snap: Snapshot, pkgGetOutput: Value, env: map<string, string>,
               parseUrl: Value -> Option<Url>): (r: RunReport)
    ensures var tasks := Discover(EnsureIncludes(opts.includes), snap, pkgGetOutput);
            && (r.status == NothingToConfigure <==> |tasks| == 0)
            && (r.status.Failed? && r.status.error.UnresolvedInclude? ==> |tasks| > 0 && |r.steps| == 0)
            && (r.status == Configured ==> |r.steps| == |tasks|)
    ensures r.queries == Queries(EnsureIncludes(opts.includes), opts.location)
    ensures |r.steps| > 0 || r.status == Configured ==>
              forall i :: 0 <= i < |EnsureIncludes(opts.includes)| ==>
                Matched(EnsureIncludes(opts.includes)[i].scope, Discover(EnsureIncludes(opts.includes), snap, pkgGetOutput))
    ensures var includes := EnsureIncludes(opts.includes);
            var tasks := Discover(includes, snap, pkgGetOutput);
            |tasks| > 0 && EnsureAllFound(includes, tasks).Fail? ==>
              r.status == Failed(EnsureAllFound(includes, tasks).error) && r.steps == []
    ensures var includes := EnsureIncludes(opts.includes);
            var tasks := Discover(includes, snap, pkgGetOutput);
            var applied := SetupRegistryAuth(tasks, env, opts.dryRun, parseUrl);
            |tasks| > 0 && EnsureAllFound(includes, tasks).Pass? ==>
              && r.steps == applied.steps
              && (r.status == Configured <==> applied.failure.None?)
              && (applied.failure.Some? ==> r.status == Failed(applied.failure.value))
  {
    var includes := EnsureIncludes(opts.includes);
    var queries := Queries(includes, opts.location);
    var tasks := Discover(includes, snap, pkgGetOutput);
    if |tasks| == 0 then RunReport(queries, [], NothingToConfigure)
    else
      match EnsureAllFound(includes, tasks)
      case Fail(e) => RunReport(queries, [], Failed(e))
      case Pass => Configure(queries, tasks, env, opts.dryRun, parseUrl)
  }

  /** The auth loop and the status it ends the run with. */
  function Configure(queries: seq<Invocation>, tasks: seq<Task>, env: map<string, string>, dryRun: bool,
                     parseUrl: Value -> Option<Url>): (r: RunReport)
    ensures r.queries == queries && r.status != NothingToConfigure
    ensures r.status == Configured <==> |r.steps| == |tasks|
    ensures r.status.Failed? ==> r.status.error.InvalidRegistryUrl?
    ensures r.steps == SetupRegistryAuth(tasks, env, dryRun, parseUrl).steps
    ensures var failure := SetupRegistryAuth(tasks, env, dryRun, parseUrl).failure;
            failure.Some? ==> r.status == Failed(failure.value)
  {
    var applied := SetupRegistryAuth(tasks, env, dryRun, parseUrl);
    match applied.failure
    case None => RunReport(queries, applied.steps, Configured)
    case Some(e) => RunReport(queries, applied.steps, Failed(e))
  }

  /** Every discovered task matches an include, so a run in which no
      include is matched by anything discovers nothing and ends with
      "Nothing to configure.": the includes are never checked. */
  lemma UnmatchedIncludesAloneSucceed(opts: Options, snap: Snapshot, pkgGetOutput: Value,
                                      env: map<string, string>, parseUrl: Value -> Option<Url>)
    requires var includes := EnsureIncludes(opts.includes);
             forall i :: 0 <= i < |includes| ==> !Matched(includes[i].scope, Discover(includes, snap, pkgGetOutput))
    ensures Run(opts, snap, pkgGetOutput, env, parseUrl).status == NothingToConfigure
  {
    var includes := EnsureIncludes(opts.includes);
    var tasks := Discover(includes, snap, pkgGetOutput);
    if |tasks| > 0 {
      DiscoverUsesFirstInclude(includes, snap, pkgGetOutput);
      var k := IncludeIndex(includes, tasks[0].scope);
      assert Matched(includes[k].scope, tasks);
    }
  }

  /** `--include @notfound` against a configuration without an
      `@notfound:registry` key: the include check would fail, yet the run
      ends with "Nothing to configure." and no error. */
  lemma NotFoundAloneSucceeds(snap: Snapshot, pkgGetOutput: Value, env: map<string, string>,
                              parseUrl: Value -> Option<Url>)
    requires !HasKeyFor(snap, "@notfound")
    ensures var opts := Options(Some([Directive("@notfound", DefaultEnvVar)]), None, false);
            && Run(opts, snap, pkgGetOutput, env, parseUrl).status == NothingToConfigure
            && EnsureAllFound([Directive("@notfound", DefaultEnvVar)], [])
               == Fail(UnresolvedInclude("@notfound", ScopeHint))
  {
    var includes := [Directive("@notfound", DefaultEnvVar)];
    DiscoverMatchedIff(includes, snap, pkgGetOutput, "@notfound");
    UnmatchedIncludesAloneSucceed(Options(Some(includes), None, false), snap, pkgGetOutput, env, parseUrl);
  }

  /** The run as the usage text describes it: the includes are checked
      before the "Nothing to configure." shortcut, so a run whose includes
      are all matched always has something to configure, and an include
      that nothing matched fails the run before any token is set. */
  function RunValidated(opts: Options, snap: Snapshot, pkgGetOutput: Value, env: map<string, string>,
                        parseUrl: Value -> Option<Url>): (r: RunReport)
    ensures var includes := EnsureIncludes(opts.includes);
            var tasks := Discover(includes, snap, pkgGetOutput);
            && r.status != NothingToConfigure
            && ((exists i :: 0 <= i < |includes| && !Matched(includes[i].scope, tasks)) <==>
                  r.status.Failed? && r.status.error.UnresolvedInclude?)
            && (r.status.Failed? && r.status.error.UnresolvedInclude? ==> |r.steps| == 0)
    ensures r.queries == Queries(EnsureIncludes(opts.includes), opts.location)
    ensures var includes := EnsureIncludes(opts.includes);
            var tasks := Discover(includes, snap, pkgGetOutput);
            EnsureAllFound(includes, tasks).Fail? ==>
              r.status == Failed(EnsureAllFound(includes, tasks).error) && r.steps == []
    ensures var includes := EnsureIncludes(opts.includes);
            var tasks := Discover(includes, snap, pkgGetOutput);
            var applied := SetupRegistryAuth(tasks, env, opts.dryRun, parseUrl);
            EnsureAllFound(includes, tasks).Pass? ==>
              && r.steps == applied.steps
              && (r.status == Configured <==> applied.failure.None?)
              && (applied.failure.Some? ==> r.status == Failed(applied.failure.value))
  {
    var includes := EnsureIncludes(opts.includes);
    var queries := Queries(includes, opts.location);
    var tasks := Discover(includes, snap, pkgGetOutput);
    match EnsureAllFound(includes, tasks)
    case Fail(e) => RunReport(queries, [], Failed(e))
    case Pass =>
      assert Matched(includes[0].scope, tasks);
      Configure(queries, tasks, env, opts.dryRun, parseUrl)
  }

  /** Once the includes are all matched, the two orders agree. */
  lemma ValidatedAgreesWhenAllFound(opts: Options, snap: Snapshot, pkgGetOutput: Value,
                                    env: map<string, string>, parseUrl: Value -> Option<Url>)
    requires var includes := EnsureIncludes(opts.includes);
             forall i :: 0 <= i < |includes| ==> Matched(includes[i].scope, Discover(includes, snap, pkgGetOutput))
    ensures RunValidated(opts, snap, pkgGetOutput, env, parseUrl) == Run(opts, snap, pkgGetOutput, env, parseUrl)
  {
    var includes := EnsureIncludes(opts.includes);
    assert Matched(includes[0].scope, Discover(includes, snap, pkgGetOutput));
  }

  /** In dry run only the reads spawn `npm`; every `config set` is echoed
      and skipped. */
  lemma DryRunWritesNothing(opts: Options, snap: Snapshot, pkgGetOutput: Value,
                            env: map<string, string>, parseUrl: Value -> Option<Url>)
    requires opts.dryRun
    ensures var r := Run(opts, snap, pkgGetOutput, env, parseUrl);
            SpawnedArgs(AllInvocations(r)) == SpawnedArgs(r.queries)
  {
    var r := Run(opts, snap, pkgGetOutput, env, parseUrl);
    var tasks := Discover(EnsureIncludes(opts.includes), snap, pkgGetOutput);
    var sets := SetInvocations(r.steps);
    if |r.steps| > 0 {
      DryRunSetsSpawnNothing(tasks, env, parseUrl);
    }
    SpawnedArgsAppend(r.queries, sets);
  }

  /** Spawning distributes over concatenation. */
  lemma {:induction false} SpawnedArgsAppend(a: seq<Invocation>, b: seq<Invocation>)
    ensures SpawnedArgs(a + b) == SpawnedArgs(a) + SpawnedArgs(b)
    decreases |a|
  {
    if |a| == 0 {
      assert a + b == b;
    } else {
      assert (a + b)[0] == a[0] && (a + b)[1..] == a[1..] + b;
      SpawnedArgsAppend(a[1..], b);
    }
  }

  /** A URL parser that knows one registry, for the example below. */
  function ExampleParse(v: Value): Option<Url> {
    if v == Str("https://r.example/") then Some(Url("r.example", "/")) else None
  }

  /** The configuration of the example below: only a default registry. */
  const ExampleSnapshot: Snapshot := [("registry", Str("https://r.example/"))]

  /** With no options, a configured default registry and the token in
      `NODE_AUTH_TOKEN`, the run lists the configuration and writes one
      token for the registry's host and path to the user configuration. */
  lemma DefaultRegistryExample()
    ensures var r := Run(Options(None, None, false), ExampleSnapshot, Null, map["NODE_AUTH_TOKEN" := "s3"], ExampleParse);
            && r.queries == [Invocation(["config", "list", "--json"], false)]
            && r.steps == [Set(Invocation(["config", "set", "--location", "user", "//r.example/:_authToken", "s3"], false))]
            && r.status == Configured
  {
    var includes := EnsureIncludes(None);
    var tasks := Discover(includes, ExampleSnapshot, Null);
    ExampleDiscovery();
    assert Matched("default", tasks);
    assert EnsureAllFound(includes, tasks) == Pass;
    ExampleApply();
  }

  /** The discovery half of the example. */
  lemma ExampleDiscovery()
    ensures EnsureIncludes(None) == [Directive("default", DefaultEnvVar)]
    ensures Queries(EnsureIncludes(None), None) == [Invocation(["config", "list", "--json"], false)]
    ensures Discover(EnsureIncludes(None), ExampleSnapshot, Null)
            == [Task("default", Str("https://r.example/"), DefaultEnvVar)]
  {
    var includes := EnsureIncludes(None);
    assert includes == [Directive("default", DefaultEnvVar)];
    assert FindInclude(includes, "publish").None? by {
      assert includes[0].scope != "publish";
    }
    assert ListArgs(None) == ["config", "list", "--json"];
    ExampleDefaultTask();
    ExampleHasNoScopedTasks();
    assert Discover(includes, ExampleSnapshot, Null)
           == DefaultTasks(includes, ExampleSnapshot) + PublishTasks(includes, Null) + ScopedTasks(includes, ExampleSnapshot);
  }

  /** The example's `registry` gives the `default` task. */
  lemma ExampleDefaultTask()
    ensures DefaultTasks(EnsureIncludes(None), ExampleSnapshot) == [Task("default", Str("https://r.example/"), DefaultEnvVar)]
  {
    var includes := EnsureIncludes(None);
    assert FindInclude(includes, "default") == Some(includes[0]);
    assert KeyIndex(ExampleSnapshot, "registry") == 0;
    assert Lookup(ExampleSnapshot, "registry") == Some(Str("https://r.example/"));
  }

  /** The example's only key is not a scoped registry key. */
  lemma ExampleHasNoScopedTasks()
    ensures ScopedTasks(EnsureIncludes(None), ExampleSnapshot) == []
  {
    assert !StartsWith("registry", "@") by { assert "registry"[..1] == "r"; }
    assert ScopedTask(EnsureIncludes(None), ExampleSnapshot[0]) == [];
    assert ScopedTasks(EnsureIncludes(None), ExampleSnapshot[1..]) == [];
  }

  /** The auth-loop half of the example. */
  lemma ExampleApply()
    ensures SetupRegistryAuth([Task("default", Str("https://r.example/"), DefaultEnvVar)],
                              map["NODE_AUTH_TOKEN" := "s3"], false, ExampleParse)
            == ApplyReport([Set(Invocation(["config", "set", "--location", "user", "//r.example/:_authToken", "s3"], false))], None)
  {
    assert AuthKeyOf(Url("r.example", "/")) == "//r.example/:_authToken" by {
      assert EndsWith("r.example" + "/", "/");
      assert WithTrailingSlash("r.example" + "/") == "r.example/";
    }
    var task := Task("default", Str("https://r.example/"), DefaultEnvVar);
    var env := map["NODE_AUTH_TOKEN" := "s3"];
    assert ExampleParse(task.registryUrl) == Some(Url("r.example", "/"));
    assert Token(env, task.envVar) == Some("s3");
    var step := StepFor("//r.example/:_authToken", task, env, false);
    assert step == Set(Invocation(["config", "set", "--location", "user", "//r.example/:_authToken", "s3"], false));
    var r := SetupRegistryAuth([task], env, false, ExampleParse);
    assert |r.steps| == 1 && r.steps[0] == step;
  }
}
