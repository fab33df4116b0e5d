/** `setupRegistryAuth`: writing one auth token per discovered task. */
module Apply {
  import opened Wrappers
  import opened Json
  import opened Errors
  import opened RegistryKey
  import opened Discovery
  import opened Npm

  /** What the loop did for one task: issued a `config set`, or reported
      the task's environment variable as missing and moved on. */
  datatype Step =
    | Set(inv: Invocation)
    | MissingEnv(envVar: string)

  /** The steps taken, in task order, and the error that stopped the loop
      early, if any; the steps before the error have already been taken. */
  datatype ApplyReport = ApplyReport(steps: seq<Step>, failure: Option<Error>)

  /** Tokens are always written to the user configuration, whatever
      location the run was given. */
  const AuthLocation: string := "user"

  /** `process.env[envVar] || null`: an unset or empty variable has no
      token. */
  function Token(env: map<string, string>, envVar: string): (t: Option<string>)
    ensures t.Some? <==> envVar in env && env[envVar] != ""
    ensures t.Some? ==> t.value == env[envVar]
  {
    if envVar in env && env[envVar] != "" then Some(env[envVar]) else None
  }

  /** One task, once its auth key is known: a missing token is reported;
      otherwise `npm config set --location user <key> <token>` is issued,
      in dry run or not. */
  function StepFor(authKey: string, task: Task, env: map<string, string>, dryRun: bool): (s: Step)
    ensures s.MissingEnv? <==> Token(env, task.envVar).None?
    ensures s.MissingEnv? ==> s.envVar == task.envVar
    ensures s.Set? ==>
              s.inv == Invocation(["config", "set", "--location", "user", authKey, Token(env, task.envVar).value], dryRun)
  {
    match Token(env, task.envVar)
    case None => MissingEnv(task.envVar)
    case Some(token) =>
      var args := SetArgs(Some(AuthLocation), authKey, token);
      assert args == ["config", "set"] + ["--location", "user"] + [authKey, token];
      Set(Invocation(args, dryRun))
  }

  /** `setupRegistryAuth`: the tasks are handled strictly in order. Each
      task's auth key is derived first, so a registry value the URL parser
      rejects stops the loop with an error even when the token is missing;
      every task before it has produced its step. */
  function SetupRegistryAuth(tasks: seq<Task>, env: map<string, string>, dryRun: bool,
                             parseUrl: Value -> Option<Url>): (r: ApplyReport)
    ensures |r.steps| <= |tasks|
    ensures r.failure.None? <==> |r.steps| == |tasks|
    ensures r.failure.Some? ==>
              && parseUrl(tasks[|r.steps|].registryUrl).None?
              && r.failure.value == InvalidRegistryUrl(tasks[|r.steps|].registryUrl)
    decreases |tasks|
  {
    if |tasks| == 0 then ApplyReport([], None)
    else
      match RegistryToAuthKey(parseUrl, tasks[0].registryUrl)
      case Failure(e) => ApplyReport([], Some(e))
      case Success(authKey) =>
        var rest := SetupRegistryAuth(tasks[1..], env, dryRun, parseUrl);
        assert |rest.steps| < |tasks[1..]| ==> tasks[1..][|rest.steps|] == tasks[|rest.steps| + 1];
        Prepend(StepFor(authKey, tasks[0], env, dryRun), rest)
  }

  /** Each step the loop took belongs to the task at the same position and
      uses the auth key of that task's parsed registry URL. */
  lemma {:induction false} StepsFollowTasks(tasks: seq<Task>, env: map<string, string>, dryRun: bool,
                                           parseUrl: Value -> Option<Url>, i: nat)
    requires i < |tasks|
    ensures var r := SetupRegistryAuth(tasks, env, dryRun, parseUrl);
            i < |r.steps| ==>
              && parseUrl(tasks[i].registryUrl).Some?
              && r.steps[i] == StepFor(AuthKeyOf(parseUrl(tasks[i].registryUrl).value), tasks[i], env, dryRun)
    decreases i
  {
    if i > 0 && parseUrl(tasks[0].registryUrl).Some? {
      StepsFollowTasks(tasks[1..], env, dryRun, parseUrl, i - 1);
      assert tasks[1..][i - 1] == tasks[i];
    }
  }

  /** A step taken before the steps of a later report. */
  function Prepend(step: Step, rest: ApplyReport): (r: ApplyReport)
    ensures |r.steps| == |rest.steps| + 1 && r.failure == rest.failure
    ensures r.steps[0] == step && r.steps[1..] == rest.steps
  {
    ApplyReport([step] + rest.steps, rest.failure)
  }

  /** The invocations among the steps, in order. */
  function SetInvocations(steps: seq<Step>): (invs: seq<Invocation>)
    ensures |invs| <= |steps|
    ensures forall inv :: inv in invs <==> Set(inv) in steps
    decreases |steps|
  {
    if |steps| == 0 then []
    else
      var rest := SetInvocations(steps[1..]);
      assert forall s :: s in steps <==> s == steps[0] || s in steps[1..];
      match steps[0]
      case Set(inv) => [inv] + rest
      case MissingEnv(_) => rest
  }

  /** The environment variables reported missing, in order. */
  function MissingVars(steps: seq<Step>): (names: seq<string>)
    ensures |names| <= |steps|
    ensures forall n :: n in names <==> MissingEnv(n) in steps
    decreases |steps|
  {
    if |steps| == 0 then []
    else
      var rest := MissingVars(steps[1..]);
      assert forall s :: s in steps <==> s == steps[0] || s in steps[1..];
      match steps[0]
      case Set(_) => rest
      case MissingEnv(n) => [n] + rest
  }

  /** The invocations of consecutive steps are those of the first steps
      followed by those of the rest: order and repetition are kept. */
  lemma {:induction false} SetInvocationsAppend(a: seq<Step>, b: seq<Step>)
    ensures SetInvocations(a + b) == SetInvocations(a) + SetInvocations(b)
    decreases |a|
  {
    if |a| == 0 {
      assert a + b == b;
    } else {
      assert (a + b)[0] == a[0] && (a + b)[1..] == a[1..] + b;
      SetInvocationsAppend(a[1..], b);
    }
  }

  /** The missing variables of consecutive steps are those of the first
      steps followed by those of the rest: order and repetition are kept. */
  lemma {:induction false} MissingVarsAppend(a: seq<Step>, b: seq<Step>)
    ensures MissingVars(a + b) == MissingVars(a) + MissingVars(b)
    decreases |a|
  {
    if |a| == 0 {
      assert a + b == b;
    } else {
      assert (a + b)[0] == a[0] && (a + b)[1..] == a[1..] + b;
      MissingVarsAppend(a[1..], b);
    }
  }

  /** A single step contributes its invocation or its variable name, and
      nothing else. */
  lemma SingleStepLists(s: Step)
    ensures s.Set? ==> SetInvocations([s]) == [s.inv] && MissingVars([s]) == []
    ensures s.MissingEnv? ==> SetInvocations([s]) == [] && MissingVars([s]) == [s.envVar]
  {
    assert [s][1..] == [];
  }

  /** Neither the environment nor dry run changes how far the loop gets or
      how it fails: that depends on the registry values alone. */
  lemma {:induction false} FailureIgnoresEnvAndDryRun(tasks: seq<Task>, env1: map<string, string>, dryRun1: bool,
                                                      env2: map<string, string>, dryRun2: bool,
                                                      parseUrl: Value -> Option<Url>)
    ensures var r1 := SetupRegistryAuth(tasks, env1, dryRun1, parseUrl);
            var r2 := SetupRegistryAuth(tasks, env2, dryRun2, parseUrl);
            |r1.steps| == |r2.steps| && r1.failure == r2.failure
    decreases |tasks|
  {
    if |tasks| > 0 && parseUrl(tasks[0].registryUrl).Some? {
      FailureIgnoresEnvAndDryRun(tasks[1..], env1, dryRun1, env2, dryRun2, parseUrl);
    }
  }

  /** The step a dry run takes in place of a real run's step. */
  function AsDryRun(s: Step): Step {
    match s
    case Set(inv) => Set(Invocation(inv.args, true))
    case MissingEnv(_) => s
  }

  /** A dry run takes the same steps as a real run, with the same argument
      vectors; only the dry-run flag differs. */
  lemma DryRunMirrorsRealRun(tasks: seq<Task>, env: map<string, string>, parseUrl: Value -> Option<Url>)
    ensures var dry := SetupRegistryAuth(tasks, env, true, parseUrl);
            var wet := SetupRegistryAuth(tasks, env, false, parseUrl);
            && |dry.steps| == |wet.steps| && dry.failure == wet.failure
            && forall i :: 0 <= i < |dry.steps| ==> dry.steps[i] == AsDryRun(wet.steps[i])
  {
    FailureIgnoresEnvAndDryRun(tasks, env, true, env, false, parseUrl);
    var dry := SetupRegistryAuth(tasks, env, true, parseUrl);
    var wet := SetupRegistryAuth(tasks, env, false, parseUrl);
    forall i | 0 <= i < |dry.steps| ensures dry.steps[i] == AsDryRun(wet.steps[i]) {
      StepsFollowTasks(tasks, env, true, parseUrl, i);
      StepsFollowTasks(tasks, env, false, parseUrl, i);
      StepForDryRun(AuthKeyOf(parseUrl(tasks[i].registryUrl).value), tasks[i], env);
    }
  }

  /** One task's dry-run step is its real step with the flag set. */
  lemma StepForDryRun(authKey: string, task: Task, env: map<string, string>)
    ensures StepFor(authKey, task, env, true) == AsDryRun(StepFor(authKey, task, env, false))
  {
  }

  /** In dry run every `config set` the loop issues is a dry-run
      invocation, so none of them spawns `npm`. */
  lemma DryRunSetsSpawnNothing(tasks: seq<Task>, env: map<string, string>, parseUrl: Value -> Option<Url>)
    ensures var dry := SetupRegistryAuth(tasks, env, true, parseUrl);
            && (forall inv :: Set(inv) in dry.steps ==> inv.dryRun)
            && SpawnedArgs(SetInvocations(dry.steps)) == []
  {
    var dry := SetupRegistryAuth(tasks, env, true, parseUrl);
    forall inv | Set(inv) in dry.steps ensures inv.dryRun {
      var j :| 0 <= j < |dry.steps| && dry.steps[j] == Set(inv);
      StepsFollowTasks(tasks, env, true, parseUrl, j);
    }
    var sets := SetInvocations(dry.steps);
    forall i | 0 <= i < |sets| ensures sets[i].dryRun {
      assert Set(sets[i]) in dry.steps;
    }
    DryRunSpawnsNothing(sets);
  }

  /** Invocations that are all dry run spawn nothing. */
  lemma {:induction false} DryRunSpawnsNothing(invs: seq<Invocation>)
    requires forall i :: 0 <= i < |invs| ==> invs[i].dryRun
    ensures SpawnedArgs(invs) == []
    decreases |invs|
  {
    if |invs| > 0 {
      DryRunSpawnsNothing(invs[1..]);
    }
  }
}
