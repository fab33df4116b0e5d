/** Registry discovery: matching the include directives against the npm
    configuration snapshot and the package's `publishConfig.registry`, and
    the check that every include was matched. */
module Discovery {
  import opened Wrappers
  import opened Strings
  import opened Json
  import opened Errors
  import opened Include

  /** A registry to configure: the include scope it answers, the registry
      value found for it, and the environment variable holding its token. */
  datatype Task = Task(scope: string, registryUrl: Value, envVar: string)

  predicate DistinctKeys(entries: seq<(string, Value)>) {
    forall i, j :: 0 <= i < j < |entries| ==> entries[i].0 != entries[j].0
  }

  /** The object `npm config list --json` reports, as its entries in
      enumeration order; its keys are distinct. */
  type Snapshot = entries: seq<(string, Value)> | DistinctKeys(entries)

  /** The package field the publish include reads. */
  const PublishRegistryField: string := "publishConfig.registry"

  /** The suffix of a scoped registry key, as in `@scope:registry`. */
  const RegistrySuffix: string := ":registry"

  /** The position of the first directive for `scope`, or -1. */
  function IncludeIndex(includes: seq<Directive>, scope: string): (i: int)
    ensures -1 <= i < |includes|
    ensures i >= 0 ==> includes[i].scope == scope
    ensures forall j :: 0 <= j < |includes| && (i == -1 || j < i) ==> includes[j].scope != scope
    decreases |includes|
  {
    if |includes| == 0 then -1
    else if includes[0].scope == scope then 0
    else
      var i := IncludeIndex(includes[1..], scope);
      assert forall j :: 1 <= j < |includes| ==> includes[j] == includes[1..][j - 1];
      if i == -1 then -1 else i + 1
  }

  /** `includes.find(inc => inc.scope === scope)`: the first directive for
      `scope`, if any. */
  function FindInclude(includes: seq<Directive>, scope: string): (r: Option<Directive>)
    ensures r.None? <==> forall j :: 0 <= j < |includes| ==> includes[j].scope != scope
    ensures r.Some? ==> r.value.scope == scope && r.value == includes[IncludeIndex(includes, scope)]
  {
    var i := IncludeIndex(includes, scope);
    if i == -1 then None else Some(includes[i])
  }

  /** The position of `key` in the snapshot, or -1. */
  function KeyIndex(entries: seq<(string, Value)>, key: string): (i: int)
    ensures -1 <= i < |entries|
    ensures i >= 0 ==> entries[i].0 == key
    ensures i == -1 ==> forall j :: 0 <= j < |entries| ==> entries[j].0 != key
    decreases |entries|
  {
    if |entries| == 0 then -1
    else if entries[0].0 == key then 0
    else
      var i := KeyIndex(entries[1..], key);
      assert forall j :: 1 <= j < |entries| ==> entries[j] == entries[1..][j - 1];
      if i == -1 then -1 else i + 1
  }

  /** `configJson[key]`: the value of `key`, if the key is present. */
  function Lookup(entries: seq<(string, Value)>, key: string): (r: Option<Value>)
    ensures r.None? <==> forall j :: 0 <= j < |entries| ==> entries[j].0 != key
    ensures r.Some? ==> entries[KeyIndex(entries, key)] == (key, r.value)
  {
    var i := KeyIndex(entries, key);
    if i == -1 then None else Some(entries[i].1)
  }

  /** `configJson.registry || null`: the default registry, when set to a
      truthy value. */
  function DefaultRegistry(snap: Snapshot): Option<Value> {
    match Lookup(snap, "registry")
    case Some(v) => if Truthy(v) then Some(v) else None
    case None => None
  }

  /** A key of the shape `@<scope>:registry`. */
  predicate IsScopedRegistryKey(key: string) {
    StartsWith(key, "@") && EndsWith(key, RegistrySuffix)
  }

  /** `key.slice(0, key.indexOf(":registry"))`: the scope is the text before
      the FIRST occurrence of `:registry`. */
  function ScopeOfKey(key: string): (scope: string)
    requires IsScopedRegistryKey(key)
    ensures StartsWith(scope, "@")
    ensures StartsWith(key, scope) && OccursAt(key, RegistrySuffix, |scope|)
    ensures forall j :: 0 <= j < |scope| ==> !OccursAt(key, RegistrySuffix, j)
  {
    var at := IndexOf(key, RegistrySuffix);
    assert OccursAt(key, RegistrySuffix, |key| - |RegistrySuffix|);
    assert at != 0 by {
      assert key[..1] == "@";
      assert key[at..at + |RegistrySuffix|] == RegistrySuffix;
      assert key[at] == RegistrySuffix[0] == ':';
      assert key[0] == '@';
    }
    assert key[..at][..1] == key[..1];
    key[..at]
  }

  /** Task `t` was emitted for snapshot entry `entry`. */
  predicate EmittedFor(t: Task, entry: (string, Value)) {
    IsScopedRegistryKey(entry.0) && ScopeOfKey(entry.0) == t.scope && entry.1 == t.registryUrl
  }

  /** The tasks the scoped-registry loop emits for `entries`, in order:
      one per `@<scope>:registry` key whose scope has an include, carrying
      the key's value whatever it is. */
  function ScopedTasks(includes: seq<Directive>, entries: seq<(string, Value)>): (ts: seq<Task>)
    ensures |ts| <= |entries|
    ensures forall i :: 0 <= i < |ts| ==>
              && StartsWith(ts[i].scope, "@")
              && FindInclude(includes, ts[i].scope).Some?
              && ts[i].envVar == FindInclude(includes, ts[i].scope).value.envVar
    decreases |entries|
  {
    if |entries| == 0 then []
    else
      var head := ScopedTask(includes, entries[0]);
      var rest := ScopedTasks(includes, entries[1..]);
      assert forall i :: |head| <= i < |head + rest| ==> (head + rest)[i] == rest[i - |head|];
      head + rest
  }

  /** Every scoped task comes from a snapshot entry: its scope is that
      key's scope and its registry is that key's value, unchecked. */
  lemma {:induction false} ScopedTaskSource(includes: seq<Directive>, entries: seq<(string, Value)>, i: nat)
      returns (k: nat)
    requires i < |ScopedTasks(includes, entries)|
    ensures k < |entries| && EmittedFor(ScopedTasks(includes, entries)[i], entries[k])
    decreases |entries|
  {
    var head := ScopedTask(includes, entries[0]);
    var rest := ScopedTasks(includes, entries[1..]);
    ScopedTasksUnfold(includes, entries);
    if i < |head| {
      k := 0;
    } else {
      assert ScopedTasks(includes, entries)[i] == rest[i - |head|];
      var k' := ScopedTaskSource(includes, entries[1..], i - |head|);
      assert entries[k' + 1] == entries[1..][k'];
      k := k' + 1;
    }
  }

  /** One step of `ScopedTasks`: the first entry's task, then the rest. */
  lemma ScopedTasksUnfold(includes: seq<Directive>, entries: seq<(string, Value)>)
    requires |entries| > 0
    ensures ScopedTasks(includes, entries) == ScopedTask(includes, entries[0]) + ScopedTasks(includes, entries[1..])
  {
  }

  /** One turn of the scoped-registry loop. */
  function ScopedTask(includes: seq<Directive>, entry: (string, Value)): (ts: seq<Task>)
    ensures |ts| <= 1
    ensures |ts| == 1 <==> IsScopedRegistryKey(entry.0) && FindInclude(includes, ScopeOfKey(entry.0)).Some?
    ensures |ts| == 1 ==> ts[0] == Task(ScopeOfKey(entry.0), entry.1, FindInclude(includes, ScopeOfKey(entry.0)).value.envVar)
  {
    if IsScopedRegistryKey(entry.0) then
      var scope := ScopeOfKey(entry.0);
      match FindInclude(includes, scope)
      case Some(inc) => [Task(scope, entry.1, inc.envVar)]
      case None => []
    else []
  }

  /** The default-registry step: a task when a `default` include exists
      and the snapshot's `registry` is truthy. */
  function DefaultTasks(includes: seq<Directive>, snap: Snapshot): (ts: seq<Task>)
    ensures |ts| <= 1
    ensures |ts| == 1 <==> FindInclude(includes, "default").Some? && DefaultRegistry(snap).Some?
    ensures |ts| == 1 ==> ts[0] == Task("default", DefaultRegistry(snap).value, FindInclude(includes, "default").value.envVar)
  {
    match FindInclude(includes, "default")
    case None => []
    case Some(inc) =>
      match DefaultRegistry(snap)
      case Some(url) => [Task("default", url, inc.envVar)]
      case None => []
  }

  /** The publish-registry step: a task when a `publish` include exists and
      the decoded `npm pkg get publishConfig.registry` output is truthy. */
  function PublishTasks(includes: seq<Directive>, pkgGetOutput: Value): (ts: seq<Task>)
    ensures |ts| <= 1
    ensures |ts| == 1 <==> FindInclude(includes, "publish").Some? && Truthy(PkgGetDecode(PublishRegistryField, pkgGetOutput))
    ensures |ts| == 1 ==> ts[0] == Task("publish", PkgGetDecode(PublishRegistryField, pkgGetOutput), FindInclude(includes, "publish").value.envVar)
  {
    match FindInclude(includes, "publish")
    case None => []
    case Some(inc) =>
      var url := PkgGetDecode(PublishRegistryField, pkgGetOutput);
      if Truthy(url) then [Task("publish", url, inc.envVar)] else []
  }

  /** Neither fixed target looks like an `@scope`. */
  lemma FixedTargetsAreNotScopes()
    ensures !StartsWith("default", "@") && !StartsWith("publish", "@")
  {
    assert "default"[..1] == "d";
    assert "publish"[..1] == "p";
  }

  /** `discoverRegistries`. `pkgGetOutput` is the parsed output of
      `npm pkg get publishConfig.registry --json`, which the program reads
      only when a `publish` include exists. The tasks end with the scoped
      tasks, in snapshot order, after at most two tasks for the fixed
      targets. */
  function Discover(includes: seq<Directive>, snap: Snapshot, pkgGetOutput: Value): (ts: seq<Task>)
    ensures var scoped := ScopedTasks(includes, snap);
            && |scoped| <= |ts| <= |scoped| + 2
            && ts[|ts| - |scoped|..] == scoped
            && forall i :: 0 <= i < |ts| - |scoped| ==> ts[i].scope == "default" || ts[i].scope == "publish"
  {
    var fixed := DefaultTasks(includes, snap) + PublishTasks(includes, pkgGetOutput);
    var scoped := ScopedTasks(includes, snap);
    assert (fixed + scoped)[|fixed|..] == scoped;
    fixed + scoped
  }

  /** Every discovered task takes its environment variable from the first
      include with its scope. */
  lemma DiscoverUsesFirstInclude(includes: seq<Directive>, snap: Snapshot, pkgGetOutput: Value)
    ensures var ts := Discover(includes, snap, pkgGetOutput);
            forall i :: 0 <= i < |ts| ==>
              FindInclude(includes, ts[i].scope).Some?
              && ts[i].envVar == FindInclude(includes, ts[i].scope).value.envVar
  {
    var d := DefaultTasks(includes, snap);
    var p := PublishTasks(includes, pkgGetOutput);
    var scoped := ScopedTasks(includes, snap);
    var ts := d + p + scoped;
    assert Discover(includes, snap, pkgGetOutput) == ts;
    forall i | 0 <= i < |ts|
      ensures FindInclude(includes, ts[i].scope).Some?
              && ts[i].envVar == FindInclude(includes, ts[i].scope).value.envVar
    {
      if i < |d| {
        assert ts[i] == d[0];
      } else if i < |d| + |p| {
        assert ts[i] == p[0];
      } else {
        assert ts[i] == scoped[i - |d| - |p|];
      }
    }
  }

  /** The `default` task, if any, comes first and carries the snapshot's
      truthy `registry`; the `publish` task, if any, comes next and carries
      the decoded `publishConfig.registry`. */
  lemma DiscoverFixedTargetsFirst(includes: seq<Directive>, snap: Snapshot, pkgGetOutput: Value)
    ensures var ts := Discover(includes, snap, pkgGetOutput);
            forall i :: 0 <= i < |ts| && ts[i].scope == "default" ==>
              i == 0 && DefaultRegistry(snap) == Some(ts[i].registryUrl)
    ensures var ts := Discover(includes, snap, pkgGetOutput);
            forall i :: 0 <= i < |ts| && ts[i].scope == "publish" ==>
              && (i == 0 || (i == 1 && ts[0].scope == "default"))
              && ts[i].registryUrl == PkgGetDecode(PublishRegistryField, pkgGetOutput)
  {
    var d := DefaultTasks(includes, snap);
    var p := PublishTasks(includes, pkgGetOutput);
    var scoped := ScopedTasks(includes, snap);
    assert Discover(includes, snap, pkgGetOutput) == d + p + scoped;
    FixedTargetsAreNotScopes();
    FixedTasksLeadScoped(d, p, scoped);
  }

  /** In `d + p + scoped`, with at most one `default` task in `d`, at most
      one `publish` task in `p` and neither target in `scoped`, the fixed
      targets occur only at their own positions. */
  lemma FixedTasksLeadScoped(d: seq<Task>, p: seq<Task>, scoped: seq<Task>)
    requires |d| <= 1 && |p| <= 1
    requires |d| == 1 ==> d[0].scope == "default"
    requires |p| == 1 ==> p[0].scope == "publish"
    requires forall t :: 0 <= t < |scoped| ==> StartsWith(scoped[t].scope, "@")
    requires !StartsWith("default", "@") && !StartsWith("publish", "@")
    ensures var ts := d + p + scoped;
            forall i :: 0 <= i < |ts| && ts[i].scope == "default" ==> i == 0 && |d| == 1 && ts[i] == d[0]
    ensures var ts := d + p + scoped;
            forall i :: 0 <= i < |ts| && ts[i].scope == "publish" ==> i == |d| && |p| == 1 && ts[i] == p[0]
  {
    var ts := d + p + scoped;
    forall i | |d| + |p| <= i < |ts|
      ensures ts[i].scope != "default" && ts[i].scope != "publish"
    {
      assert ts[i] == scoped[i - |d| - |p|];
    }
    if |d| == 1 {
      assert ts[0] == d[0];
    }
    if |p| == 1 {
      assert ts[|d|] == p[0];
    }
  }

  /** An object without the requested field is what `npm pkg get` prints
      for an unset field; it is truthy, so a `publish` include still yields
      a task, whose registry is that empty object. */
  lemma PublishOfEmptyWrapper(includes: seq<Directive>, snap: Snapshot)
    requires FindInclude(includes, "publish").Some?
    ensures PublishTasks(includes, Obj([])) == [Task("publish", Obj([]), FindInclude(includes, "publish").value.envVar)]
    ensures Matched("publish", Discover(includes, snap, Obj([])))
  {
    PkgGetEmptyWrapperIsTruthy(PublishRegistryField);
    DiscoverMatchedIff(includes, snap, Obj([]), "publish");
  }

  /** The publish discovery `discoverRegistries` evidently intends: a task
      only for a registry given as a non-empty string, so an unset field
      (npm's `{}`) leaves `publish` unmatched and gets its hint. */
  function PublishTasksIntended(includes: seq<Directive>, pkgGetOutput: Value): (ts: seq<Task>)
    ensures |ts| <= 1
    ensures |ts| == 1 <==>
              && FindInclude(includes, "publish").Some?
              && PkgGetDecode(PublishRegistryField, pkgGetOutput).Str?
              && PkgGetDecode(PublishRegistryField, pkgGetOutput).s != ""
    ensures |ts| == 1 ==> ts[0] == Task("publish", PkgGetDecode(PublishRegistryField, pkgGetOutput), FindInclude(includes, "publish").value.envVar)
  {
    match FindInclude(includes, "publish")
    case None => []
    case Some(inc) =>
      var url := PkgGetDecode(PublishRegistryField, pkgGetOutput);
      if url.Str? && url.s != "" then [Task("publish", url, inc.envVar)] else []
  }

  /** The intended publish discovery agrees with the code whenever the
      decoded field is a string or is falsy. */
  lemma PublishIntendedAgreesOnStrings(includes: seq<Directive>, pkgGetOutput: Value)
    requires var url := PkgGetDecode(PublishRegistryField, pkgGetOutput);
             url.Str? || !Truthy(url)
    ensures PublishTasksIntended(includes, pkgGetOutput) == PublishTasks(includes, pkgGetOutput)
  {
    var url := PkgGetDecode(PublishRegistryField, pkgGetOutput);
    if url.Str? {
      TruthyByKind(url);
    }
  }

  /** With the intended publish discovery, npm's `{}` for an unset field
      leaves `publish` unmatched, so `ensureAllFound` fails, and with the
      publish include first it reports the publish hint. */
  lemma PublishIntendedRejectsEmptyWrapper(includes: seq<Directive>, snap: Snapshot)
    requires FindInclude(includes, "publish").Some?
    ensures PublishTasksIntended(includes, Obj([])) == []
    ensures var ts := DefaultTasks(includes, snap) + PublishTasksIntended(includes, Obj([])) + ScopedTasks(includes, snap);
            && !Matched("publish", ts)
            && EnsureAllFound(includes, ts).Fail?
            && (includes[0].scope == "publish" ==> EnsureAllFound(includes, ts) == Fail(UnresolvedInclude("publish", PublishHint)))
  {
    PkgGetEmptyWrapperIsTruthy(PublishRegistryField);
    var d := DefaultTasks(includes, snap);
    var p := PublishTasksIntended(includes, Obj([]));
    var scoped := ScopedTasks(includes, snap);
    assert p == [];
    assert d + p + scoped == d + scoped;
    MatchedAppend("publish", d, scoped);
    MatchedAtMostOne("publish", d);
    ScopedNeverFixed(includes, snap, "publish");
    var k := IncludeIndex(includes, "publish");
    assert includes[k].scope == "publish";
  }

  /** Which include scopes discovery can match: `default` needs a truthy
      `registry`, `publish` a truthy decoded `publishConfig.registry`, and
      an `@scope` a `<scope>:registry` key of the snapshot; in each case the
      scope must have an include. */
  lemma DiscoverMatchedIff(includes: seq<Directive>, snap: Snapshot, pkgGetOutput: Value, scope: string)
    ensures Matched(scope, Discover(includes, snap, pkgGetOutput)) <==>
              && FindInclude(includes, scope).Some?
              && (if scope == "default" then DefaultRegistry(snap).Some?
                  else if scope == "publish" then Truthy(PkgGetDecode(PublishRegistryField, pkgGetOutput))
                  else HasKeyFor(snap, scope))
  {
    var d := DefaultTasks(includes, snap);
    var p := PublishTasks(includes, pkgGetOutput);
    var scoped := ScopedTasks(includes, snap);
    assert Discover(includes, snap, pkgGetOutput) == (d + p) + scoped;
    MatchedAppend(scope, d + p, scoped);
    MatchedAppend(scope, d, p);
    ScopedMatchedIff(includes, snap, scope);
    MatchedAtMostOne(scope, d);
    MatchedAtMostOne(scope, p);
    if scope == "default" || scope == "publish" {
      ScopedNeverFixed(includes, snap, scope);
    }
  }

  /** A list of at most one task matches a scope exactly when it holds a
      task for that scope. */
  lemma MatchedAtMostOne(scope: string, ts: seq<Task>)
    requires |ts| <= 1
    ensures Matched(scope, ts) <==> |ts| == 1 && ts[0].scope == scope
  {
  }

  /** Scoped tasks never carry a fixed target as their scope. */
  lemma ScopedNeverFixed(includes: seq<Directive>, entries: seq<(string, Value)>, scope: string)
    requires scope == "default" || scope == "publish"
    ensures !Matched(scope, ScopedTasks(includes, entries))
  {
    var scoped := ScopedTasks(includes, entries);
    FixedTargetsAreNotScopes();
    forall t | 0 <= t < |scoped| ensures scoped[t].scope != scope {
      assert StartsWith(scoped[t].scope, "@");
    }
  }

  /** Some snapshot key is a scoped registry key for `scope`. */
  predicate HasKeyFor(entries: seq<(string, Value)>, scope: string) {
    exists k :: 0 <= k < |entries| && IsScopedRegistryKey(entries[k].0) && ScopeOfKey(entries[k].0) == scope
  }

  lemma HasKeyForCons(entries: seq<(string, Value)>, scope: string)
    requires |entries| > 0
    ensures HasKeyFor(entries, scope) <==>
              (IsScopedRegistryKey(entries[0].0) && ScopeOfKey(entries[0].0) == scope)
              || HasKeyFor(entries[1..], scope)
  {
    if HasKeyFor(entries, scope) {
      var k :| 0 <= k < |entries| && IsScopedRegistryKey(entries[k].0) && ScopeOfKey(entries[k].0) == scope;
      if k > 0 {
        assert entries[1..][k - 1] == entries[k];
      }
    }
    if HasKeyFor(entries[1..], scope) {
      var k :| 0 <= k < |entries| - 1 && IsScopedRegistryKey(entries[1..][k].0) && ScopeOfKey(entries[1..][k].0) == scope;
      assert entries[k + 1] == entries[1..][k];
    }
  }

  lemma MatchedAppend(scope: string, a: seq<Task>, b: seq<Task>)
    ensures Matched(scope, a + b) <==> Matched(scope, a) || Matched(scope, b)
  {
    if Matched(scope, a + b) {
      var t :| 0 <= t < |a + b| && (a + b)[t].scope == scope;
      if t >= |a| {
        assert b[t - |a|] == (a + b)[t];
      }
    }
    if Matched(scope, a) {
      var t :| 0 <= t < |a| && a[t].scope == scope;
      assert (a + b)[t] == a[t];
    }
    if Matched(scope, b) {
      var t :| 0 <= t < |b| && b[t].scope == scope;
      assert (a + b)[|a| + t] == b[t];
    }
  }

  /** A scoped task for `scope` is emitted exactly when `scope` has an
      include and some snapshot key is `<scope>:registry`. */
  lemma {:induction false} ScopedMatchedIff(includes: seq<Directive>, entries: seq<(string, Value)>, scope: string)
    ensures Matched(scope, ScopedTasks(includes, entries)) <==>
              FindInclude(includes, scope).Some? && HasKeyFor(entries, scope)
    decreases |entries|
  {
    if |entries| > 0 {
      var head := ScopedTask(includes, entries[0]);
      var rest := ScopedTasks(includes, entries[1..]);
      assert ScopedTasks(includes, entries) == head + rest;
      ScopedMatchedIff(includes, entries[1..], scope);
      MatchedAppend(scope, head, rest);
      HasKeyForCons(entries, scope);
      assert Matched(scope, head) <==> |head| == 1 && head[0].scope == scope;
    }
  }

  /** The scoped loop preserves snapshot order: the tasks of two runs of
      entries are the tasks of the first followed by those of the second. */
  lemma {:induction false} ScopedTasksAppend(includes: seq<Directive>, a: seq<(string, Value)>, b: seq<(string, Value)>)
    ensures ScopedTasks(includes, a + b) == ScopedTasks(includes, a) + ScopedTasks(includes, b)
    decreases |a|
  {
    if |a| > 0 {
      assert (a + b)[0] == a[0];
      assert (a + b)[1..] == a[1..] + b;
      ScopedTasksAppend(includes, a[1..], b);
    } else {
      assert a + b == b;
    }
  }

  /** `:registry` does not occur anywhere in `s`. */
  predicate NoRegistrySuffix(s: string) {
    forall j :: 0 <= j <= |s| ==> !OccursAt(s, RegistrySuffix, j)
  }

  /** `:registry` cannot occur in `scope + ":registry" + tail` at a position
      inside `scope` when `scope` itself has no `:registry`: its `:` occurs
      only at its start. */
  lemma NoEarlierSuffix(scope: string, tail: string, j: int)
    requires NoRegistrySuffix(scope) && 0 <= j < |scope|
    ensures !OccursAt(scope + RegistrySuffix + tail, RegistrySuffix, j)
  {
    var key := scope + RegistrySuffix + tail;
    if j + |RegistrySuffix| <= |scope| {
      assert key[j..j + |RegistrySuffix|] == scope[j..j + |RegistrySuffix|];
      assert !OccursAt(scope, RegistrySuffix, j);
    } else {
      var m := |scope| - j;
      assert key[|scope|] == ':';
      assert RegistrySuffix[m] != ':';
      assert j + |RegistrySuffix| <= |key| ==> key[j..j + |RegistrySuffix|][m] == key[|scope|];
    }
  }

  /** The scope of a key is cut at the first `:registry`: any key made of
      an `@` scope free of `:registry`, then `:registry`, then anything that
      again ends in `:registry`, belongs to that scope. So `@a:registry` and
      `@a:registry:registry` both belong to `@a`. */
  lemma ScopeOfKeyCutsAtFirst(scope: string, tail: string)
    requires StartsWith(scope, "@") && NoRegistrySuffix(scope)
    requires tail == "" || EndsWith(tail, RegistrySuffix)
    ensures IsScopedRegistryKey(scope + RegistrySuffix + tail)
    ensures ScopeOfKey(scope + RegistrySuffix + tail) == scope
  {
    var key := scope + RegistrySuffix + tail;
    assert key[..|scope|] == scope;
    assert key[..1] == scope[..1];
    assert EndsWith(key, RegistrySuffix) by {
      if tail == "" {
        assert key == scope + RegistrySuffix;
      } else {
        assert key[|key| - |RegistrySuffix|..] == tail[|tail| - |RegistrySuffix|..];
      }
    }
    assert OccursAt(key, RegistrySuffix, |scope|) by {
      assert key[|scope|..|scope| + |RegistrySuffix|] == RegistrySuffix;
    }
    var found := ScopeOfKey(key);
    if |found| < |scope| {
      NoEarlierSuffix(scope, tail, |found|);
    }
    assert found == key[..|found|];
  }

  /** The snapshot example of the program's documentation: a `registry`
      and a `@foo:registry`, with `default` and `@foo` included, give a
      `default` task and then a `@foo` task. */
  lemma DiscoverExample()
    ensures var snap: Snapshot := [("registry", Str("https://r.example")), ("@foo:registry", Str("https://foo.example"))];
            Discover([Directive("default", DefaultEnvVar), Directive("@foo", DefaultEnvVar)], snap, Null)
            == [Task("default", Str("https://r.example"), DefaultEnvVar), Task("@foo", Str("https://foo.example"), DefaultEnvVar)]
  {
    ExampleFixedPart();
    ExampleScopedPart();
  }

  /** The fixed targets of the example: `default` finds the top-level
      registry, and `publish` is not requested. */
  lemma ExampleFixedPart()
    ensures var snap: Snapshot := [("registry", Str("https://r.example")), ("@foo:registry", Str("https://foo.example"))];
            var includes := [Directive("default", DefaultEnvVar), Directive("@foo", DefaultEnvVar)];
            && DefaultTasks(includes, snap) == [Task("default", Str("https://r.example"), DefaultEnvVar)]
            && PublishTasks(includes, Null) == []
  {
    var r := Str("https://r.example");
    var snap: Snapshot := [("registry", r), ("@foo:registry", Str("https://foo.example"))];
    var includes := [Directive("default", DefaultEnvVar), Directive("@foo", DefaultEnvVar)];
    assert Lookup(snap, "registry") == Some(r);
    assert "default"[0] != "publish"[0] && "@foo"[0] != "publish"[0];
  }

  /** The scoped part of the example: only `@foo:registry` is emitted. */
  lemma ExampleScopedPart()
    ensures var snap: Snapshot := [("registry", Str("https://r.example")), ("@foo:registry", Str("https://foo.example"))];
            var includes := [Directive("default", DefaultEnvVar), Directive("@foo", DefaultEnvVar)];
            ScopedTasks(includes, snap) == [Task("@foo", Str("https://foo.example"), DefaultEnvVar)]
  {
    var foo := Str("https://foo.example");
    var snap: Snapshot := [("registry", Str("https://r.example")), ("@foo:registry", foo)];
    var includes := [Directive("default", DefaultEnvVar), Directive("@foo", DefaultEnvVar)];
    assert "registry"[0] != '@';
    assert ScopedTask(includes, snap[0]) == [];
    ExampleScopedEntry();
    assert ScopedTasks(includes, snap[1..][1..]) == [];
    assert ScopedTasks(includes, snap[1..]) == [Task("@foo", foo, DefaultEnvVar)];
  }

  /** `@foo:registry` names the scope `@foo`, which the example requests. */
  lemma ExampleScopedEntry()
    ensures var includes := [Directive("default", DefaultEnvVar), Directive("@foo", DefaultEnvVar)];
            ScopedTask(includes, ("@foo:registry", Str("https://foo.example")))
            == [Task("@foo", Str("https://foo.example"), DefaultEnvVar)]
  {
    var includes := [Directive("default", DefaultEnvVar), Directive("@foo", DefaultEnvVar)];
    assert "@foo:registry" == "@foo" + RegistrySuffix + "";
    assert "@foo"[..1] == "@";
    ScopeOfKeyCutsAtFirst("@foo", "");
    assert "@foo"[0] != "default"[0];
    assert FindInclude(includes, "@foo") == Some(includes[1]);
  }

  /** A task for `scope` was found. */
  predicate Matched(scope: string, tasks: seq<Task>) {
    exists t :: 0 <= t < |tasks| && tasks[t].scope == scope
  }

  const DefaultHint: string := "Is a default registry configured?"
  const PublishHint: string := "Is publishConfig.registry set in package.json?"
  const ScopeHint: string := "Is this scope configured via @scope:registry somewhere in npm config?"

  /** The hint added to an unresolved-include error. */
  function HintFor(scope: string): string {
    if scope == "default" then DefaultHint
    else if scope == "publish" then PublishHint
    else ScopeHint
  }

  /** `ensureAllFound`: passes when every include's scope was matched by a
      task, and otherwise reports the first include, in include order, that
      was not, with the hint for its scope. */
  function EnsureAllFound(includes: seq<Directive>, tasks: seq<Task>): (r: Outcome<Error>)
    ensures r.Pass? <==> forall i :: 0 <= i < |includes| ==> Matched(includes[i].scope, tasks)
    ensures r.Fail? ==>
              exists i :: 0 <= i < |includes| && !Matched(includes[i].scope, tasks)
                          && (forall j :: 0 <= j < i ==> Matched(includes[j].scope, tasks))
                          && r.error == UnresolvedInclude(includes[i].scope, HintFor(includes[i].scope))
    decreases |includes|
  {
    if |includes| == 0 then Pass
    else if !Matched(includes[0].scope, tasks) then
      Fail(UnresolvedInclude(includes[0].scope, HintFor(includes[0].scope)))
    else
      var r := EnsureAllFound(includes[1..], tasks);
      assert forall i :: 1 <= i < |includes| ==> includes[i] == includes[1..][i - 1];
      assert r.Fail? ==>
               exists i :: 0 <= i < |includes| && !Matched(includes[i].scope, tasks)
                           && (forall j :: 0 <= j < i ==> Matched(includes[j].scope, tasks))
                           && r.error == UnresolvedInclude(includes[i].scope, HintFor(includes[i].scope)) by {
        if r.Fail? {
          var i :| 0 <= i < |includes| - 1 && !Matched(includes[1..][i].scope, tasks)
                   && (forall j :: 0 <= j < i ==> Matched(includes[1..][j].scope, tasks))
                   && r.error == UnresolvedInclude(includes[1..][i].scope, HintFor(includes[1..][i].scope));
          assert includes[i + 1] == includes[1..][i];
        }
      }
      r
  }
}
