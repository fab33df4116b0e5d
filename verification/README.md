# setup-npm-auth, modelled in Dafny

`setup-npm-auth` writes npm registry auth tokens into the user's npm
configuration. It takes a list of `--include` directives
(`<scope>[=<ENV_VAR>]`, where the scope is `default`, `publish` or an
`@scope`) and matches them against the registries npm already knows:
- the default `registry`;
- `publishConfig.registry` from `package.json`;
- every `@scope:registry` key.

For each registry found it reads the token from the named environment
variable. It then runs `npm config set --location user <key> <token>`, where `<key>` is
`//<host><path>`, plus `/` unless that already ends in `/`, then `:_authToken`
(so `https://registry.npmjs.org/` gives `//registry.npmjs.org/:_authToken`),
or only echoes that command in dry run.

This project models the decision logic of `src/setup-npm-auth.mjs` as
immutable datatypes and pure functions, one module per concern:

| module | file | models |
|---|---|---|
| `Wrappers` | wrappers.dfy | `Option`, `Result`, `Outcome` |
| `Strings` | strings.dfy | JavaScript `trim`, `indexOf`, `startsWith`, `endsWith` |
| `Json` | json.dfy | parsed JSON values, JavaScript truthiness, the `npm pkg get` decode |
| `Errors` | errors.dfy | the four errors the program throws |
| `RegistryKey` | registry_key.dfy | `registryToAuthKey` and its inverse |
| `Include` | include.dfy | `unquote`, `parseInclude`, `ensureIncludes` |
| `Discovery` | discovery.dfy | `discoverRegistries`, `ensureAllFound` |
| `Npm` | npm.dfy | the `config list`, `config set` and `pkg get` argument vectors; the dry-run branch of `npmExec` |
| `Apply` | apply.dfy | `setupRegistryAuth` |
| `Orchestrator` | run.dfy | `run` |

The outside world enters as parameters:
- The npm configuration snapshot (`npm config list --json`) is a sequence of key/value pairs with distinct keys, in the order `Object.entries` reports them.
- The parsed output of `npm pkg get publishConfig.registry --json` is a JSON value.
- `process.env` is a map from names to strings.
- The WHATWG `URL` parser is a function from a registry value to an optional `(host, pathname)` pair. `None` stands for the `TypeError` that `new URL` throws.

A run reports three things:
- the read commands it issued;
- its steps: a `config set` invocation per task, or a missing-variable report;
- how it ended: "Nothing to configure.", completed, or an error.

The model follows the code wherever the code and the usage text disagree. Three behaviours of the code are worth knowing:
- The "Nothing to configure." exit comes before the include check.
- Tokens are always written with `--location user`.
- The `config set` echo prints every argument, so the model does not claim tokens stay hidden.

## Model

| member | source | states |
|---|---|---|
| Strings.Trim | src/setup-npm-auth.mjs:245 | `trim` returns a middle slice of the input with no whitespace or line terminator at either end, and only whitespace cut away on each side |
| Strings.TrimIdempotent | src/setup-npm-auth.mjs:245 | trimming twice is trimming once |
| Strings.TrimAround | src/setup-npm-auth.mjs:245 | trimming text padded with whitespace on both sides gives back the text, when the text starts and ends with something other than whitespace |
| Strings.TrimKeepsFirst | src/setup-npm-auth.mjs:245 | a string that does not start with whitespace keeps its first character through `trim` |
| Strings.IndexOf | src/setup-npm-auth.mjs:249 | `indexOf` returns -1 when the pattern does not occur, else a position where it occurs with no earlier occurrence |
| Json.TruthyByKind | src/setup-npm-auth.mjs:288 | JavaScript truthiness of a parsed value: arrays and objects are truthy, `{}` and `[]` included; a string is truthy exactly when non-empty, a number when non-zero, a boolean when true; `null` is falsy |
| Json.PkgGetDecode | src/setup-npm-auth.mjs:76-77 | an object holding the requested field yields the value of the last member with that name, as `JSON.parse` keeps the last duplicate; anything else, an object without the field included, is returned unchanged |
| Json.PkgGetShapesAgree | src/setup-npm-auth.mjs:76-77 | the output of newer npm (value wrapped under its key) and of older npm (bare value) decode to the same value |
| Json.PkgGetEmptyWrapperIsTruthy | src/setup-npm-auth.mjs:76-77 | `{}` decodes to itself, and it is truthy |
| RegistryKey.WithTrailingSlash | src/setup-npm-auth.mjs:217-218 | the result ends with `/`; it is the input when the input already ends with `/`, otherwise the input plus `/` |
| RegistryKey.AuthKeyOf | src/setup-npm-auth.mjs:215-220 | the key starts with `//`, ends with `:_authToken`, and the part before `:_authToken` ends with `/` |
| RegistryKey.RegistryToAuthKey | src/setup-npm-auth.mjs:215-220 | fails with InvalidRegistryUrl of the value exactly when the URL parser rejects it; otherwise returns the key of the parsed host and path |
| RegistryKey.AuthKeyRoundTrip | src/setup-npm-auth.mjs:215-220 | decoding the key gives back host + pathname with the trailing slash normalised |
| RegistryKey.AuthKeyInjective | src/setup-npm-auth.mjs:215-220 | two URLs share a key exactly when their slash-normalised host + pathname agree |
| RegistryKey.TrailingSlashIdempotent | src/setup-npm-auth.mjs:218 | slash normalisation is idempotent |
| RegistryKey.AuthKeyIgnoresTrailingSlash | src/setup-npm-auth.mjs:217-219 | a path with and without its trailing slash gives the same key |
| RegistryKey.AuthKeyExampleNoSlash | src/setup-npm-auth.mjs:215-220 | host `r.example` with path `/api` gives `//r.example/api/:_authToken` |
| Include.Unquote | src/setup-npm-auth.mjs:228-231 | the result is the input, or the input less its first and last character |
| Include.UnquoteChangesExactlyWrapped | src/setup-npm-auth.mjs:230 | `unquote` changes a string exactly when it has length at least 2, a quote at each end (`'` or `"`, not necessarily the same one), and no line terminator in between |
| Include.UnquoteStripsPair | src/setup-npm-auth.mjs:230 | any two quotes around text without a line terminator are removed, mismatched ones included |
| Include.UnquoteOneLayerOnly | src/setup-npm-auth.mjs:230 | only one layer of quotes goes: `"'a'"` becomes `'a'` |
| Include.SplitAtEq | src/setup-npm-auth.mjs:249-251 | the left part holds no `=`; without `=` the right part is empty; otherwise left + `=` + right is the input |
| Include.SplitAtEqOfJoin | src/setup-npm-auth.mjs:249-251 | splitting `left=right` with no `=` in `left` gives back both sides, so the split is at the first `=` |
| Include.ParseInclude | src/setup-npm-auth.mjs:244-262 | success appends exactly one directive to the accumulated list (absent counts as empty), leaves the earlier entries alone, and the new directive has a valid scope and a non-empty, trimmed variable; failure is "Invalid --include value" for the token or "Invalid include target" for a non-empty invalid scope; that each side is unquoted before it is trimmed is stated by `ParseQuotedEnvSide`, `ParseQuotedScopeSide` and `ParseSpaceBeforeQuoteKeepsQuotes` |
| Include.MakeDirective | src/setup-npm-auth.mjs:252-261 | exactly three outcomes: an empty scope fails with "Invalid --include value" for the token; a non-empty scope other than `default`, `publish` or `@…` fails with "Invalid include target" for that scope; a valid scope appends the directive with the given variable, or with `NODE_AUTH_TOKEN` when the variable is empty |
| Include.ParseSpaced | src/setup-npm-auth.mjs:249-252 | for `<scope><ws>=<ws><ENV>` whose right side is not quote-wrapped, each side is cleaned on its own: the outcome is decided on the bare scope and the bare variable |
| Include.ParseSpacedSides | src/setup-npm-auth.mjs:249-262 | whitespace around the `=` is dropped: `@a = TOK` configures `@a` with `TOK` |
| Include.ParseBadTargetWithEnvRejected | src/setup-npm-auth.mjs:256-260 | a scope other than `default`, `publish` or `@…` is an invalid target even with a variable after it: `bogus=TOK` fails naming `bogus` |
| Include.ParseEmptyEnvDefaults | src/setup-npm-auth.mjs:251-255 | an `=` followed by nothing but whitespace defaults the variable to `NODE_AUTH_TOKEN`: `@a=` and `@a =   ` both give `@a=NODE_AUTH_TOKEN` |
| Include.ParseEmptyScopeRejected | src/setup-npm-auth.mjs:249-254 | an `=` with nothing before it is "Invalid --include value" for the token, whatever follows: `=TOK` |
| Include.ParseQuotedEmptyScopeRejected | src/setup-npm-auth.mjs:250-254 | a pair of quotes as the scope cleans to nothing, so `''=X` is "Invalid --include value" too |
| Include.ParseWrappedRender | src/setup-npm-auth.mjs:245-262 | quotes and whitespace around the whole token go: `"@a=TOK"` and ` '@a=TOK' ` parse to `@a=TOK`, with any two quotes and any whitespace padding |
| Include.ParseOfUnquotedJoin | src/setup-npm-auth.mjs:245-262 | any token that trims and unquotes to `<scope>=<ENV>` with a plain scope and variable parses to that directive |
| Include.ParseSpaceBeforeQuoteKeepsQuotes | src/setup-npm-auth.mjs:251 | each side is unquoted before it is trimmed, so a quote after the whitespace that follows `=` stays: `@a= 'T'` names the variable `'T'`, quotes included |
| Include.CleanSideOfQuoted | src/setup-npm-auth.mjs:250-251 | a side is unquoted first and trimmed second: any two quotes around padded text without line terminators clean to the text, so `" TOK "` cleans to `TOK` |
| Include.ParseQuotedEnvSide | src/setup-npm-auth.mjs:251 | a quoted variable side loses its quotes and then its inner padding: `@a='TOK'` and `@a=" TOK "` both configure `@a` with `TOK` |
| Include.ParseQuotedScopeSide | src/setup-npm-auth.mjs:250 | a quoted scope side loses its quotes and then its inner padding: `"@a"=TOK` and `" @a "=TOK` both configure `@a` with `TOK` |
| Include.ParseRenderRoundTrip | src/setup-npm-auth.mjs:244-262 | parsing `<scope>=<ENV_VAR>` of a well-formed directive gives back that directive, appended to the list |
| Include.ParseScopeAloneDefaultsEnv | src/setup-npm-auth.mjs:249-255 | a valid scope given alone gets `NODE_AUTH_TOKEN` |
| Include.ParseBlankRejected | src/setup-npm-auth.mjs:245-248 | an empty or all-whitespace token is an invalid value |
| Include.ParseBadTargetRejected | src/setup-npm-auth.mjs:256-260 | a plain scope other than `default`, `publish` or `@…` is an invalid target naming that scope |
| Include.EnsureIncludes | src/setup-npm-auth.mjs:269-274 | an absent or empty list becomes `[default=NODE_AUTH_TOKEN]`; any other list is returned unchanged; the result is never empty |
| Discovery.FindInclude | src/setup-npm-auth.mjs:285 | `find` returns nothing exactly when no directive has the scope, and otherwise the first one that has it |
| Discovery.DefaultTasks | src/setup-npm-auth.mjs:285-291 | one `default` task exactly when a `default` include exists and the snapshot's `registry` is truthy, carrying that registry and the first include's variable |
| Discovery.PublishTasks | src/setup-npm-auth.mjs:293-299 | one `publish` task exactly when a `publish` include exists and the decoded `publishConfig.registry` is truthy |
| Discovery.ScopeOfKey | src/setup-npm-auth.mjs:303 | the scope starts with `@`, is a prefix of the key, and is cut at the first occurrence of `:registry` |
| Discovery.ScopedTask | src/setup-npm-auth.mjs:302-307 | an entry yields a task exactly when its key is `@…:registry` and its scope has an include; the task carries the value unchecked |
| Discovery.ScopedTasks | src/setup-npm-auth.mjs:301-309 | at most one task per entry; every task's scope starts with `@`, has an include, and takes the first include's variable |
| Discovery.ScopedTaskSource | src/setup-npm-auth.mjs:301-309 | every scoped task was emitted for some snapshot entry, with that entry's scope and value |
| Discovery.ScopedTasksAppend | src/setup-npm-auth.mjs:301-309 | scoped tasks follow snapshot order: the tasks of a concatenation are the concatenation of the tasks |
| Discovery.ScopedMatchedIff | src/setup-npm-auth.mjs:301-309 | the scoped tasks match a scope exactly when it has an include and some snapshot key maps to it |
| Discovery.Discover | src/setup-npm-auth.mjs:282-313 | the tasks end with the scoped tasks, in snapshot order, after at most two tasks whose scopes are `default` or `publish` |
| Discovery.DiscoverUsesFirstInclude | src/setup-npm-auth.mjs:282-313 | every task's scope has an include, and the task takes the variable of the first such include |
| Discovery.DiscoverFixedTargetsFirst | src/setup-npm-auth.mjs:282-313 | a `default` task is at position 0 and carries the snapshot's truthy `registry`; a `publish` task is at position 0, or at 1 right after the `default` task, and carries the decoded `publishConfig.registry` |
| Discovery.DiscoverMatchedIff | src/setup-npm-auth.mjs:282-313 | a scope is matched exactly when it has an include and: a truthy `registry` for `default`, a truthy decoded `publishConfig.registry` for `publish`, a `<scope>:registry` key otherwise |
| Discovery.ScopeOfKeyCutsAtFirst | src/setup-npm-auth.mjs:303 | `@a:registry` and `@a:registry:registry` both give scope `@a`, so task scopes need not be distinct |
| Discovery.PublishOfEmptyWrapper | src/setup-npm-auth.mjs:293-299 | with a `publish` include, the `{}` that npm prints for an unset field still yields a `publish` task whose registry is `{}` (see "## Findings") |
| Discovery.PublishTasksIntended | src/setup-npm-auth.mjs:293-299 | the corrected publish discovery: one `publish` task exactly when a `publish` include exists and the decoded `publishConfig.registry` is a non-empty string |
| Discovery.PublishIntendedAgreesOnStrings | src/setup-npm-auth.mjs:293-299 | when the decoded field is a string or is falsy, the corrected and the written publish discovery give the same tasks |
| Discovery.PublishIntendedRejectsEmptyWrapper | src/setup-npm-auth.mjs:320-335 | with the corrected discovery, npm's `{}` for an unset field leaves `publish` unmatched, so `ensureAllFound` fails, and with the `publish` include first it reports "Is publishConfig.registry set in package.json?" |
| Discovery.DiscoverExample | src/setup-npm-auth.mjs:282-313 | a default registry plus one `@foo:registry` key, with the matching includes, give the `default` task and then the `@foo` task |
| Discovery.EnsureAllFound | src/setup-npm-auth.mjs:320-335 | passes exactly when every include's scope is matched by a task; otherwise reports the first unmatched include in include order, with the `default`, `publish` or generic scope hint |
| Npm.ListArgs | src/setup-npm-auth.mjs:91-96 | `config list --json`, then `--location=<loc>` exactly when a non-empty location is given |
| Npm.SetArgs | src/setup-npm-auth.mjs:104-107 | `config set`, then `--location <loc>` exactly when a non-empty location is given, then the key and the value |
| Npm.PkgGetArgs | src/setup-npm-auth.mjs:73 | `npm pkg get` is asked for the one key, with `--json` |
| Npm.NpmExec | src/setup-npm-auth.mjs:129-139 | a dry-run invocation resolves to `""` without spawning; any other invocation hands its argument vector to `spawn("npm", args)` with `shell: true` |
| Npm.SpawnedArgs | src/setup-npm-auth.mjs:129-131 | the argument vectors spawned are exactly those of the invocations that are not dry run |
| Apply.Token | src/setup-npm-auth.mjs:347 | a variable gives a token exactly when it is set and non-empty |
| Apply.StepFor | src/setup-npm-auth.mjs:347-353 | a missing token is reported under the task's variable; otherwise the step is `config set --location user <key> <token>` with the run's dry-run flag |
| Apply.SetupRegistryAuth | src/setup-npm-auth.mjs:343-355 | there is a step per task until the loop stops, and it stops early only at a registry the URL parser rejects, with InvalidRegistryUrl of that value, whether or not its token is present |
| Apply.StepsFollowTasks | src/setup-npm-auth.mjs:344-353 | the step at each position belongs to the task at that position and uses the auth key of that task's parsed registry URL |
| Apply.SetInvocations | src/setup-npm-auth.mjs:343-355 | the commands issued are exactly the `config set` steps, in step order (with SetInvocationsAppend and SingleStepLists) |
| Apply.MissingVars | src/setup-npm-auth.mjs:343-355 | the variables reported missing are exactly those of the missing-variable steps, in step order (with MissingVarsAppend and SingleStepLists) |
| Apply.SetInvocationsAppend | src/setup-npm-auth.mjs:344-354 | the commands of consecutive steps are those of the first steps followed by those of the rest, with order and repetition kept |
| Apply.MissingVarsAppend | src/setup-npm-auth.mjs:344-351 | the missing variables of consecutive steps are those of the first steps followed by those of the rest, with order and repetition kept |
| Apply.SingleStepLists | src/setup-npm-auth.mjs:347-353 | one step contributes its `config set` command or its variable name, and nothing else |
| Apply.StepForDryRun | src/setup-npm-auth.mjs:353 | a task's dry-run step is its real step with the dry-run flag set |
| Apply.FailureIgnoresEnvAndDryRun | src/setup-npm-auth.mjs:343-355 | how far the loop gets and how it fails depend on the registry values only, not on the environment or on dry run |
| Apply.DryRunMirrorsRealRun | src/setup-npm-auth.mjs:343-355 | a dry run takes the same steps with the same argument vectors as a real run, and stops at the same place with the same error; only the dry-run flag differs |
| Apply.DryRunSetsSpawnNothing | src/setup-npm-auth.mjs:353 | in dry run every `config set` is a dry-run invocation, so none spawns npm |
| Apply.DryRunSpawnsNothing | src/setup-npm-auth.mjs:129-131 | invocations that are all dry run spawn nothing |
| Orchestrator.Queries | src/setup-npm-auth.mjs:376 | the run reads `config list` for the given location, then `pkg get publishConfig.registry --json` exactly when a `publish` include exists; reads are never dry run; the `pkg get` read is the one `discoverRegistries` issues at :295 through `npm.pkg.get` (:73) |
| Orchestrator.Run | src/setup-npm-auth.mjs:361-393 | "Nothing to configure." exactly when discovery is empty; otherwise, when `ensureAllFound` fails the run fails with that very error and takes no step, and when it passes the run takes exactly `setupRegistryAuth`'s steps, completes exactly when that loop finishes, and otherwise fails with the loop's error |
| Orchestrator.Configure | src/setup-npm-auth.mjs:392 | the run takes `setupRegistryAuth`'s steps and completes exactly when every task has a step; otherwise it fails with the loop's InvalidRegistryUrl error |
| Orchestrator.UnmatchedIncludesAloneSucceed | src/setup-npm-auth.mjs:385-390 | when no include is matched, the run ends with "Nothing to configure." and no error |
| Orchestrator.NotFoundAloneSucceeds | src/setup-npm-auth.mjs:385-390 | `--include @notfound` without an `@notfound:registry` key ends with "Nothing to configure.", although the include check would report it |
| Orchestrator.RunValidated | src/setup-npm-auth.mjs:423-424 | corrected order: "Nothing to configure." no longer occurs; when `ensureAllFound` fails the run fails with that error before any step, and otherwise it takes exactly `setupRegistryAuth`'s steps and ends as that loop does |
| Orchestrator.ValidatedAgreesWhenAllFound | src/setup-npm-auth.mjs:385-392 | when every include is matched, the corrected run and the run as written agree |
| Orchestrator.DryRunWritesNothing | src/setup-npm-auth.mjs:129-131 | in dry run only the read commands spawn npm |
| Orchestrator.SpawnedArgsAppend | src/setup-npm-auth.mjs:129-131 | the spawned commands of two invocation lists in sequence are those of the first, then those of the second |
| Orchestrator.DefaultRegistryExample | src/setup-npm-auth.mjs:361-393 | with no options, a default registry `https://r.example/` and `NODE_AUTH_TOKEN=s3`, the run reads `config list --json` and issues `config set --location user //r.example/:_authToken s3` |

## Left out

- `npmExec` hands its vector to `spawn` with `shell: true` (:136-139). The shell joins the arguments and interprets them, so a token holding shell metacharacters or spaces would not reach npm unchanged. The model records the argument vector handed over, not what the shell makes of it.
- `npmExec`'s process machinery (src/setup-npm-auth.mjs:119-205, apart from the dry-run branch) is left out. That covers spawning, output buffering, timeouts, and exit-code and signal errors. Every command that is not a dry run is assumed to succeed, so a failing `config list` or `config set` is not modelled.
- `tryParseJson` and `JSON.parse` (:207-213) are library parsers. Their results are inputs:
  - the configuration snapshot and the `pkg get` output;
  - a snapshot that is not an object is not modelled.
- `new URL` (:216) is the WHATWG URL library. It is the `parseUrl` parameter, and only `host` and `pathname` of its result are kept.
- The fallback in `npm.pkg.get` that retries without `--json` (:78-82) is left out, because it only runs after a process failure.
- Console output is left out: the verbose narration, the ANSI colours, the "Nothing to configure." line and the missing-variable message. The statuses and steps record which message a run would print. The echo at :127 prints every argument, the token included, so the model does not claim that tokens stay hidden.
- `process.env` is a map parameter from names to strings, and a name that is not in the map has no token.
- Apply.Token: `process.env[x] || null` (:347) also finds names that objects inherit from `Object.prototype`, such as `constructor`, `toString` or `__proto__`. With `--include @a=constructor` the token would be a function, and `npmExec`'s check that every argument is a string (:121-122) would throw a `TypeError`, before its dry-run branch. The model reports such a variable as missing instead.
- JavaScript's `in` on objects also sees inherited and array-index keys. The model's lookups and `ensureAllFound`'s hint table see only the object's own keys. No valid scope is an inherited property name, so the hints agree.
- The commander wiring and help text in `main` (:396-450), `bin/index.mjs` and the GitHub Actions entrypoints are left out. They are argument-parser and process glue.
- Discovery.PublishTasksIntended is stated next to the written `PublishTasks`. `Discover` and the run keep the code as written, so they still make the `{}` task described under "## Findings".
- Discovery.Discover: the `publishConfig.registry` lookup is an input. The model does not record that it is read only when a `publish` include exists. `Orchestrator.Queries` records when the command is issued.

## Findings

| source | as written | input that shows it | evidently intended | confidence | as-written member | corrected member |
|---|---|---|---|---|---|---|
| src/setup-npm-auth.mjs:385-390 | `run` returns "Nothing to configure." when discovery is empty, before `ensureAllFound` runs | `--include @notfound` with no `@notfound:registry` key: the run ends without an error | the usage example at :423-424 says this call fails because the registry is not found, so the include check should come first | not executed; medium | Orchestrator.NotFoundAloneSucceeds | Orchestrator.RunValidated |
| src/setup-npm-auth.mjs:293-299 | `discoverRegistries` truth-tests what `npm.pkg.get` returns, and `npm pkg get` prints `{}` for an unset field, which is truthy | `--include publish` in a package without `publishConfig.registry`: a `publish` task is made with registry `{}`, and `new URL({})` at :216 then fails with an invalid-URL error | an unset field leaves `publish` unmatched, so `ensureAllFound` reports the hint "Is publishConfig.registry set in package.json?" (:325) | not executed; medium | Discovery.PublishOfEmptyWrapper | Discovery.PublishIntendedRejectsEmptyWrapper |
