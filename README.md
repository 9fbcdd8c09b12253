# npm install / npm ci with build info — a Dafny model

This project models the in-memory logic of the JFrog CLI command behind `jf rt npm-install` and
`jf rt npm-ci` (`artifactory/commands/npm/installorci.go`). It proves properties of that model.

The command works in four steps:

- It rewrites the output of `npm config list` into a temporary project `.npmrc` that sends npm to an Artifactory registry.
- It runs npm and then puts the user's `.npmrc` back.
- When build info is collected, it walks the dependency trees that `npm ls --json` prints for dev and prod dependencies. It flattens them into one record per `name:version`.
- It asks a lookup for each record's checksum and splits the records into resolved and missing build-info dependencies.

Modules:

- `Wrappers`: `Option`, `Error`, `Result`.
- `Seqs`: a generic `FlatMap` fold.
- `NpmArguments`: which npm arguments are flags, as filterFlags decides.
- `Text`: the Go `strings`/`strconv` functions the command uses (`TrimSpace` with Go's white-space set, `SplitN(…, 2)`, `Split`, `HasPrefix`, `Contains`, `TrimPrefix`, `TrimSuffix`, `FormatBool`, joining).
- `NpmrcConfig`: the specification of the `.npmrc` text and of the dependency-type restriction, with its lemmas. `NpmrcExample` and `NpmrcLineExample` hold worked cases.
- `DependencyTree`: the `npm ls` tree as a datatype, and the walk as a pre-order list of visits folded into the map by the upsert `appendDependency` performs. Also the lemmas about the walk and about `setDependenciesList`.
- `Manifest`: the checksum task and `transformDependencies` as functions, with the partition lemmas. `ManifestExample` has a lookup that finds one dependency and not the other.
- `RunFlow`: the error composition of `restoreNpmrcAndError`, and `run` as a function over the outcomes of its steps.
- `InstallOrCi`: the package-level helpers as methods with loops, and the class `NpmCommandArgs`. Its methods update `typeRestriction` and `dependencies` in place and are proved against the functions above.

Inputs and what is abstracted:

- The scanner input is the sequence of lines it yields, plus the error it stopped on, if any.
- Each `npm ls` result is a `Listing`: an ordered sequence of `Node(name, version?, children)`, or an error for output that cannot be read as a JSON object.
- The checksum lookup (previous build or Artifactory) is a function parameter from `(name, version)` to `(checksum?, fileType, error?)`.
- Map iteration order is a ghost key order. Every result that depends on it is stated for any order, and the partition is shown to be the same up to order.

Three behaviours of the code worth knowing:

- **Paths.** Each recorded path is the path of the node's parent, not a path starting with the node itself (`installorci.go:438`, `445`). With root module `app@1.0.0` and tree `a:1.0.0 → b:2.0.0`:
  - `a:1.0.0` gets `[["app@1.0.0"]]`;
  - `b:2.0.0` gets `[["a:1.0.0", "app@1.0.0"]]` (`DependencyTree.TwoLevelExample`, stated for any names, versions, root and scope).
- **Scoped registries.** A scoped-registry line keeps its raw left part, trailing blanks included. So `@s:registry = u` becomes `@s:registry ` followed by ` = <registry>`, with two spaces before the `=` (`NpmrcLineExample.ScopedRegistryLine`).
- **Dropped `npm config list` error.** `createTempNpmrc` assigns the error of `npm config list` and overwrites it on the next line (`installorci.go:230-231`). A failed listing is therefore not reported by that step.

## Model

| member | source | states |
|---|---|---|
| NpmrcConfig.IsValidKey | artifactory/commands/npm/installorci.go:557-564 | a key is accepted iff it is none of `registry`, `metrics-registry`, `json` and does not start with '@', ';' or "//", stated on its first characters |
| NpmrcConfig.DirectivesAllowed | artifactory/commands/npm/installorci.go:335-351 | every directive taken from the user's configuration has an '=' and either a key `isValidKey` accepts or is a scoped override whose value is the Artifactory registry: no `registry`, `metrics-registry`, `json`, `//…` or `;` line of the user's is copied |
| NpmrcConfig.LineDirectivesAllowed | artifactory/commands/npm/installorci.go:336-351 | the same for the directives of one line, in each case of the scan (empty, kept, list, scoped, dropped) |
| NpmrcConfig.ArrayKeyValid | artifactory/commands/npm/installorci.go:557-564 | a key `isValidKey` accepts stays acceptable with `[]` appended, so the expanded list directives are never reserved keys |
| NpmrcConfig.ArrayDirectiveAllowed | artifactory/commands/npm/installorci.go:370-375 | each `key[] = element` directive of a kept list setting splits back at its first '=' into a trimmed key that `isValidKey` accepts |
| NpmrcConfig.ScopedDirectiveAllowed | artifactory/commands/npm/installorci.go:348-350 | the scoped override `<left> = <registry>` splits back to its left part and the Artifactory registry |
| NpmrcConfig.ScopedLineRedirected | artifactory/commands/npm/installorci.go:348-350 | a line whose raw left part starts with '@' is replaced by `<left> = <registry>` and never copied |
| NpmrcConfig.ConfigDirectivesAt | artifactory/commands/npm/installorci.go:335-353 | lines are translated independently: line i's directives sit between those of the lines before and after it |
| NpmrcConfig.LinesStep | artifactory/commands/npm/installorci.go:335-353 | one more scanned line appends exactly its own directives and its own setting |
| NpmrcConfig.ArrayDirectivesElements | artifactory/commands/npm/installorci.go:365-378 | a non-empty list value gives one `key[] = element` directive per comma-separated element, in order, and the elements joined by commas between brackets give the value back |
| NpmrcConfig.TailText | artifactory/commands/npm/installorci.go:358-360 | the tail is `json = <bool>\n`, then `registry = <registry>\n`, then the auth text |
| NpmrcConfig.NpmrcTextLayout | artifactory/commands/npm/installorci.go:358-361 | the written file is the translated directives, each with its newline, followed by that tail in that order |
| NpmrcConfig.JoinedStep | artifactory/commands/npm/installorci.go:335-361 | a configuration that joins to the directives scanned so far, extended by one line's terminated directives, joins to the directives of all those lines: the loop invariant of the scan on the text line 361 joins |
| NpmrcConfig.ScopedPieces | artifactory/commands/npm/installorci.go:350 | the four pieces appended for a scoped registry join to the override directive and its newline |
| NpmrcConfig.OmitTakesPrecedence | artifactory/commands/npm/installorci.go:384-389 | after the last `omit` setting the restriction is prod-only if its value contains "dev" and all otherwise, whatever came before and whatever deprecated settings follow |
| NpmrcConfig.RestrictionSticks | artifactory/commands/npm/installorci.go:390-400 | once the restriction is no longer the default, settings other than `omit` leave it unchanged |
| NpmrcConfig.FirstDeprecatedWins | artifactory/commands/npm/installorci.go:390-400 | without `omit`, the result is the choice of the first `only` (prod, else dev) or `production` (true) setting that selects one |
| NpmrcConfig.RestrictionAppend | artifactory/commands/npm/installorci.go:335-347 | scanning two runs of settings is scanning the second from where the first left the restriction |
| NpmrcExample.OmitThenOnly | artifactory/commands/npm/installorci.go:384-389 | `omit = dev` then `only = prod` gives prod-only |
| NpmrcExample.ProductionOnly | artifactory/commands/npm/installorci.go:397-398 | `production = true` alone gives prod-only |
| NpmrcExample.FirstOnlyWins | artifactory/commands/npm/installorci.go:390-396 | `only = dev` before `only = prod` gives dev-only |
| NpmrcLineExample.ScopedRegistryLine | artifactory/commands/npm/installorci.go:348-350 | `@scope:registry = url` becomes `@scope:registry ` + ` = <registry>` |
| DependencyTree.UpsertSpec | artifactory/commands/npm/installorci.go:453-460 | after appendDependency the key is present, the scope occurs exactly once in its scopes, its paths grew by exactly the given path, and every other entry is unchanged |
| DependencyTree.AddScopeTwice | artifactory/commands/npm/installorci.go:456-458 | adding a scope that is already there changes nothing |
| DependencyTree.UpsertAllKeys | artifactory/commands/npm/installorci.go:453-455 | after a run of upserts the keys are the old keys plus the visited ones; nothing is ever removed |
| DependencyTree.UpsertAllPaths | artifactory/commands/npm/installorci.go:459 | a key's paths are its old paths followed by one path per visit of the key, in visit order: N ancestor chains give N paths |
| DependencyTree.UpsertAllScopes | artifactory/commands/npm/installorci.go:454-458 | a visited key gains the scope once; an unvisited one keeps its scopes |
| DependencyTree.UpsertAllFields | artifactory/commands/npm/installorci.go:453-460 | upserts keep name, version, file type and checksum of existing records; new records have neither file type nor checksum |
| DependencyTree.WalkStep | artifactory/commands/npm/installorci.go:428-450 | the members of a `dependencies` object are walked one after the other, in order |
| DependencyTree.NodeWalk | artifactory/commands/npm/installorci.go:429-448 | visiting a member records it under the parent path when it has a version, then walks its own dependencies with its key `name:version` prepended to the parent path |
| DependencyTree.ForestVisitsShape | artifactory/commands/npm/installorci.go:427-451 | every visit is keyed `name:version`, and every recorded path ends with the path the walk started from |
| DependencyTree.NodeVisitsShape | artifactory/commands/npm/installorci.go:429-448 | the same for the visits of one member and its descendants |
| DependencyTree.VersionlessNodeSkipped | artifactory/commands/npm/installorci.go:430-448 | a member without a version is not recorded, but its children are still walked, under the key `name:` |
| DependencyTree.UpsertWellFormed | artifactory/commands/npm/installorci.go:453-460 | an upsert of a `name:version` visit whose path ends at the module keeps the map well formed (own key, scopes once, at least one path, every path ending at the module) |
| DependencyTree.UpsertAllWellFormed | artifactory/commands/npm/installorci.go:427-460 | a run of such upserts keeps the map well formed |
| DependencyTree.CollectedEntry | artifactory/commands/npm/installorci.go:262-274 | with readable listings, a key is present iff a walked listing visits it; its scopes are "dev" then "prod", each once, for the walked listings that visit it; its paths are the dev paths then the prod paths |
| DependencyTree.AfterDevEntry | artifactory/commands/npm/installorci.go:263-269 | after the dev walk (skipped when prod-only) a key is present iff visited, with scope "dev" and one path per visit |
| DependencyTree.BothScopesOnce | artifactory/commands/npm/installorci.go:262-274 | with the default or `all` restriction, a dependency in both listings ends with scopes exactly `["dev", "prod"]` |
| DependencyTree.CollectedWellFormed | artifactory/commands/npm/installorci.go:262-274 | the collected map is well formed, whatever the restriction and listings, and also when a listing cannot be read |
| DependencyTree.TwoLevelExample | artifactory/commands/npm/installorci.go:427-451 | for any tree `a → b` with two distinct `name:version` keys, walked in a scope from a root module, `a` is recorded with the path `[root]` and `b` with the path `[a's key, root]`, each with that one scope and no checksum |
| DependencyTree.VersionlessExample | artifactory/commands/npm/installorci.go:433-448 | for any names, a node without a version is not recorded, while its child is recorded under the path `[peer:, root]` |
| Manifest.ApplyInfoChanges | artifactory/commands/npm/installorci.go:469-483 | the checksum task leaves its record unchanged when the lookup fails or finds no checksum; otherwise it sets that record's file type and checksum and nothing else |
| Manifest.EnrichedIdempotent | artifactory/commands/npm/installorci.go:276-298 | running every task a second time with the same answers changes nothing |
| Manifest.EnrichedWellFormed | artifactory/commands/npm/installorci.go:466-485 | the tasks keep the keys and the walk's data, so the map stays well formed |
| Manifest.SplitByChecksum | artifactory/commands/npm/installorci.go:488-500 | the two lists together hold as many entries as the keys met |
| Manifest.SplitPrefix | artifactory/commands/npm/installorci.go:489-498 | for the keys met so far, each list holds only converted records (`Id = name:version`) of keys met, with a checksum in the first and without in the second, no id twice, and the two id sets together are exactly the keys met |
| Manifest.SplitIsPartition | artifactory/commands/npm/installorci.go:488-500 | for any order of the keys, every map entry lands in exactly one of resolved (checksum present) and missing (absent), converted with `Id = name:version` |
| Manifest.PartitionMembers | artifactory/commands/npm/installorci.go:490-497 | an entry is in resolved iff it is a converted record with a checksum, in missing iff without |
| Manifest.PartitionUnique | artifactory/commands/npm/installorci.go:488-500 | two partitions of the same map have the same lists up to order |
| Manifest.SplitOrderIrrelevant | artifactory/commands/npm/installorci.go:489 | map iteration order changes only the order of the lists, not their contents |
| ManifestExample.ScenarioEnriched | artifactory/commands/npm/installorci.go:474-481 | a lookup that finds no checksum for `c:3.0.0` leaves it as it was; `d:4.0.0` gets its checksum and file type; no task errs |
| ManifestExample.ScenarioPartition | artifactory/commands/npm/installorci.go:490-497 | `d:4.0.0` alone resolved and `c:3.0.0` alone missing form a partition of the enriched map |
| ManifestExample.NotFoundGoesToMissing | artifactory/commands/npm/installorci.go:276-298 | in that scenario, in any key order, `d:4.0.0` is the one resolved dependency, `c:3.0.0` the one missing, and no error is reported |
| RunFlow.RestoreNpmrcAndError | artifactory/commands/npm/installorci.go:502-507 | the result is the step's error iff the restore succeeded; otherwise the message starts with the header and the restore failure and ends with "\n " and the step's failure |
| RunFlow.RunCommand | artifactory/commands/npm/installorci.go:130-166 | the prerequisites always run first and, when they fail, alone with their error; the `.npmrc` is restored iff they succeed; the build-info steps run iff everything up to the restore succeeds and collection is on with no argument left after filterFlags |
| RunFlow.RestoreSucceededKeepsError | artifactory/commands/npm/installorci.go:502-507 | when the restore succeeds, restoreNpmrcAndError returns the step's error unchanged |
| RunFlow.RestoreFailedNamesBoth | artifactory/commands/npm/installorci.go:503-504 | when the restore fails, the message starts with "Two errors occurred:\n ", then holds the restore failure, then "\n " and the step's failure at the end |
| RunFlow.RestoreFailedIsNotTheStepError | artifactory/commands/npm/installorci.go:503-504 | a double failure never comes back as the step's error alone |
| RunFlow.StepsAfterPrerequisites | artifactory/commands/npm/installorci.go:135-162 | once the prerequisites succeed, the steps are setup steps, one restore, then only build-info steps |
| RunFlow.SetupThenRestore | artifactory/commands/npm/installorci.go:135-145 | such a sequence restores once, after every setup step and before every other step |
| RunFlow.RestoreExactlyOnce | artifactory/commands/npm/installorci.go:130-166 | failed prerequisites return their error and never restore; otherwise the `.npmrc` is restored exactly once, whether `createTempNpmrc` fails, npm fails, or both succeed, and before any build-info step |
| RunFlow.RunSucceedsIff | artifactory/commands/npm/installorci.go:130-166 | run succeeds iff prerequisites, `.npmrc` creation, npm and restore succeed and, when build info is collected, the three build-info steps succeed |
| RunFlow.RunReportsFirstFailure | artifactory/commands/npm/installorci.go:135-145 | a failing `.npmrc` creation or npm run is reported through restoreNpmrcAndError; a failing restore after success is reported as it is |
| RunFlow.ArgumentsSkipCollection | artifactory/commands/npm/installorci.go:147-150 | an npm argument that does not start with '-' survives filterFlags and turns build-info collection off (lines 254-257): run ends successfully after the restore |
| InstallOrCi.AddArrayConfigs | artifactory/commands/npm/installorci.go:365-378 | the result is the input configuration followed by each list directive and its newline; `[]` leaves it unchanged |
| InstallOrCi.ScopeAlreadyExists | artifactory/commands/npm/installorci.go:547-554 | true iff the scope is among the existing scopes |
| InstallOrCi.FilterFlags | artifactory/commands/npm/installorci.go:566-574 | the result is the arguments that do not start with '-', in order |
| NpmArguments.NonFlagsMembers | artifactory/commands/npm/installorci.go:566-574 | an argument is kept iff it does not start with '-'; no argument is added |
| InstallOrCi.NpmCommandArgs.constructor | artifactory/commands/npm/installorci.go:34-60 | a fresh command holds the given json flag, registry, auth text and module id, the zero restriction `defaultRestriction` and no dependencies |
| InstallOrCi.NpmCommandArgs.SetTypeRestriction | artifactory/commands/npm/installorci.go:380-401 | the field becomes the restriction the rule of `omit`, `only` and `production` selects; other keys leave it |
| InstallOrCi.NpmCommandArgs.ScanLine | artifactory/commands/npm/installorci.go:336-351 | one iteration of the scan appends pieces that join to the line's directives and applies the line's kept setting to the restriction |
| InstallOrCi.NpmCommandArgs.PrepareConfigData | artifactory/commands/npm/installorci.go:330-362 | the restriction ends as the scan of every kept setting leaves it; a scanner error is returned as the error; otherwise the text is the `.npmrc` specified by `NpmrcText` |
| InstallOrCi.NpmCommandArgs.AppendDependency | artifactory/commands/npm/installorci.go:453-460 | the map becomes the upsert whose properties `UpsertSpec` states |
| InstallOrCi.NpmCommandArgs.ParseDependencies | artifactory/commands/npm/installorci.go:427-451 | the map becomes the walk of the members from the given parent path |
| InstallOrCi.NpmCommandArgs.PrepareDependencies | artifactory/commands/npm/installorci.go:405-424 | a readable listing is walked from the path `[moduleId]`; an unreadable one is returned as the error |
| InstallOrCi.NpmCommandArgs.SetDependenciesList | artifactory/commands/npm/installorci.go:262-274 | the map and error are those of `CollectedDependencies` for the current restriction |
| InstallOrCi.NpmCommandArgs.DependencyInfoTask | artifactory/commands/npm/installorci.go:466-485 | only the task's own entry changes, as `ApplyInfo` says, and the lookup's error is returned |
| InstallOrCi.NpmCommandArgs.CollectDependenciesChecksums | artifactory/commands/npm/installorci.go:276-298 | every task runs, so the map becomes `Enriched`; no error is returned iff no lookup errs, and a returned error is one of the lookups' |
| InstallOrCi.NpmCommandArgs.TransformDependencies | artifactory/commands/npm/installorci.go:488-500 | the lists are the split of the map in the order the loop meets the keys, which lists every key once |

## Left out

- `Run`, `preparePrerequisites`, `setNpmExecutable`, `setJsonOutput`, `setArtifactoryAuth`, `validateNpmVersion`, `createTempNpmrc`, `removeNpmrcIfExists`, `runInstallOrCi`'s process and `saveDependenciesData` are left out. They read files and environment, spawn npm or talk to Artifactory. In `RunFlow.RunCommand` each is an outcome. The fields they fill (json flag, registry, auth text, module id) are constructor arguments.
- `validateNpmVersion`: the direction of its version comparison rests on a library that is not part of this model, so it is only a prerequisite outcome.
- `createRestoreErrorPrefix` is not used by the modelled code and is left out.
- `npm.RunList` is left out: its output is the `Listing` parameter. Its own error and stderr only produce warnings in the source.
- `jsonparser` byte-level parsing is replaced by the `Node` tree. Three consequences:
  - An error met midway through an object is modelled as an unreadable listing that records nothing (`PrepareDependencies`).
  - Duplicate JSON keys and the "Key path not found" string test on `dependencies` are not modelled.
  - A `dependencies` member that is present but empty walks nothing, as in the source.
- `bufio.Scanner` line splitting is replaced by the line sequence. Its 64 KiB line limit is only the optional scan error.
- The concurrency of `collectDependenciesChecksums` is left out: the bounded runner, goroutine producer and shared error queue. `CollectDependenciesChecksums` runs the tasks one after another in some key order. With an error queue of size one, the kept error is the first one reported, and the ensures says it is one of the lookups' errors.
- `CreateServiceManager` and `GetDependenciesFromLatestBuild` are left out: their failures are part of the run outcome `collectChecksums`.
- `GetDependencyInfo` is left out: it is the `Lookup` parameter, and no precedence of a previous build over Artifactory is asserted.
- The ordering of the build-info lists is left out: it follows Go map iteration, so only the contents are specified.
- The `.npmrc` file contents across backup and restore are left out: the model records that the restore runs, not the bytes it restores.
- `artifactory/utils/dependenciesutils.go` and `jfrog-cli/docs/artifactory/gradle/help.go` are not part of this model: the first is download and configuration lookup, the second help text.
