# vue-blocks-registry in Dafny

This project models the logic at the heart of vue-blocks-registry, a registry of copy-in Vue
building blocks, together with the CLI that installs them into a project. It then proves
properties of that model.

**Resolver.** The main subject is the dependency resolver that every installation relies on. Its
constructor turns a list of registry items into a name-to-node map whose keys keep their first
insertion order. It offers four depth-first queries:

- `resolve`: the install order, npm packages, cycles and missing names for one item;
- `resolveAll`: the same over every item;
- `getAllDependencies`: the transitive closure of one item;
- `hasCircularDependencies`: whether the graph has any cycle.

The resolver is a class whose constructor fills its maps in loops. Each query is a method whose
recursive `visit` closure is a pair of mutually recursive methods over the closure's local state.
Each query is proved against a specification predicate over walks in the local-edge graph
(`ResolveSpec`, `ResolveAllSpec`, `ClosureSpec`, `HasCycle`).

**CLI.** The CLI side covers:

- the import-alias rewriting and the leftover-import scanner;
- the two install planners, `installRegistryComponent` and the `add` command, and the rule that
  maps a registry file to a project path;
- the three anchor-based source patches (i18n aggregator, router, Vite config);
- package-manager detection and command vectors;
- the `list` command.

**Registry.** The registry side covers:

- base64url and mock-JWT construction (RFC 4648, sections 4 and 5);
- the tenant and two-factor token readers;
- the three route guards and the auth store they read and change;
- browser locale resolution;
- the HTTP error and retry classification of the five `queryUtils.ts` files.

**Effects.** Effects are kept out of the model. A network fetch is a partial map from name to
item. File contents are strings, and a file write or process launch is a returned action or
command vector. The add command's confirm prompts take their answers, in order, from a session that also records which files exist. The clock, `Math.random`,
`JSON.stringify`, `jwtDecode` and the environment are parameters.

**Modules.** There is one module per source file. The resolver is split over `ResolverGraph`
(data and graph notions), `ResolveVisit`, `ResolveAllVisit`, `ClosureVisit` and `CycleVisit` (the
four closures), `DependencyResolver` (construction and the class) and `ResolverExamples` (the
outcomes its test file pins). `Wrappers`, `Seqs` and `Text` hold the shared helpers: `Option`,
sequence facts, and JavaScript-style literal `replace` (first and global), `split`, `join`,
`includes` and `trim`. `CliConfig` and `Routing` hold the CLI's item and alias records and the
route records the guards read.

## Model

| member | source | states |
|---|---|---|
| DependencyResolver.NodeOf | src/lib/dependency-resolver.ts:19-25 | a node keeps the item's name and copies its arrays, an absent `dependencies` or `registryDependencies` becoming empty; `resolved` starts false |
| DependencyResolver.Names | src/lib/dependency-resolver.ts:11-27 | the names of the items, position by position |
| DependencyResolver.GraphOfLastWins | src/lib/dependency-resolver.ts:18-26 | when names repeat, the map holds the node of the last item with that name |
| DependencyResolver.GraphOfKeys | src/lib/dependency-resolver.ts:18-26 | the node map's keys are exactly the item names |
| DependencyResolver.RegistryOfAgrees | src/lib/dependency-resolver.ts:18-26 | the registry map and the node map have the same keys, and each node is built from the registry entry under its name |
| DependencyResolver.KeyOrderFirstOccurrence | src/lib/dependency-resolver.ts:139 | the map's key iteration order lists every name once and orders any two names as their first occurrences among the items |
| DependencyResolver.KeyOrderMembers | src/lib/dependency-resolver.ts:214 | the key order holds every name once and nothing else |
| DependencyResolver.KeyOrderRanks | src/lib/dependency-resolver.ts:214 | two names come in the key order as they first come among the items |
| DependencyResolver.SameOrderAppend | src/lib/dependency-resolver.ts:18-26 | inserting a name keeps the key order in step with first occurrence (a repeated name keeps its place) |
| DependencyResolver.Resolver.constructor | src/lib/dependency-resolver.ts:11-27 | the two map-filling loops produce the registry map, the node map and the key order of the items, and the keys are distinct and exactly the nodes' names |
| DependencyResolver.Resolver.Resolve | src/lib/dependency-resolver.ts:33-96 | the result meets `ResolveSpec`: the install order holds every existing name reachable through non-URL edges exactly once, with the requested item last; each dependency comes first unless the edge closed a reported cycle; each cycle is a genuine walk from the item back into its own path; npm packages are the duplicate-free union over the installed items; missing names are, once each, exactly the names without a node that are the item itself or a local dependency of an installed item; empty lists become undefined |
| DependencyResolver.Resolver.ResolveAll | src/lib/dependency-resolver.ts:102-148 | the result meets `ResolveAllSpec`: the install order is a permutation of all node names; dependencies come first except along edges that closed a reported cycle; every reported cycle is genuine; npm packages cover all nodes; `missingDependencies` is never set |
| DependencyResolver.Resolver.GetAllDependencies | src/lib/dependency-resolver.ts:153-178 | the result lists, without duplicates, exactly the names reachable by one or more non-URL edges, missing names included |
| DependencyResolver.Resolver.HasCircularDependencies | src/lib/dependency-resolver.ts:183-221 | true exactly when the local-edge graph among existing nodes has a cycle, self-loops included |
| ResolverGraph.NotUrl | src/lib/dependency-resolver.ts:73 | a name not starting with `h` is never skipped as a URL |
| ResolverGraph.NoCycleWhenEdgesBackward | src/lib/dependency-resolver.ts:214-220 | an order that puts every edge's target before its source, starting from a listed name, admits no cycle walk |
| ResolverGraph.ClosedReach | src/lib/dependency-resolver.ts:58-86 | a name set closed under edges to existing nodes contains every existing node a walk from it reaches |
| ResolverGraph.AddAll | src/lib/dependency-resolver.ts:66-68 | adding names to an insertion-ordered set keeps it duplicate-free and extends it to exactly the old names plus the new ones |
| ResolveVisit.VisitResolve | src/lib/dependency-resolver.ts:41-86 | one `visit`: keeps the resolve invariant, only extends the state, records a missing name as missing, records a name on the current path as a cycle, and otherwise leaves the name visited and (when first seen) last in the install order |
| ResolveVisit.VisitNode | src/lib/dependency-resolver.ts:58-86 | the first visit of an existing node visits its local dependencies in order and appends the node after them |
| ResolveVisit.RevisitStep | src/lib/dependency-resolver.ts:43-56 | the early returns of `visit` (missing, on the path, already visited) keep the invariant and record what the source records |
| ResolveVisit.ResultOf | src/lib/dependency-resolver.ts:90-95 | the lists are returned as collected, and an empty cycle or missing list becomes undefined |
| ResolveVisit.ResolveDone | src/lib/dependency-resolver.ts:88-95 | after the top-level visit the invariant yields `ResolveSpec` |
| ResolveVisit.ResolveReportsCycleIff | src/lib/dependency-resolver.ts:51-56 | `resolve` reports cycles exactly when a cycle can be walked from the requested item |
| ResolveVisit.ResolveAcyclicIsTopological | src/lib/dependency-resolver.ts:58-85 | on an acyclic graph no cycle is reported and every dependency precedes its dependent |
| ResolveAllVisit.VisitAll | src/lib/dependency-resolver.ts:109-136 | one path-based `visit`: keeps the invariant, records a name already on the path as a cycle, otherwise leaves the name visited; missing names are skipped |
| ResolveAllVisit.VisitAllNode | src/lib/dependency-resolver.ts:122-135 | a new node's local dependencies are visited before it is appended |
| ResolveAllVisit.ResolveAllReportsCycles | src/lib/dependency-resolver.ts:115-120 | `resolveAll` reports cycles exactly when the graph has one |
| ClosureVisit.VisitClosure | src/lib/dependency-resolver.ts:157-174 | the closure visit keeps its invariant, only grows its sets, and leaves the name visited |
| ClosureVisit.ClosureDone | src/lib/dependency-resolver.ts:176-177 | after the top-level visit the result is exactly the one-or-more-step reachable names, once each |
| ClosureVisit.ClosureHoldsRootOnCycle | src/lib/dependency-resolver.ts:153-178 | the item is in its own dependency list exactly when a cycle leads back to it |
| CycleVisit.HasCycleFrom | src/lib/dependency-resolver.ts:187-212 | a `true` answer means the graph has a cycle; a `false` answer keeps the finish-order invariant and leaves the name visited |
| CycleVisit.NoCycleWhenAllFinished | src/lib/dependency-resolver.ts:214-220 | once every key has finished without a hit, the graph has no cycle |
| ResolverExamples.ResolveSingleItem | src/lib/__tests__/dependency-resolver.spec.ts:7-23 | a lone item resolves to itself, no packages, no cycles and nothing missing |
| ResolverExamples.ResolveCollectsPackages | src/lib/__tests__/dependency-resolver.spec.ts:25-40 | an item's npm packages are collected |
| ResolverExamples.ResolveWithDependency | src/lib/__tests__/dependency-resolver.spec.ts:42-61 | `button` on `utils` installs `utils` first |
| ResolverExamples.ResolveNested | src/lib/__tests__/dependency-resolver.spec.ts:65-90 | a three-level chain installs bottom-up |
| ResolverExamples.ResolveMultiple | src/lib/__tests__/dependency-resolver.spec.ts:92-124 | an item with two dependencies comes after both |
| ResolverExamples.ResolveMutualPair | src/lib/__tests__/dependency-resolver.spec.ts:128-149 | a mutual pair terminates with a non-empty cycle list |
| ResolverExamples.TriangleHasCycle | src/lib/__tests__/dependency-resolver.spec.ts:151-175 | a three-node cycle is a cycle |
| ResolverExamples.ResolveReportsMissing | src/lib/__tests__/dependency-resolver.spec.ts:178-194 | a dependency without a node is reported missing |
| ResolverExamples.ResolveAllInOrder | src/lib/__tests__/dependency-resolver.spec.ts:196-222 | `resolveAll` over a chain installs it in dependency order |
| ResolverExamples.AllDependenciesNested | src/lib/__tests__/dependency-resolver.spec.ts:225-252 | the closure of the chain's top holds both lower items |
| ResolverExamples.ResolveUnknownItem | src/lib/dependency-resolver.ts:43-49 | an unknown requested item yields only itself as missing |
| ResolverExamples.ResolveTwoChain | src/lib/dependency-resolver.ts:71-88 | in a two-name graph the dependency is installed first |
| ResolverExamples.ResolveChain3 | src/lib/dependency-resolver.ts:71-88 | any three-chain resolves bottom-up |
| ResolverExamples.ResolveAllChain3 | src/lib/dependency-resolver.ts:109-147 | `resolveAll` over any three-chain installs it bottom-up, whatever the key order |
| ResolverExamples.Chain3Acyclic | src/lib/dependency-resolver.ts:183-221 | a three-chain has no cycle |
| ResolverExamples.ResolveAfterEachDependency | src/lib/dependency-resolver.ts:71-88 | the requested item comes after each of its existing dependencies |
| Transformers.NoRegistryUnchanged | cli/src/utils/transformers.ts:13-61 | text without `@registry/` is returned unchanged |
| Transformers.NoLeftoverPrefixes | cli/src/utils/transformers.ts:17-59 | with aliases of the `@/` form, none of the six rewritten prefixes is left in the output |
| Transformers.TransformIdempotent | cli/src/utils/transformers.ts:17-59 | under the same aliases a second pass changes nothing |
| Transformers.EmptyComponentsAliasKeeps | cli/src/utils/transformers.ts:29-35 | an empty components alias leaves `@registry/components` in place |
| Transformers.EmptyLibAliasKeeps | cli/src/utils/transformers.ts:38-44 | an empty lib alias leaves `@registry/lib` in place |
| Transformers.ExampleComponents | cli/src/utils/transformers.ts:28-35 | `@registry/components` followed by `@`-free text becomes the components alias followed by that text |
| Transformers.ExampleLib | cli/src/utils/transformers.ts:37-44 | `@registry/lib` followed by `@`-free text becomes the lib alias followed by that text |
| Transformers.ExampleModules | cli/src/utils/transformers.ts:16-20 | `@registry/modules` always becomes `@/modules` |
| Transformers.ExampleLayouts | cli/src/utils/transformers.ts:22-26 | `@registry/app/layouts` always becomes `@/layouts` |
| Transformers.ExampleSharedUtils | cli/src/utils/transformers.ts:46-51 | `@registry/shared/utils` becomes the lib alias, or `@/lib` when that alias is empty |
| Transformers.DocumentedComponents | cli/src/utils/transformers.ts:7 | with the default aliases, `@registry/components/ui/button` becomes `@/components/ui/button` |
| Transformers.DocumentedLib | cli/src/utils/transformers.ts:8 | `@registry/lib/utils` becomes `@/lib/utils` |
| Transformers.DocumentedModules | cli/src/utils/transformers.ts:9 | `@registry/modules/auth/...` becomes `@/modules/auth/...` |
| Transformers.DocumentedLayouts | cli/src/utils/transformers.ts:10 | `@registry/app/layouts/...` becomes `@/layouts/...` |
| Transformers.DocumentedSharedUtils | cli/src/utils/transformers.ts:11 | `@registry/shared/utils/typeGuards` becomes `@/lib/typeGuards` |
| Transformers.AliasRebuilds | cli/src/utils/transformers.ts:28-58 | a components alias that later patterns cannot match survives the later steps |
| Transformers.AliasCanRebuildPrefix | cli/src/utils/transformers.ts:28-35 | a non-empty alias free of `@registry/` (here `@registry`) can rebuild a rewritten prefix in the output |
| Transformers.PathRun | cli/src/utils/transformers.ts:68 | the greedy run of path characters `[A-Za-z0-9_/.-]` at the head of a string, and the character that ends it |
| Transformers.ValidateTransformation | cli/src/utils/transformers.ts:67-71 | every reported string starts with `@registry/` and has at least one more character, and the matches, being disjoint, number at most an eleventh of the text |
| Transformers.ValidateFindsImports | cli/src/utils/transformers.ts:67-71 | every reported string is a maximal `@registry/` import occurring in the text |
| Transformers.ValidateEmptyIff | cli/src/utils/transformers.ts:67-71 | the result is empty exactly when no `@registry/` followed by a path character occurs |
| Transformers.LeftoversAfterTransform | cli/src/utils/transformers.ts:13-71 | after a rewrite with `@/` aliases, no reported leftover starts with a rewritten prefix |
| PackageManagers.DetectPackageManager | cli/src/utils/package-manager.ts:19-57 | lock files are checked pnpm, yarn, npm; the first present wins and pnpm is the default; every manager's command is its name, its install verb `install`, and its add verb `install` for npm and `add` otherwise |
| PackageManagers.NpmOnlyFromItsLockFile | cli/src/utils/package-manager.ts:19-57 | npm is chosen exactly when only its own lock file of the three is present |
| PackageManagers.GetAddCommand | cli/src/utils/package-manager.ts:62-77 | the vector is the command, the add verb, the dev flag when asked for, then the dependencies in order |
| PackageManagers.AddCommandShapes | cli/src/utils/package-manager.ts:62-77 | npm adds with `npm install [--save-dev]`, pnpm and yarn with `<name> add [-D]` |
| PackageManagers.DlxCommand | cli/src/utils/package-manager.ts:89-110 | `node <local CLI path>` with the arguments when that path is set and the package is `vue-blocks-registry`; otherwise `npx <package>` for npm and `<manager> dlx <package>` for the others |
| PackageManagers.DlxPassesArguments | cli/src/utils/package-manager.ts:96-109 | on every branch the arguments end the vector unchanged, preceded by the package name except on the local branch |
| InstallPlan.Plan | cli/src/helpers/component-installer.ts:15-38 | the planned list extends the one passed in; an item already present leaves it unchanged; otherwise the item ends it |
| InstallPlan.PlanFacts | cli/src/helpers/component-installer.ts:20-35 | resolving keeps names distinct and followed dependencies first, and everything added before the item is a fetched item |
| InstallPlan.PlanDeps | cli/src/helpers/component-installer.ts:25-32 | the dependency loop only extends the list it is given |
| InstallPlan.DepStepFacts | cli/src/helpers/component-installer.ts:25-32 | one dependency of the loop keeps the plan well formed, and a followed dependency is then planned |
| InstallPlan.PlanDepsFacts | cli/src/helpers/component-installer.ts:25-32 | the whole dependency loop keeps the plan well formed and plans every followed dependency |
| InstallPlan.InstallOrder | cli/src/helpers/component-installer.ts:15-38 | from an empty list: no name twice, every followed dependency of every planned item before it, items as the registry serves them, the requested item last |
| InstallPlan.PlanIgnoresUrlSkip | cli/src/commands/add.ts:189-192 | when the registry serves no URL name, skipping URLs (add) and not skipping them (installer) plan the same list |
| InstallPlan.PlanDepsIgnoresUrlSkip | cli/src/commands/add.ts:189-192 | the same for the dependency loop |
| InstallPlan.UrlDependencyContrast | cli/src/helpers/component-installer.ts:26-31 | a registry that answers a URL name: the installer plans the remote item, the add command does not |
| InstallPlan.CycleUnranked | cli/src/helpers/component-installer.ts:15-38 | two registry items that depend on each other admit no rank, so no plan is modelled for a registry with such a cycle |
| InstallPlan.Dedup | cli/src/helpers/component-installer.ts:154-161 | what a `Set` filled in order holds: distinct, with exactly the members of the input |
| InstallPlan.DedupExtends | cli/src/helpers/component-installer.ts:154-161 | more input only appends to the set's order |
| InstallPlan.AllNpmMembers | cli/src/helpers/component-installer.ts:154-161 | a package is collected exactly when some planned item lists it |
| InstallPlan.NpmPackages | cli/src/helpers/component-installer.ts:154-161 | the nested loops produce the deduplicated packages of all planned items |
| InstallPlan.NpmPackagesUnion | cli/src/helpers/component-installer.ts:154-161 | the installed packages are exactly the npm dependencies of the planned items, once each |
| InstallPlan.TargetPath | cli/src/helpers/component-installer.ts:63-94 | a file always lands at the working directory itself or below it (`path.join` normalisation aside) |
| InstallPlan.ExplicitTarget | cli/src/helpers/component-installer.ts:65-68 | an explicit target wins, with exactly one leading `~/` removed |
| InstallPlan.MirrorFullPath | cli/src/helpers/component-installer.ts:75-78 | a `modules`, `layouts` or `shared` path lands under `src/` whole |
| InstallPlan.MirrorAlias | cli/src/helpers/component-installer.ts:79-94 | an alias `@/<dir>` puts the rest of the path under `src/<dir>` |
| InstallPlan.DefaultAliasShape | cli/src/utils/config.ts:38-44 | the default components, lib and composables aliases are `@/<dir>` |
| InstallPlan.DefaultLayoutMirrored | cli/src/helpers/component-installer.ts:65-94 | with the default aliases every registry directory is mirrored under `src/` |
| InstallPlan.FlatPathTargetsAliasDirectory | cli/src/helpers/component-installer.ts:79-94 | a registry path without a directory lands on the alias directory itself |
| ComponentInstaller.ResolveDependencies | cli/src/helpers/component-installer.ts:15-38 | the recursive resolver returns the installer's plan (URLs not skipped) |
| ComponentInstaller.InstallComponentFiles | cli/src/helpers/component-installer.ts:43-103 | the write loop writes each delivered file's rewritten content to its target, in order, skipping the rest |
| ComponentInstaller.FileWritesFacts | cli/src/helpers/component-installer.ts:52-102 | at most one write per file, each from a delivered file, and every file written in order when all are delivered |
| ComponentInstaller.WrittenContentRewritten | cli/src/helpers/component-installer.ts:61 | with `@/` aliases no written file holds a rewritten `@registry/` prefix |
| ComponentInstaller.AllWritesAreWrites | cli/src/helpers/component-installer.ts:172-174 | the file phase only writes files |
| ComponentInstaller.InstallRegistryComponent | cli/src/helpers/component-installer.ts:108-178 | an unknown component gives the shadcn-vue fallback or nothing; a known one gives the npm command for the union of the plan's packages, then the files of every planned item |
| ComponentInstaller.InstallAll | cli/src/helpers/component-installer.ts:172-174 | the closing loop writes the files of every planned item, item after item |
| ComponentInstaller.NpmBeforeFiles | cli/src/helpers/component-installer.ts:153-174 | the npm command comes first, and only when there is a package; every later action writes a file |
| ComponentInstaller.InstallCommand | cli/src/helpers/component-installer.ts:163-169 | no command exactly when there is no package; otherwise one command of the manager that ends with exactly the packages |
| ComponentInstaller.ShadcnCommand | cli/src/helpers/component-installer.ts:130-139 | `npx shadcn-vue@latest add <name> -y` for npm and `<manager> dlx shadcn-vue@latest add <name> -y` otherwise: the local-CLI path never applies to this package |
| AddCommand.ResolvedList.constructor | cli/src/commands/add.ts:121 | the shared list starts empty |
| AddCommand.ResolveDependencies | cli/src/commands/add.ts:177-205 | appending in place leaves the add command's plan (URLs skipped) in the shared list |
| AddCommand.ResumeStep | cli/src/commands/add.ts:207-297 | a loop stopped at the first error resumes correctly after each step |
| AddCommand.FilesOutcome | cli/src/commands/add.ts:216-290 | the file loop writes at most one action per file, and every file that existed still exists after it |
| AddCommand.InstallFiles | cli/src/commands/add.ts:207-297 | the file loop run in place is the specification's outcome: it stops at the first undelivered file with `Failed to fetch <path>`, asks before writing over an existing target without `--overwrite` and skips the file on a no |
| AddCommand.AbortsWhereInstallerSkips | cli/src/commands/add.ts:216-221 | when no overwrite prompt is answered no, add fails exactly when some file is undelivered, after writing what the installer writes for the files before it; without failure it writes what the installer writes |
| AddCommand.InstallAllFiles | cli/src/commands/add.ts:171-174 | the files of the planned items, item after item, up to the first error, each file seeing the targets written before it and consuming its own overwrite answer |
| AddCommand.AddWritesLikeInstaller | cli/src/commands/add.ts:171-174 | with every file delivered and no overwrite prompt answered no, add writes exactly what the installer writes |
| AddCommand.ShadcnFallbackDropsDlx | cli/src/commands/add.ts:88-106 | as written, pnpm and yarn start `<manager> shadcn-vue@latest add <name>`, with no `dlx` |
| AddCommand.ShadcnFallback | cli/src/commands/add.ts:88-106 | corrected: `npx shadcn-vue@latest add <name>` for npm, `<manager> dlx shadcn-vue@latest add <name>` otherwise |
| AddCommand.ShadcnFallbackRunsDlx | cli/src/commands/add.ts:88-106 | the corrected vector runs `dlx` for pnpm and yarn and agrees with the as-written one for npm |
| AddCommand.NpmStep | cli/src/commands/add.ts:146-169 | the npm step is the installer's add command, and nothing without packages |
| AddCommand.InstallComponent | cli/src/commands/add.ts:69-175 | one component: the as-written shadcn-vue fallback when unknown; without `--yes` one proceed answer, and nothing on a no; else npm then files |
| AddCommand.AddOutcomeAt | cli/src/commands/add.ts:56-66 | the add action over the names stops at the first error, the next name starting from the answers and files the previous one left |
| AddCommand.Add | cli/src/commands/add.ts:27-67 | the action installs each requested name in turn until an error, each with its own proceed and overwrite prompts |
| AddCommand.FileStep | cli/src/commands/add.ts:216-290 | one pass fails exactly when its file is undelivered and consumes at most one answer, from the front |
| AddCommand.FilesOutcomeErrors | cli/src/commands/add.ts:216-221 | whatever the answers, the file loop fails exactly when some file is undelivered, with the path of the first one |
| AddCommand.FilesOutcomeWritesInstalled | cli/src/commands/add.ts:285-289 | every write of the file loop is a write the installer makes for the same files |
| AddCommand.FilesOutcomeExisting | cli/src/commands/add.ts:268-289 | after the file loop exactly the files that existed plus the targets it wrote exist |
| AddCommand.FilesOutcomeAnswers | cli/src/commands/add.ts:268-280 | the file loop takes its answers from the front of the session, at most one per file |
| AddCommand.RepeatedTargetAsks | cli/src/commands/add.ts:268-283 | a target written earlier in the same run is asked about again: a file listed twice is written once, then again only on a yes |
| AddCommand.ConsentedStep | cli/src/commands/add.ts:268-289 | when no prompt says no, a delivered file is written and the remaining consent covers the files after it |
| AddCommand.AddWrites | cli/src/commands/add.ts:171-174 | every file that existed before the planned items are installed still exists after |
| AddCommand.ShadcnFallbackAsWritten | cli/src/commands/add.ts:88-106 | as written: npm starts `npx shadcn-vue@latest add <name>`, pnpm and yarn start the manager's name with `shadcn-vue@latest add <name>` |
| AddCommand.ComponentOutcome | cli/src/commands/add.ts:69-175 | an unknown name runs the as-written fallback only; without `--yes` a no at the proceed prompt installs nothing and uses up one answer; otherwise one npm action at most precedes the files' writes, whose error and final session are the component's |
| AddCommand.AddOutcome | cli/src/commands/add.ts:56-58 | the run over the names keeps every file that existed |
| AddCommand.AddMatchesInstaller | cli/src/commands/add.ts:69-175 | with `--yes`, for a known component whose files are all delivered, no URL-named registry entry and no overwrite prompt answered no, add does exactly what the installer does |
| I18nInjector.Upper | cli/src/helpers/i18n-injector.ts:71 | upper-casing a lower-case ASCII letter gives an upper-case letter |
| I18nInjector.CamelClean | cli/src/helpers/i18n-injector.ts:70-72 | the result never has `-` before a lower-case letter |
| I18nInjector.ToCamelCase | cli/src/helpers/i18n-injector.ts:70-72 | the result is never longer than the input, and a name without `-` is returned as is |
| I18nInjector.CamelIdentity | cli/src/helpers/i18n-injector.ts:70-72 | text with nothing to replace comes back unchanged |
| I18nInjector.CamelIdempotent | cli/src/helpers/i18n-injector.ts:70-72 | camel-casing twice is camel-casing once |
| I18nInjector.CamelDash | cli/src/helpers/i18n-injector.ts:70-72 | `-x` becomes `X`, as in `logs-management` to `logsManagement` |
| I18nInjector.CamelChars | cli/src/helpers/i18n-injector.ts:70-72 | a kebab-case module name yields identifier characters only |
| I18nInjector.ImportLinesShape | cli/src/helpers/i18n-injector.ts:75-80 | exactly two lines per module, En then Pl |
| I18nInjector.BuildImportLines | cli/src/helpers/i18n-injector.ts:75-80 | the push loop builds those lines |
| I18nInjector.Fragments | cli/src/helpers/i18n-injector.ts:95-101 | one `...<var><Lang>` fragment per module, in order |
| I18nInjector.BuildFragments | cli/src/helpers/i18n-injector.ts:95-101 | the push loop builds both fragment lists |
| I18nInjector.Missing | cli/src/helpers/i18n-injector.ts:85 | the filter keeps, in order, exactly the strings not already contained |
| I18nInjector.NoneMissing | cli/src/helpers/i18n-injector.ts:117-122 | when all are contained nothing is new |
| I18nInjector.ImportComplete | cli/src/helpers/i18n-injector.ts:83-92 | with the anchor present, every import line is in the text afterwards and the anchor stays |
| I18nInjector.ImportIdempotent | cli/src/helpers/i18n-injector.ts:83-92 | a second import stage with the same modules changes nothing |
| I18nInjector.ImportPlaced | cli/src/helpers/i18n-injector.ts:86-90 | the new lines go as one block right after the first anchor |
| I18nInjector.ImportUnchanged | cli/src/helpers/i18n-injector.ts:83-86 | without the anchor, without modules, or with all lines present, nothing changes |
| I18nInjector.RunLen | cli/src/helpers/i18n-injector.ts:106 | the `[^}]+` run ends at the first `}` |
| I18nInjector.FindDecl | cli/src/helpers/i18n-injector.ts:106-110 | the non-global `exec` finds the leftmost `const <lang> = {...}` match |
| I18nInjector.DeclEnd | cli/src/helpers/i18n-injector.ts:106-107 | the match ends right after its closing `}` |
| I18nInjector.Group | cli/src/helpers/i18n-injector.ts:106-107 | the captured group is non-empty and free of `}` |
| I18nInjector.InjectImports | cli/src/helpers/i18n-injector.ts:83-92 | the import step as it reassigns the text |
| I18nInjector.InjectMerges | cli/src/helpers/i18n-injector.ts:104-144 | the merge step as it reassigns the text, once per language |
| I18nInjector.MergeUnchanged | cli/src/helpers/i18n-injector.ts:104-112 | without the merges anchor or either declaration the merge stage changes nothing |
| I18nInjector.MergedHasAll | cli/src/helpers/i18n-injector.ts:124-141 | the updated list keeps the existing entries first and holds every fragment |
| I18nInjector.MergeSettles | cli/src/helpers/i18n-injector.ts:104-144 | after one run, both first declarations hold every fragment |
| I18nInjector.SettledFixed | cli/src/helpers/i18n-injector.ts:116-122 | text whose declarations hold every fragment is a fixed point of the merge stage |
| I18nInjector.MergeIdempotent | cli/src/helpers/i18n-injector.ts:104-144 | a second merge stage changes nothing when the declarations are separate and the fragments clean |
| I18nInjector.MergeIdempotentModules | cli/src/helpers/i18n-injector.ts:104-144 | the same for the fragments of registry module names |
| I18nInjector.InjectI18nModules | cli/src/helpers/i18n-injector.ts:56-147 | no write when the aggregator is missing; otherwise the text after the import and merge stages is written |
| I18nInjector.NoModulesUnchanged | cli/src/helpers/i18n-injector.ts:83-104 | an empty module list writes the text back unchanged |
| I18nInjector.InjectIdempotent | cli/src/helpers/i18n-injector.ts:56-147 | a second injection of the same modules changes nothing, given the imports anchor and separate declarations |
| RouterInjector.InjectRoutesAndGuards | cli/src/helpers/router-injector.ts:17-59 | the routes file is written back patched whenever it exists; the router index only when the trimmed guard block goes in |
| RouterInjector.CleanedInputs | cli/src/helpers/router-injector.ts:21-23 | empty import and spread strings are dropped and the guard block is trimmed |
| RouterInjector.InjectLinesPlaces | cli/src/helpers/router-injector.ts:29-41 | the lines go right after the first anchor; with no lines nothing changes |
| RouterInjector.NoAnchorNoChange | cli/src/helpers/router-injector.ts:29-41 | without the anchor nothing changes |
| RouterInjector.InjectedLinesPresent | cli/src/helpers/router-injector.ts:29-41 | each line is present afterwards, and the anchor too |
| RouterInjector.ImportsRepeat | cli/src/helpers/router-injector.ts:29-34 | with no duplicate check, a second import injection inserts the lines again |
| RouterInjector.GuardIdempotent | cli/src/helpers/router-injector.ts:47-58 | the guard injection is idempotent |
| RouterInjector.GuardPlaced | cli/src/helpers/router-injector.ts:52-55 | the block lands right after the first guards anchor |
| RouterInjector.AnchorsApart | cli/src/helpers/router-injector.ts:13-14 | the two routes anchors cannot overlap across one another's end |
| RouterInjector.AnchorsSurvive | cli/src/helpers/router-injector.ts:29-41 | both routes anchors survive the routes patch |
| RouterInjector.KeepsOther | cli/src/helpers/router-injector.ts:29-41 | injecting at one routes anchor keeps the other |
| RouterInjector.GuardsAnchorSurvives | cli/src/helpers/router-injector.ts:52-55 | the guards anchor survives its injection |
| ViteConfig.BracketLen | cli/src/helpers/vite-config.ts:20 | the `\s*\[` part of the plugins pattern: spaces then one `[` |
| ViteConfig.PluginsLen | cli/src/helpers/vite-config.ts:20 | the length of a plugins match |
| ViteConfig.FindPlugins | cli/src/helpers/vite-config.ts:19-22 | the leftmost plugins match |
| ViteConfig.PluginsCut | cli/src/helpers/vite-config.ts:19-22 | the plugin replace cuts at the first match and changes nothing without one |
| ViteConfig.AddTailwindToViteConfig | cli/src/helpers/vite-config.ts:7-26 | no write when `@tailwindcss/vite` is present; otherwise the patched text is written |
| ViteConfig.TailwindPresentUnchanged | cli/src/helpers/vite-config.ts:11 | a config that mentions `@tailwindcss/vite` is left alone |
| ViteConfig.TailwindPlaced | cli/src/helpers/vite-config.ts:13-22 | the import goes after the first vue import and `tailwindcss(),` after the first plugins match |
| ViteConfig.TailwindIdempotent | cli/src/helpers/vite-config.ts:11-22 | with the vue import present a second run changes nothing |
| ViteConfig.TailwindRepeats | cli/src/helpers/vite-config.ts:11-22 | without the vue import the marker never arrives, so a second run inserts the plugin again |
| ViteConfig.MarkerKept | cli/src/helpers/vite-config.ts:19-22 | the plugin step keeps the marker |
| ViteConfig.FindClosing | cli/src/helpers/vite-config.ts:37 | the leftmost closing `})` match |
| ViteConfig.AddProxyToViteConfig | cli/src/helpers/vite-config.ts:31-44 | no write when `server:` is present; otherwise the patched text is written |
| ViteConfig.ProxyPlaced | cli/src/helpers/vite-config.ts:35-41 | the proxy block lands just before the first closing match |
| ViteConfig.ProxyIdempotent | cli/src/helpers/vite-config.ts:35-41 | the block brings its own `server:`, so a second run changes nothing |
| RegistryList.FilterCategory | cli/src/commands/list.ts:26-30 | kept items are exactly those whose categories contain the option |
| RegistryList.FilterAppend | cli/src/commands/list.ts:26-30 | filtering works piece by piece, so order is kept |
| RegistryList.TypeOrderKeys | cli/src/commands/list.ts:33-40 | group keys are distinct and in first-seen order, and every item's key is among them |
| RegistryList.OfTypeMembers | cli/src/commands/list.ts:33-40 | an item is in a group exactly when its key, its type minus `registry:`, is that group's |
| RegistryList.OfTypeAppend | cli/src/commands/list.ts:33-40 | within a group items keep their relative order |
| RegistryList.GroupsPartition | cli/src/commands/list.ts:33-56 | the group sizes add up to the number of items |
| RegistryList.GroupByType | cli/src/commands/list.ts:33-40 | the grouping loop builds the keys in first-seen order and each group's items |
| RegistryList.List | cli/src/commands/list.ts:14-58 | a missing registry or item list stops; otherwise the listing is grouped and the total is the number of kept items |
| RegistryList.ListingTotals | cli/src/commands/list.ts:58 | the total is the sum of the shown group sizes, and a category keeps exactly its items |
| MockHelpers.Btoa | registry/shared/utils/mockHelpers.ts:22 | `btoa` succeeds exactly on Latin-1 text, with padded length |
| MockHelpers.EncodeIsBase64Url | registry/shared/utils/mockHelpers.ts:21-26 | `base64UrlEncode` is unpadded base64url (RFC 4648, section 5) and fails exactly where `btoa` throws |
| MockHelpers.Base64UrlAlphabet | registry/shared/utils/mockHelpers.ts:21-26 | the output has no `+`, `/`, `=` or `.` |
| MockHelpers.Base64UrlRoundTrip | registry/shared/utils/mockHelpers.ts:21-26 | decoding the encoding gives the text back |
| MockHelpers.DecodeEncode | registry/shared/utils/mockHelpers.ts:21-26 | one group's sextets decode to the group |
| MockHelpers.Join6Split6 | registry/shared/utils/mockHelpers.ts:21-26 | the sextets of bytes join back to the bytes |
| MockHelpers.UserId | registry/shared/utils/mockHelpers.ts:30 | `usr_` followed by the email text before the first `@` |
| MockHelpers.MockPayload | registry/shared/utils/mockHelpers.ts:29-44 | the payload keeps every option field and adds `sub`, `iat` in whole seconds and `exp` one hour later |
| MockHelpers.ToBase36 | registry/shared/utils/mockHelpers.ts:53 | `toString(36)` gives non-empty ASCII |
| MockHelpers.Base36RoundTrip | registry/shared/utils/mockHelpers.ts:53 | the digits read back give the number |
| MockHelpers.GeneratedToken | registry/shared/utils/mockHelpers.ts:28-58 | the token is three unpadded base64url segments joined by dots, or a throw when the payload or random text is not Latin-1 |
| MockHelpers.MockJwtShape | registry/shared/utils/mockHelpers.ts:33-57 | exactly three segments: the header `{"alg":"none","typ":"JWT"}`, the payload, and a non-empty third |
| MockHelpers.CreateHttpError | registry/shared/utils/mockHelpers.ts:60-71 | an Error with the message and a response holding the status and the body |
| MockHelpers.HttpErrorClassified | registry/shared/utils/mockHelpers.ts:60-71 | such an error is an auth error exactly for 401 and 403 and a client error exactly for 400 to 499 |
| TenantJwt.ParseMockToken | registry/features/tenantFeat/lib/jwtDecoder.ts:15-42 | an empty email piece throws `Invalid mock token format`; otherwise email, `sub`, `iat` from the first clock reading and `exp` one hour after the second (so `exp >= iat + 3600` when the clock does not go back, and at most a second more when the readings are under a second apart), and tenant id and role exactly when there are four or more pieces |
| TenantJwt.DecoderChoice | registry/features/tenantFeat/lib/jwtDecoder.ts:48-61 | mock tokens never reach the library; others throw `Invalid JWT token` exactly when the library fails |
| TenantJwt.TenantClaims | registry/features/tenantFeat/lib/jwtDecoder.ts:66-92 | a failure reads as no tenant; `hasTenantContext` holds exactly when a payload carries a tenant id |
| TenantJwt.MockTenantToken | registry/features/tenantFeat/lib/jwtDecoder.ts:23-32 | a four-piece token gives back its email, tenant id and role |
| TenantJwt.TwoPieceNoTenant | registry/features/tenantFeat/lib/jwtDecoder.ts:27-32 | a `mock_jwt_<email>_<timestamp>` token carries no tenant context |
| TenantJwt.EmptyEmailRejected | registry/features/tenantFeat/lib/jwtDecoder.ts:17-21 | an empty email piece throws and gives no tenant context |
| TenantJwt.SameSubject | registry/features/tenantFeat/lib/jwtDecoder.ts:34-41 | a mock token and the mock JWT for the same email carry the same `sub` |
| TwoFactorJwt.GetTwoFactorStatusFromToken | registry/modules/auth/lib/jwtDecoder.ts:29-40 | an undecodable token gives the empty status |
| TwoFactorJwt.GetTwoFactorMethod | registry/modules/auth/lib/jwtDecoder.ts:69-76 | the method claim, with absent and null both read as null |
| TwoFactorJwt.NeutralOnFailure | registry/modules/auth/lib/jwtDecoder.ts:29-76 | every helper gives its neutral answer for an undecodable token |
| TwoFactorJwt.HelpersAgreeWithStatus | registry/modules/auth/lib/jwtDecoder.ts:45-64 | pending and verified hold only for the value `true` itself, as in the status |
| TwoFactorJwt.RequiresVerificationIff | registry/modules/auth/lib/jwtDecoder.ts:81-83 | verification is required exactly for a decodable token that is pending and not verified |
| TwoFactorGuard.TwoFactorGuard | registry/modules/auth/guards/twoFactorGuard.ts:23-61 | the guard proceeds, redirects to verification with `redirectTo`, or redirects to the dashboard |
| TwoFactorGuard.TwoFactorDecisions | registry/modules/auth/guards/twoFactorGuard.ts:23-61 | no token or the setup page passes; with verification pending only the verification page passes and others go there; otherwise only the verification page is sent to the dashboard |
| TwoFactorGuard.RedirectSettles | registry/modules/auth/guards/twoFactorGuard.ts:36-61 | navigating to a redirect target is let through |
| TwoFactorGuard.UndecodableToken | registry/modules/auth/guards/twoFactorGuard.ts:55-61 | an undecodable token is only turned away from the verification page |
| TenantGuard.TenantGuard | registry/features/tenantFeat/guards/tenantGuard.ts:16-36 | the guard proceeds or redirects to tenant selection with `redirectTo` |
| TenantGuard.TenantDecisions | registry/features/tenantFeat/guards/tenantGuard.ts:16-36 | a route needing no tenant passes without reading the store; one that needs a tenant passes exactly with a non-empty tenant id and is otherwise redirected |
| TenantGuard.RequirementFromRecords | registry/features/tenantFeat/guards/tenantGuard.ts:16-19 | any matched record requiring a tenant makes the route require one |
| AuthGuard.AuthDecision | registry/modules/auth/guards/authGuard.ts:43-52 | the guard proceeds, goes to login with `redirectTo`, or goes to the dashboard |
| AuthGuard.AuthDecisions | registry/modules/auth/guards/authGuard.ts:43-52 | login exactly for an auth route when unauthenticated; dashboard exactly for a guest route when authenticated; else proceed |
| AuthGuard.AuthGuard | registry/modules/auth/guards/authGuard.ts:14-53 | a token without a user fetches one: success authenticates, failure logs out; the decision follows the resulting state |
| AuthStore.AuthStore.constructor | registry/modules/auth/store/useAuthStore.ts:8-9 | no user, and the token that storage holds |
| AuthStore.AuthStore.SetToken | registry/modules/auth/store/useAuthStore.ts:13-20 | the token is set; a non-empty one is stored, anything else removes the entry |
| AuthStore.AuthStore.SetUser | registry/modules/auth/store/useAuthStore.ts:22-24 | only the user changes |
| AuthStore.AuthStore.Logout | registry/modules/auth/store/useAuthStore.ts:26-29 | no token, no user, no stored entry, not authenticated |
| LocaleConfig.LowerAscii | registry/shared/i18n/config/i18n.ts:26 | lower-casing keeps the length |
| LocaleConfig.LanguageCodeOfTag | registry/shared/i18n/config/i18n.ts:26 | the code is the lower-cased text before the first `-` |
| LocaleConfig.GetPreferredLocale | registry/shared/i18n/config/i18n.ts:23-34 | any answer is a supported locale |
| LocaleConfig.PreferredIsFirstMatch | registry/shared/i18n/config/i18n.ts:23-34 | the answer is the code of the first supported entry, and none exactly when no entry is supported |
| LocaleConfig.GetStoredLocale | registry/shared/i18n/config/i18n.ts:39-55 | the answer is supported or the configured default |
| LocaleConfig.StoredLocalePrecedence | registry/shared/i18n/config/i18n.ts:39-55 | a supported stored value wins; then the browser's list, or its single language when the list is empty; then the default |
| QueryUtils.IsAuthError | registry/features/tenantFeat/utils/queryUtils.ts:18-23 | null throws; otherwise true exactly for status 401 or 403 |
| QueryUtils.IsClientError | registry/features/tenantFeat/utils/queryUtils.ts:28-35 | null throws; otherwise true exactly for a defined status in [400, 500) |
| QueryUtils.VariantsAgree | registry/modules/auth/utils/queryUtils.ts:16-27 | the optional-chaining spelling agrees with the cast spelling except that it returns false on null |
| QueryUtils.AuthErrorsAreClientErrors | registry/modules/auth/utils/queryUtils.ts:16-27 | every auth error is a client error |
| QueryUtils.RetryBounded | registry/features/tenantFeat/utils/queryUtils.ts:40-63 | no retry once `maxAttempts` failures are counted; before that, retry exactly when the error does not stop it |
| QueryUtils.DefaultRetriesTwice | registry/features/tenantFeat/utils/queryUtils.ts:68-73 | with the default of two a server error is retried twice |
| QueryUtils.TenantKeys | registry/features/tenantFeat/utils/queryUtils.ts:7-13 | every tenant key extends `["tenant"]`; detail and membership keys end with and are determined by their id; keys from different builders never coincide: `all` has one part, `list` and `current` have two and differ, and `detail` and `membership` have three and differ |
| QueryUtils.ModuleKeys | registry/modules/user/utils/queryUtils.ts:7-11 | the user, settings, auth and logs keys extend their module's key and are distinct; logs without filters is `["logs", {}]` |

## Left out

- File-system access, network fetches and process launches (`fs`, `fetch`, `execa`) are not modelled. Fetches become partial maps, writes and launches become returned actions.
- Spinners, logging and display formatting are not modelled. The confirm prompts of the add command read their answers, in the order they are asked, from a session; a prompt with no answer left counts as cancelled, which the command treats as a no. The files that exist when the run starts are a parameter, and the run adds each target it writes. The text prompt for a component name is not modelled (next line).
- The add action's prompt for an empty name list (cli/src/commands/add.ts:40-53) and its exit when no config exists are not modelled.
- Failures of `execa` and `fs` are not modelled, because effects never fail in the model; the fetch helpers already turn their own failures into a missing entry (cli/src/utils/registry.ts:16-18, 48-50). In the source such a failure makes `installRegistryComponent` warn with a manual-install hint (`npx` or `<pm> dlx vue-blocks-registry add <name>`) and return false (cli/src/helpers/component-installer.ts:179-186), and makes the add command's shadcn-vue fallback log a hint and go on with the next name (cli/src/commands/add.ts:111-115). The other catches of the add command log and rethrow (cli/src/commands/add.ts:165-167, 294-296) or log and exit (cli/src/commands/add.ts:63-65); the model's error outcome stands for these, which is how a file that failed to fetch ends the run.
- `String.replace` replacement patterns are not modelled in general: replacements are literal. The one back-reference, `$1$2` in cli/src/helpers/vite-config.ts:37-40, is modelled by its effect, which keeps the match after the inserted block. Aliases containing `$` are not modelled.
- `path.join` is modelled as joining with `/`, without normalising `..` or duplicate separators.
- InstallPlan.Plan: the planners need a rank map that strictly decreases along followed dependencies. The source recurses without end on a cycle (`InstallPlan.CycleUnranked`: two items that depend on each other admit no such rank), so the model covers acyclic registries only; a cycle-safe resolver is not modelled.
- `JSON.stringify`, `jwtDecode`, `Date.now` and `Math.random` are parameters. The two `Date.now` readings of `generateMockJWT`, and the two of the tenant mock-token parser, are separate parameters.
- `toLowerCase` is modelled on ASCII letters only.
- Vue and Pinia reactivity are not modelled. The store is a plain object.
- Environment values are parameters: the local-CLI path (unset is `""`), the default locale and the proxy target. The storage key is fixed at `"my-app:token"`.
- `delay` and `getCurrentUserEmailFromMockJWT` in registry/shared/utils/mockHelpers.ts are not modelled. The first is a timer; the second is a storage read plus the tenant decoder.
- The route configuration files are not part of this model. The guards read route records and names as parameters. authGuard uses the route names `Login` and `Dashboard`.
- DependencyResolver.Resolver.Resolve: the order of `npmPackages` (first-seen, pre-order) is not stated, only that they are the duplicate-free union over the installed items.
- Transformers.ValidateFindsImports states soundness only. Completeness for the empty case is ValidateEmptyIff.
- Transformers.NoLeftoverPrefixes is proved only for aliases of the `@/...` form with no other `@`. A non-empty alias free of `@registry/` is not enough: Transformers.AliasCanRebuildPrefix exhibits one that rebuilds a prefix.
- Transformers.TransformIdempotent carries the same `@/...` alias hypothesis, for the same reason.
- Transformers.LeftoversAfterTransform carries the same `@/...` alias hypothesis, for the same reason.
- I18nInjector.InjectIdempotent is proved under these hypotheses:
  - the aggregator holds the imports anchor;
  - the module names are kebab case;
  - the `const en`/`const pl` declarations are separate.
  Without them the regular expressions can match inside text the first run inserted.
- TwoFactorJwt.GetTwoFactorStatusFromToken: the empty status `{}` and a status object with every key undefined are the same value in the model.
- TenantJwt.ParseMockToken splits on every `_`. An email containing `_` is therefore misread, for example as email `a` with tenant `b` and role `c@x.io`. The model keeps this behaviour, and its lemmas assume `_`-free pieces.
- InstallPlan.FlatPathTargetsAliasDirectory records behaviour, not a proved intent: a registry path with no directory targets the alias directory itself.

## Findings

| source | as written | input that shows it | evidently intended | confidence | as-written member | corrected member |
|---|---|---|---|---|---|---|
| cli/src/commands/add.ts:88-106 | for pnpm and yarn the shadcn-vue fallback builds `["dlx","shadcn-vue@latest","add",name]` but runs the manager with the vector's tail, starting `<manager> shadcn-vue@latest add <name>` without `dlx` | any pnpm or yarn project and a component name the registry does not have | `<manager> dlx shadcn-vue@latest add <name>` | not executed | AddCommand.ShadcnFallbackAsWritten, with AddCommand.ShadcnFallbackDropsDlx | AddCommand.ShadcnFallback, with AddCommand.ShadcnFallbackRunsDlx |
