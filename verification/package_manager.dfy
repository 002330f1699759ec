/** cli/src/utils/package-manager.ts: lock-file detection and the command
    vectors handed to the process runner. File existence and the
    environment variable become parameters; running a command is left to
    the caller, which receives the vector. */
module PackageManagers {
  datatype PmName = Npm | Pnpm | Yarn

  /** A package manager's name and its command words. */
  datatype PackageManagerInfo = PackageManagerInfo(
    name: PmName,
    command: string,
    addCommand: seq<string>,
    installCommand: seq<string>)

  /** A process to start: the program and its argument vector. */
  datatype Command = Command(program: string, args: seq<string>)

  function NameText(n: PmName): string {
    match n
    case Npm => "npm"
    case Pnpm => "pnpm"
    case Yarn => "yarn"
  }

  /** The command is the manager's own name, `install` is the install
      verb of all three, and only npm adds with `install`. */
  predicate WellFormed(pm: PackageManagerInfo) {
    pm.command == NameText(pm.name) && pm.installCommand == ["install"] &&
    pm.addCommand == (if pm.name == Npm then ["install"] else ["add"])
  }

  /** The manager whose lock file is present, checked in the order
      pnpm-lock.yaml, yarn.lock, package-lock.json; pnpm when none is.
      `present` is the set of file names that exist in the project. */
  function DetectPackageManager(present: set<string>): (pm: PackageManagerInfo)
    ensures WellFormed(pm)
    ensures "pnpm-lock.yaml" in present ==> pm.name == Pnpm
    ensures "pnpm-lock.yaml" !in present && "yarn.lock" in present ==> pm.name == Yarn
    ensures "pnpm-lock.yaml" !in present && "yarn.lock" !in present && "package-lock.json" in present
            ==> pm.name == Npm
    ensures "pnpm-lock.yaml" !in present && "yarn.lock" !in present && "package-lock.json" !in present
            ==> pm.name == Pnpm
  {
    if "pnpm-lock.yaml" in present then
      PackageManagerInfo(Pnpm, "pnpm", ["add"], ["install"])
    else if "yarn.lock" in present then
      PackageManagerInfo(Yarn, "yarn", ["add"], ["install"])
    else if "package-lock.json" in present then
      PackageManagerInfo(Npm, "npm", ["install"], ["install"])
    else
      PackageManagerInfo(Pnpm, "pnpm", ["add"], ["install"])
  }

  /** npm is chosen only from its own lock file, alone among the three. */
  lemma NpmOnlyFromItsLockFile(present: set<string>)
    ensures DetectPackageManager(present).name == Npm <==>
      "package-lock.json" in present && "pnpm-lock.yaml" !in present && "yarn.lock" !in present
  {
  }

  /** The dev-dependency flag of a manager. */
  function DevFlag(pm: PackageManagerInfo): string {
    if pm.name == Npm then "--save-dev" else "-D"
  }

  /** `[command, ...addCommand]`, the dev flag pushed when asked for, then
      the dependencies in the given order. */
  method GetAddCommand(pm: PackageManagerInfo, dependencies: seq<string>, isDev: bool)
    returns (argv: seq<string>)
    ensures argv == [pm.command] + pm.addCommand + (if isDev then [DevFlag(pm)] else []) + dependencies
    ensures argv[0] == pm.command && argv[|argv| - |dependencies|..] == dependencies
  {
    var baseCommand := [pm.command] + pm.addCommand;
    if isDev {
      if pm.name == Npm {
        baseCommand := baseCommand + ["--save-dev"];
      } else {
        baseCommand := baseCommand + ["-D"];
      }
    }
    argv := baseCommand + dependencies;
  }

  /** For a detected manager: npm installs with `npm install [--save-dev]`,
      pnpm and yarn with `<name> add [-D]`. */
  lemma AddCommandShapes(pm: PackageManagerInfo, deps: seq<string>, isDev: bool)
    requires WellFormed(pm)
    ensures var argv := [pm.command] + pm.addCommand + (if isDev then [DevFlag(pm)] else []) + deps;
      argv[..2] == [NameText(pm.name), if pm.name == Npm then "install" else "add"] &&
      (isDev ==> argv[2] == (if pm.name == Npm then "--save-dev" else "-D")) &&
      |argv| == 2 + (if isDev then 1 else 0) + |deps|
  {
  }

  /** Which process runs a package: the local CLI for this project's own
      package when a local CLI path is set (the empty string stands for an
      unset variable), `npx` for npm, `<manager> dlx` otherwise. */
  function DlxCommand(pm: PackageManagerInfo, packageName: string, args: seq<string>,
                      localCliPath: string): (c: Command)
    ensures localCliPath != "" && packageName == "vue-blocks-registry" ==>
      c == Command("node", [localCliPath] + args)
    ensures !(localCliPath != "" && packageName == "vue-blocks-registry") && pm.name == Npm ==>
      c == Command("npx", [packageName] + args)
    ensures !(localCliPath != "" && packageName == "vue-blocks-registry") && pm.name != Npm ==>
      c == Command(pm.command, ["dlx", packageName] + args)
  {
    if localCliPath != "" && packageName == "vue-blocks-registry" then
      Command("node", [localCliPath] + args)
    else if pm.name == Npm then
      Command("npx", [packageName] + args)
    else
      Command(pm.command, ["dlx", packageName] + args)
  }

  /** Whatever the branch, the arguments are passed through unchanged at
      the end, and every branch but the local one names the package right
      before them. */
  lemma DlxPassesArguments(pm: PackageManagerInfo, packageName: string, args: seq<string>,
                           localCliPath: string)
    ensures var c := DlxCommand(pm, packageName, args, localCliPath);
      |c.args| >= |args| + 1 && c.args[|c.args| - |args|..] == args &&
      (!(localCliPath != "" && packageName == "vue-blocks-registry") ==>
         c.args[|c.args| - |args| - 1] == packageName)
  {
  }
}
