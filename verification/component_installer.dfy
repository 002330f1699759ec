/** cli/src/helpers/component-installer.ts: installing a registry component
    with its registry dependencies, npm packages and files, or handing the
    name to shadcn-vue when the registry lacks it. The registry is a pair of
    partial maps (items by name, file contents by path), the package manager
    is chosen from the set of lock files present, and the effects come back
    as a list of actions in the order they happen. */
module ComponentInstaller {
  import opened Wrappers
  import opened Text
  import opened CliConfig
  import opened PackageManagers
  import opened InstallPlan
  import Transformers

  /** `resolveDependencies(item, resolved)`: the caller's list is passed in
      and the extended list handed back. */
  method ResolveDependencies(fetch: Fetch, ghost rank: map<string, nat>, item: Item, ghost bound: nat,
                             resolved: seq<Item>) returns (r: seq<Item>)
    requires Ranked(fetch, rank, false) && Below(fetch, rank, false, RegistryDeps(item), bound)
    ensures r == Plan(fetch, rank, false, item, bound, resolved)
    decreases bound, 1
  {
    if HasName(resolved, item.name) {
      return resolved;
    }
    r := resolved;
    var deps := RegistryDeps(item);
    var i := 0;
    while i < |deps|
      invariant 0 <= i <= |deps|
      invariant PlanDeps(fetch, rank, false, deps[i..], bound, r) == PlanDeps(fetch, rank, false, deps, bound, resolved)
    {
      var depName := deps[i];
      PlanDepsAt(fetch, rank, false, deps, i, bound, r);
      if depName in fetch {
        var depItem := fetch[depName];
        r := ResolveDependencies(fetch, rank, depItem, rank[depName], r);
      }
      i := i + 1;
    }
    r := r + [item];
  }

  /** A file is written when the registry returns non-empty content for it. */
  predicate Delivered(f: FileEntry, contents: map<string, string>) {
    f.path in contents && contents[f.path] != ""
  }

  /** The write of one delivered file: its transformed content at its target. */
  function WriteOf(f: FileEntry, contents: map<string, string>, cwd: string, aliases: Aliases): Action
    requires Delivered(f, contents)
  {
    Write(TargetPath(cwd, f, aliases), Transformers.TransformImports(contents[f.path], aliases))
  }

  /** The writes of `installComponentFiles`: the delivered files in order,
      the others skipped. `contents` is `fetchFileContent` as a partial map. */
  function FileWrites(files: seq<FileEntry>, contents: map<string, string>, cwd: string,
                      aliases: Aliases): seq<Action>
  {
    if |files| == 0 then []
    else
      var rest := FileWrites(files[1..], contents, cwd, aliases);
      if Delivered(files[0], contents) then [WriteOf(files[0], contents, cwd, aliases)] + rest else rest
  }

  method InstallComponentFiles(item: Item, cwd: string, aliases: Aliases, contents: map<string, string>)
    returns (writes: seq<Action>)
    ensures writes == FileWrites(item.files, contents, cwd, aliases)
  {
    writes := [];
    if |item.files| == 0 {
      return;
    }
    var i := 0;
    while i < |item.files|
      invariant 0 <= i <= |item.files|
      invariant writes + FileWrites(item.files[i..], contents, cwd, aliases) ==
                FileWrites(item.files, contents, cwd, aliases)
    {
      var file := item.files[i];
      assert item.files[i..][1..] == item.files[i + 1..];
      if file.path in contents && contents[file.path] != "" {
        var transformedContent := Transformers.TransformImports(contents[file.path], aliases);
        var targetPath := TargetPath(cwd, file, aliases);
        writes := writes + [Write(targetPath, transformedContent)];
      }
      i := i + 1;
    }
  }

  /** Every write comes from a delivered file, at most one per file, and
      when every file is delivered each is written, in order. */
  lemma {:induction false} FileWritesFacts(files: seq<FileEntry>, contents: map<string, string>,
                                           cwd: string, aliases: Aliases)
    ensures var w := FileWrites(files, contents, cwd, aliases);
      |w| <= |files| &&
      (forall a :: a in w ==> exists f :: f in files && Delivered(f, contents) && a == WriteOf(f, contents, cwd, aliases)) &&
      ((forall i :: 0 <= i < |files| ==> Delivered(files[i], contents)) ==>
         |w| == |files| && forall i :: 0 <= i < |files| ==> w[i] == WriteOf(files[i], contents, cwd, aliases))
  {
    if |files| > 0 {
      FileWritesFacts(files[1..], contents, cwd, aliases);
      var w := FileWrites(files, contents, cwd, aliases);
      var rest := FileWrites(files[1..], contents, cwd, aliases);
      forall a | a in rest
        ensures exists f :: f in files && Delivered(f, contents) && a == WriteOf(f, contents, cwd, aliases)
      {
        var f :| f in files[1..] && Delivered(f, contents) && a == WriteOf(f, contents, cwd, aliases);
        assert f in files;
      }
      if forall i :: 0 <= i < |files| ==> Delivered(files[i], contents) {
        assert forall i :: 0 <= i < |files| - 1 ==> Delivered(files[1..][i], contents);
      }
    }
  }

  /** With aliases of the `@/...` form, no written file holds any of the
      rewritten `@registry/...` prefixes. */
  lemma WrittenContentRewritten(files: seq<FileEntry>, contents: map<string, string>, cwd: string,
                                aliases: Aliases, a: Action)
    requires Transformers.AliasLike(aliases.components) && Transformers.AliasLike(aliases.lib)
    requires a in FileWrites(files, contents, cwd, aliases)
    ensures a.Write? && !Contains(a.content, Transformers.Components) && !Contains(a.content, Transformers.Lib) &&
            !Contains(a.content, Transformers.Modules) && !Contains(a.content, Transformers.Shared)
  {
    FileWritesFacts(files, contents, cwd, aliases);
    var f :| f in files && Delivered(f, contents) && a == WriteOf(f, contents, cwd, aliases);
    Transformers.NoLeftoverPrefixes(contents[f.path], aliases);
  }

  /** The writes for the planned items, item after item. */
  function AllWrites(items: seq<Item>, contents: map<string, string>, cwd: string, aliases: Aliases): seq<Action> {
    if |items| == 0 then []
    else FileWrites(items[0].files, contents, cwd, aliases) + AllWrites(items[1..], contents, cwd, aliases)
  }

  lemma {:induction false} AllWritesAreWrites(items: seq<Item>, contents: map<string, string>, cwd: string,
                                              aliases: Aliases)
    ensures forall a :: a in AllWrites(items, contents, cwd, aliases) ==> a.Write?
  {
    if |items| > 0 {
      AllWritesAreWrites(items[1..], contents, cwd, aliases);
      FileWritesFacts(items[0].files, contents, cwd, aliases);
    }
  }

  /** The npm step: one add command with every package, or nothing when
      there is no package. */
  function InstallCommand(pm: PackageManagerInfo, pkgs: seq<string>): (r: seq<Action>)
    ensures r == [] <==> |pkgs| == 0
    ensures |r| <= 1
    ensures forall a :: a in r ==>
      a.Run? && a.cmd.program == pm.command && |pkgs| <= |a.cmd.args| && a.cmd.args[|a.cmd.args| - |pkgs|..] == pkgs
  {
    if |pkgs| == 0 then [] else [Run(Command(pm.command, pm.addCommand + pkgs))]
  }

  /** The shadcn-vue fallback: `shadcn-vue@latest add <name> -y` run
      through executeDlx. */
  function ShadcnCommand(pm: PackageManagerInfo, name: string, localCliPath: string): (c: Command)
    ensures pm.name == Npm ==> c == Command("npx", ["shadcn-vue@latest", "add", name, "-y"])
    ensures pm.name != Npm ==> c == Command(pm.command, ["dlx", "shadcn-vue@latest", "add", name, "-y"])
  {
    assert "shadcn-vue@latest"[0] != "vue-blocks-registry"[0];
    DlxCommand(pm, "shadcn-vue@latest", ["add", name, "-y"], localCliPath)
  }

  /** `installRegistryComponent`: `present` is the set of lock files in
      cwd and `localCliPath` the local-CLI variable ("" when unset); the
      result says whether the component counts as installed. */
  method InstallRegistryComponent(componentName: string, fetch: Fetch, ghost rank: map<string, nat>,
                                  contents: map<string, string>, present: set<string>, cwd: string,
                                  aliases: Aliases, fallbackToShadcn: bool, localCliPath: string)
    returns (actions: seq<Action>, installed: bool)
    requires Ranked(fetch, rank, false)
    ensures componentName !in fetch ==>
      installed == fallbackToShadcn &&
      actions == (if fallbackToShadcn then [Run(ShadcnCommand(DetectPackageManager(present), componentName, localCliPath))] else [])
    ensures componentName in fetch ==>
      installed &&
      var plan := Plan(fetch, rank, false, fetch[componentName], rank[componentName], []);
      actions == InstallCommand(DetectPackageManager(present), Dedup(AllNpm(plan))) + AllWrites(plan, contents, cwd, aliases)
  {
    if componentName !in fetch {
      if fallbackToShadcn {
        var packageManager := DetectPackageManager(present);
        actions := [Run(ShadcnCommand(packageManager, componentName, localCliPath))];
        installed := true;
      } else {
        actions := [];
        installed := false;
      }
      return;
    }
    var item := fetch[componentName];
    var allDeps := ResolveDependencies(fetch, rank, item, rank[componentName], []);
    var allNpmDeps := NpmPackages(allDeps);
    actions := [];
    if |allNpmDeps| > 0 {
      var packageManager := DetectPackageManager(present);
      actions := [Run(Command(packageManager.command, packageManager.addCommand + allNpmDeps))];
    }
    var writes := InstallAll(allDeps, cwd, aliases, contents);
    actions := actions + writes;
    installed := true;
  }

  /** The closing loop of `installRegistryComponent`: the files of every
      planned item, item after item. */
  method InstallAll(allDeps: seq<Item>, cwd: string, aliases: Aliases, contents: map<string, string>)
    returns (writes: seq<Action>)
    ensures writes == AllWrites(allDeps, contents, cwd, aliases)
  {
    writes := [];
    var i := 0;
    while i < |allDeps|
      invariant 0 <= i <= |allDeps|
      invariant writes + AllWrites(allDeps[i..], contents, cwd, aliases) == AllWrites(allDeps, contents, cwd, aliases)
    {
      assert allDeps[i..][1..] == allDeps[i + 1..];
      var w := InstallComponentFiles(allDeps[i], cwd, aliases, contents);
      writes := writes + w;
      i := i + 1;
    }
  }

  /** In a successful installation the npm command, when there is one, is
      the first action and every later action writes a file. */
  lemma NpmBeforeFiles(pm: PackageManagerInfo, plan: seq<Item>, contents: map<string, string>, cwd: string,
                       aliases: Aliases)
    ensures var actions := InstallCommand(pm, Dedup(AllNpm(plan))) + AllWrites(plan, contents, cwd, aliases);
      (forall i :: 0 < i < |actions| ==> actions[i].Write?) &&
      (|actions| > 0 && actions[0].Run? <==> |Dedup(AllNpm(plan))| > 0)
  {
    AllWritesAreWrites(plan, contents, cwd, aliases);
    var ws := AllWrites(plan, contents, cwd, aliases);
    var actions := InstallCommand(pm, Dedup(AllNpm(plan))) + ws;
    if |Dedup(AllNpm(plan))| == 0 {
      assert actions == ws;
      if |ws| > 0 {
        assert ws[0] in ws;
      }
    }
    forall i | 0 < i < |actions| ensures actions[i].Write? {
      assert actions[i] in ws;
    }
  }
}
