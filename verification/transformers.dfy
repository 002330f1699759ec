/** cli/src/utils/transformers.ts: rewriting `@registry/...` import paths
    into the project's aliases, and scanning for the ones left over. */
module Transformers {
  import opened Text
  import opened CliConfig

  const Modules := "@registry/modules"
  const Layouts := "@registry/app/layouts"
  const Components := "@registry/components"
  const Lib := "@registry/lib"
  const SharedUtils := "@registry/shared/utils"
  const Shared := "@registry/shared"
  const RegistryRoot := "@registry/"

  /** The six rewrites in their fixed order, each replacing every
      occurrence. A falsy components or lib alias skips its step; the
      shared/utils step falls back to `@/lib`. */
  function TransformImports(content: string, aliases: Aliases): string {
    var t1 := ReplaceAll(content, Modules, "@/modules");
    var t2 := ReplaceAll(t1, Layouts, "@/layouts");
    var t3 := if aliases.components != "" then ReplaceAll(t2, Components, aliases.components) else t2;
    var t4 := if aliases.lib != "" then ReplaceAll(t3, Lib, aliases.lib) else t3;
    var t5 := ReplaceAll(t4, SharedUtils, if aliases.lib != "" then aliases.lib else "@/lib");
    ReplaceAll(t5, Shared, "@/shared")
  }

  // ---------------------------------------------------------------------
  // Shapes of patterns and replacements

  predicate AtFree(u: string) {
    forall k :: 0 <= k < |u| ==> u[k] != '@'
  }

  /** A pattern that starts with '@', holds no other '@', and whose second
      character is not '/': every `@registry/...` pattern is one. */
  predicate Anchored(p: string) {
    |p| >= 2 && p[0] == '@' && p[1] != '/' && forall k :: 1 <= k < |p| ==> p[k] != '@'
  }

  /** An alias of the `@/...` form with no other '@'. */
  predicate AliasLike(r: string) {
    |r| >= 2 && r[0] == '@' && r[1] == '/' && forall k :: 1 <= k < |r| ==> r[k] != '@'
  }

  lemma PatternsAnchored()
    ensures Anchored(Modules) && Anchored(Layouts) && Anchored(Components)
    ensures Anchored(Lib) && Anchored(SharedUtils) && Anchored(Shared)
    ensures AliasLike("@/modules") && AliasLike("@/layouts") && AliasLike("@/lib")
    ensures AliasLike("@/shared")
  {
  }

  /** Text without '@' holds no match of an '@'-headed pattern. */
  lemma {:induction false} AtFreeUnchanged(u: string, q: string, r: string)
    requires |q| > 0 && q[0] == '@' && AtFree(u)
    ensures ReplaceAll(u, q, r) == u
    decreases |u|
  {
    if |u| > 0 {
      assert !StartsWith(u, q) by {
        if |q| <= |u| {
          assert u[..|q|][0] == u[0];
        }
      }
      AtFreeUnchanged(u[1..], q, r);
      assert [u[0]] + u[1..] == u;
    }
  }

  /** Up to the first '@' of the output, the replacement only copied. */
  lemma {:induction false} CopiedPrefix(s: string, q: string, r: string, m: nat)
    requires |q| > 0 && |r| > 0 && r[0] == '@'
    requires m <= |ReplaceAll(s, q, r)|
    ensures AtFree(ReplaceAll(s, q, r)[..m]) ==> m <= |s| && ReplaceAll(s, q, r)[..m] == s[..m]
    decreases |s|
  {
    var out := ReplaceAll(s, q, r);
    if m > 0 && |s| > 0 {
      if StartsWith(s, q) {
        assert out[..m][0] == r[0];
      } else {
        var rt := ReplaceAll(s[1..], q, r);
        assert out == [s[0]] + rt;
        CopiedPrefix(s[1..], q, r, m - 1);
        if AtFree(out[..m]) {
          assert rt[..m - 1] == out[1..m];
          assert AtFree(rt[..m - 1]);
          assert out[..m] == [s[0]] + rt[..m - 1];
          assert s[..m] == [s[0]] + s[1..][..m - 1];
        }
      }
    }
  }

  /** An occurrence at the head of the output lies at the head of the input. */
  lemma HeadOccurrence(s: string, q: string, r: string, p: string)
    requires |s| > 0 && |q| > 0 && AliasLike(r) && Anchored(p)
    ensures OccursAt([s[0]] + ReplaceAll(s[1..], q, r), p, 0) ==> StartsWith(s, p)
  {
    var rt := ReplaceAll(s[1..], q, r);
    var out := [s[0]] + rt;
    if OccursAt(out, p, 0) {
      OccursChars(out, p, 0);
      CopiedPrefix(s[1..], q, r, |p| - 1);
      assert rt[..|p| - 1] == p[1..];
      assert s[..|p|] == [s[0]] + s[1..][..|p| - 1];
    }
  }

  /** Replacing q by an `@/` alias creates no occurrence of an anchored p. */
  lemma {:induction false} ReplacePreserves(s: string, q: string, r: string, p: string)
    requires |q| > 0 && Anchored(p) && AliasLike(r)
    ensures Contains(ReplaceAll(s, q, r), p) ==> Contains(s, p)
    decreases |s|
  {
    if |s| > 0 {
      var out := ReplaceAll(s, q, r);
      if StartsWith(s, q) {
        var t := s[|q|..];
        var rt := ReplaceAll(t, q, r);
        assert out == r + rt;
        assert s == s[..|q|] + t;
        ReplacePreserves(t, q, r, p);
        forall i | 0 <= i <= |out| - |p| && OccursAt(out, p, i) ensures Contains(s, p) {
          OccursChars(out, p, i);
          OccursPast(r, rt, p, i);
          ContainsAfter(s[..|q|], t, p);
        }
      } else {
        var rt := ReplaceAll(s[1..], q, r);
        assert out == [s[0]] + rt;
        assert s == [s[0]] + s[1..];
        ReplacePreserves(s[1..], q, r, p);
        HeadOccurrence(s, q, r, p);
        forall i | 0 <= i <= |out| - |p| && OccursAt(out, p, i) ensures Contains(s, p) {
          OccursPast([s[0]], rt, p, i);
          ContainsAfter([s[0]], s[1..], p);
          if i == 0 {
            assert OccursAt(s, p, 0);
          }
        }
      }
    }
  }

  /** Replacing an anchored q by an `@/` alias leaves no occurrence of q. */
  lemma {:induction false} ReplaceRemoves(s: string, q: string, r: string)
    requires Anchored(q) && AliasLike(r)
    ensures !Contains(ReplaceAll(s, q, r), q)
    decreases |s|
  {
    if |s| > 0 {
      var out := ReplaceAll(s, q, r);
      if StartsWith(s, q) {
        var t := s[|q|..];
        var rt := ReplaceAll(t, q, r);
        assert out == r + rt;
        ReplaceRemoves(t, q, r);
        forall i | 0 <= i <= |out| - |q| ensures !OccursAt(out, q, i) {
          OccursChars(out, q, i);
          OccursPast(r, rt, q, i);
        }
      } else {
        var rt := ReplaceAll(s[1..], q, r);
        assert out == [s[0]] + rt;
        ReplaceRemoves(s[1..], q, r);
        HeadOccurrence(s, q, r, q);
        forall i | 0 <= i <= |out| - |q| ensures !OccursAt(out, q, i) {
          OccursPast([s[0]], rt, q, i);
        }
      }
    }
  }

  /** Two strings that both begin some s are prefixes of one another. */
  lemma PrefixOfBoth(s: string, a: string, b: string)
    ensures StartsWith(s, a) && StartsWith(s, b) ==> StartsWith(a, b) || StartsWith(b, a)
  {
    if StartsWith(s, a) && StartsWith(s, b) {
      if |a| <= |b| {
        assert b[..|a|] == s[..|b|][..|a|];
      } else {
        assert a[..|b|] == s[..|a|][..|b|];
      }
    }
  }

  /** Text without '@' after its head is copied through when q is absent
      from the head. */
  lemma CopiesAtFree(u: string, q: string, r: string, n: nat)
    requires |q| > 0 && q[0] == '@' && n <= |u| && AtFree(u[..n])
    ensures n <= |ReplaceAll(u, q, r)| && ReplaceAll(u, q, r)[..n] == u[..n]
    decreases n
  {
    if n > 0 {
      assert u[..n][0] == u[0];
      assert !StartsWith(u, q) by {
        if |q| <= |u| {
          assert u[..|q|][0] == u[0];
        }
      }
      assert u[1..][..n - 1] == u[..n][1..];
      CopiesAtFree(u[1..], q, r, n - 1);
    }
  }

  /** An occurrence of an anchored p survives replacing an anchored q when
      neither is a prefix of the other, whatever the replacement. */
  lemma {:induction false} ReplaceKeeps(s: string, q: string, r: string, p: string)
    requires Anchored(p) && Anchored(q) && !StartsWith(p, q) && !StartsWith(q, p)
    ensures Contains(s, p) ==> Contains(ReplaceAll(s, q, r), p)
    decreases |s|
  {
    if |s| > 0 {
      var out := ReplaceAll(s, q, r);
      PrefixOfBoth(s, p, q);
      if StartsWith(s, q) {
        var t := s[|q|..];
        var rt := ReplaceAll(t, q, r);
        assert out == r + rt;
        assert s == s[..|q|] + t;
        assert forall k :: 0 <= k < |q| ==> s[k] == q[k];
        ReplaceKeeps(t, q, r, p);
        ContainsAfter(r, rt, p);
        forall i | 0 <= i <= |s| - |p| && OccursAt(s, p, i) ensures Contains(out, p) {
          OccursChars(s, p, i);
          OccursPast(s[..|q|], t, p, i);
        }
      } else {
        var rt := ReplaceAll(s[1..], q, r);
        assert out == [s[0]] + rt;
        assert s == [s[0]] + s[1..];
        ReplaceKeeps(s[1..], q, r, p);
        ContainsAfter([s[0]], rt, p);
        forall i | 0 <= i <= |s| - |p| && OccursAt(s, p, i) ensures Contains(out, p) {
          OccursPast([s[0]], s[1..], p, i);
          if i == 0 {
            OccursChars(s, p, 0);
            assert AtFree(s[1..][..|p| - 1]);
            CopiesAtFree(s[1..], q, r, |p| - 1);
            assert out[..|p|] == [s[0]] + rt[..|p| - 1];
            assert OccursAt(out, p, 0);
          }
        }
      }
    }
  }

  // ---------------------------------------------------------------------
  // Properties of the rewrite chain

  lemma PatternsUnderRoot()
    ensures StartsWith(Modules, RegistryRoot) && StartsWith(Layouts, RegistryRoot)
    ensures StartsWith(Components, RegistryRoot) && StartsWith(Lib, RegistryRoot)
    ensures StartsWith(SharedUtils, RegistryRoot) && StartsWith(Shared, RegistryRoot)
    ensures StartsWith(SharedUtils, Shared)
  {
  }

  /** Text that holds no `@registry/` comes back unchanged. */
  lemma NoRegistryUnchanged(content: string, aliases: Aliases)
    requires !Contains(content, RegistryRoot)
    ensures TransformImports(content, aliases) == content
  {
    PatternsUnderRoot();
    ContainsPrefix(content, Modules, RegistryRoot);
    ContainsPrefix(content, Layouts, RegistryRoot);
    ContainsPrefix(content, Components, RegistryRoot);
    ContainsPrefix(content, Lib, RegistryRoot);
    ContainsPrefix(content, SharedUtils, RegistryRoot);
    ContainsPrefix(content, Shared, RegistryRoot);
    ReplaceAllAbsent(content, Modules, "@/modules");
    ReplaceAllAbsent(content, Layouts, "@/layouts");
    ReplaceAllAbsent(content, Components, aliases.components);
    ReplaceAllAbsent(content, Lib, aliases.lib);
    ReplaceAllAbsent(content, SharedUtils, if aliases.lib != "" then aliases.lib else "@/lib");
    ReplaceAllAbsent(content, Shared, "@/shared");
  }

  /** With `@/`-style components and lib aliases, no rewritten prefix is
      left in the output. */
  lemma NoLeftoverPrefixes(content: string, aliases: Aliases)
    requires AliasLike(aliases.components) && AliasLike(aliases.lib)
    ensures var out := TransformImports(content, aliases);
      !Contains(out, Modules) && !Contains(out, Layouts) && !Contains(out, Components) &&
      !Contains(out, Lib) && !Contains(out, SharedUtils) && !Contains(out, Shared)
  {
    PatternsAnchored();
    PatternsUnderRoot();
    var c, l := aliases.components, aliases.lib;
    var t1 := ReplaceAll(content, Modules, "@/modules");
    var t2 := ReplaceAll(t1, Layouts, "@/layouts");
    var t3 := ReplaceAll(t2, Components, c);
    var t4 := ReplaceAll(t3, Lib, l);
    var t5 := ReplaceAll(t4, SharedUtils, l);
    var t6 := ReplaceAll(t5, Shared, "@/shared");
    assert t6 == TransformImports(content, aliases);
    ReplaceRemoves(content, Modules, "@/modules");
    ReplacePreserves(t1, Layouts, "@/layouts", Modules);
    ReplaceRemoves(t1, Layouts, "@/layouts");
    ReplacePreserves(t2, Components, c, Modules);
    ReplacePreserves(t2, Components, c, Layouts);
    ReplaceRemoves(t2, Components, c);
    ReplacePreserves(t3, Lib, l, Modules);
    ReplacePreserves(t3, Lib, l, Layouts);
    ReplacePreserves(t3, Lib, l, Components);
    ReplaceRemoves(t3, Lib, l);
    ReplacePreserves(t4, SharedUtils, l, Modules);
    ReplacePreserves(t4, SharedUtils, l, Layouts);
    ReplacePreserves(t4, SharedUtils, l, Components);
    ReplacePreserves(t4, SharedUtils, l, Lib);
    ReplacePreserves(t5, Shared, "@/shared", Modules);
    ReplacePreserves(t5, Shared, "@/shared", Layouts);
    ReplacePreserves(t5, Shared, "@/shared", Components);
    ReplacePreserves(t5, Shared, "@/shared", Lib);
    ReplaceRemoves(t5, Shared, "@/shared");
    ContainsPrefix(t6, SharedUtils, Shared);
  }

  /** Under the same aliases a second pass changes nothing. */
  lemma TransformIdempotent(content: string, aliases: Aliases)
    requires AliasLike(aliases.components) && AliasLike(aliases.lib)
    ensures TransformImports(TransformImports(content, aliases), aliases) ==
            TransformImports(content, aliases)
  {
    var out := TransformImports(content, aliases);
    NoLeftoverPrefixes(content, aliases);
    ReplaceAllAbsent(out, Modules, "@/modules");
    ReplaceAllAbsent(out, Layouts, "@/layouts");
    ReplaceAllAbsent(out, Components, aliases.components);
    ReplaceAllAbsent(out, Lib, aliases.lib);
    ReplaceAllAbsent(out, SharedUtils, aliases.lib);
    ReplaceAllAbsent(out, Shared, "@/shared");
  }

  lemma PatternsApart()
    ensures !StartsWith(Components, Modules) && !StartsWith(Modules, Components)
    ensures !StartsWith(Components, Layouts) && !StartsWith(Layouts, Components)
    ensures !StartsWith(Components, Lib) && !StartsWith(Lib, Components)
    ensures !StartsWith(Components, SharedUtils) && !StartsWith(SharedUtils, Components)
    ensures !StartsWith(Components, Shared) && !StartsWith(Shared, Components)
    ensures !StartsWith(Lib, Modules) && !StartsWith(Modules, Lib)
    ensures !StartsWith(Lib, Layouts) && !StartsWith(Layouts, Lib)
    ensures !StartsWith(Lib, SharedUtils) && !StartsWith(SharedUtils, Lib)
    ensures !StartsWith(Lib, Shared) && !StartsWith(Shared, Lib)
  {
    assert Components[10] == 'c' && Lib[10] == 'l' && Modules[10] == 'm';
    assert Layouts[10] == 'a' && SharedUtils[10] == 's' && Shared[10] == 's';
  }

  /** A falsy components alias leaves `@registry/components` in place. */
  lemma EmptyComponentsAliasKeeps(content: string, aliases: Aliases)
    requires aliases.components == ""
    ensures Contains(content, Components) ==> Contains(TransformImports(content, aliases), Components)
  {
    PatternsAnchored();
    PatternsApart();
    var t1 := ReplaceAll(content, Modules, "@/modules");
    var t2 := ReplaceAll(t1, Layouts, "@/layouts");
    var t4 := if aliases.lib != "" then ReplaceAll(t2, Lib, aliases.lib) else t2;
    var t5 := ReplaceAll(t4, SharedUtils, if aliases.lib != "" then aliases.lib else "@/lib");
    ReplaceKeeps(content, Modules, "@/modules", Components);
    ReplaceKeeps(t1, Layouts, "@/layouts", Components);
    ReplaceKeeps(t2, Lib, aliases.lib, Components);
    ReplaceKeeps(t4, SharedUtils, if aliases.lib != "" then aliases.lib else "@/lib", Components);
    ReplaceKeeps(t5, Shared, "@/shared", Components);
  }

  /** A falsy lib alias leaves `@registry/lib` in place. */
  lemma EmptyLibAliasKeeps(content: string, aliases: Aliases)
    requires aliases.lib == ""
    ensures Contains(content, Lib) ==> Contains(TransformImports(content, aliases), Lib)
  {
    PatternsAnchored();
    PatternsApart();
    var t1 := ReplaceAll(content, Modules, "@/modules");
    var t2 := ReplaceAll(t1, Layouts, "@/layouts");
    var t3 := if aliases.components != "" then ReplaceAll(t2, Components, aliases.components) else t2;
    var t5 := ReplaceAll(t3, SharedUtils, "@/lib");
    ReplaceKeeps(content, Modules, "@/modules", Lib);
    ReplaceKeeps(t1, Layouts, "@/layouts", Lib);
    ReplaceKeeps(t2, Components, aliases.components, Lib);
    ReplaceKeeps(t3, SharedUtils, "@/lib", Lib);
    ReplaceKeeps(t5, Shared, "@/shared", Lib);
  }

  // ---------------------------------------------------------------------
  // The documented examples

  /** A step whose pattern differs from the text at position k, on text
      with no '@' past its head, changes nothing. */
  lemma StepSkips(t: string, q: string, r: string, k: nat)
    requires |t| > 0 && AtFree(t[1..]) && |q| > 0 && q[0] == '@'
    requires k < |q| && k < |t| && t[k] != q[k]
    ensures ReplaceAll(t, q, r) == t
  {
    assert !StartsWith(t, q) by {
      if |q| <= |t| {
        assert t[..|q|][k] == t[k];
      }
    }
    AtFreeUnchanged(t[1..], q, r);
    assert [t[0]] + t[1..] == t;
  }

  /** An anchored pattern followed by '@'-free text is rewritten once. */
  lemma StepRewrites(q: string, u: string, r: string)
    requires Anchored(q) && AtFree(u)
    ensures ReplaceAll(q + u, q, r) == r + u
  {
    assert (q + u)[..|q|] == q;
    assert (q + u)[|q|..] == u;
    AtFreeUnchanged(u, q, r);
  }

  lemma SplitJoin(t: string, n: nat)
    requires n <= |t|
    ensures t[..n] + t[n..] == t
  {
  }

  lemma AtFreeTail(h: string, u: string)
    requires |h| > 0 && (forall k :: 1 <= k < |h| ==> h[k] != '@') && AtFree(u)
    ensures AtFree((h + u)[1..])
  {
    assert (h + u)[1..] == h[1..] + u;
  }

  lemma ExampleComponents(u: string, aliases: Aliases)
    requires AtFree(u) && AliasLike(aliases.components) && AliasLike(aliases.lib)
    ensures TransformImports(Components + u, aliases) == aliases.components + u
  {
    PatternsAnchored();
    var t := Components + u;
    AtFreeTail(Components, u);
    StepSkips(t, Modules, "@/modules", 10);
    StepSkips(t, Layouts, "@/layouts", 10);
    StepRewrites(Components, u, aliases.components);
    var a := aliases.components + u;
    AtFreeTail(aliases.components, u);
    StepSkips(a, Lib, aliases.lib, 1);
    StepSkips(a, SharedUtils, aliases.lib, 1);
    StepSkips(a, Shared, "@/shared", 1);
  }

  lemma ExampleLib(u: string, aliases: Aliases)
    requires AtFree(u) && AliasLike(aliases.components) && AliasLike(aliases.lib)
    ensures TransformImports(Lib + u, aliases) == aliases.lib + u
  {
    PatternsAnchored();
    var t := Lib + u;
    AtFreeTail(Lib, u);
    StepSkips(t, Modules, "@/modules", 10);
    StepSkips(t, Layouts, "@/layouts", 10);
    StepSkips(t, Components, aliases.components, 10);
    StepRewrites(Lib, u, aliases.lib);
    var a := aliases.lib + u;
    AtFreeTail(aliases.lib, u);
    StepSkips(a, SharedUtils, aliases.lib, 1);
    StepSkips(a, Shared, "@/shared", 1);
  }

  lemma ExampleModules(u: string, aliases: Aliases)
    requires AtFree(u) && AliasLike(aliases.components) && AliasLike(aliases.lib)
    ensures TransformImports(Modules + u, aliases) == "@/modules" + u
  {
    PatternsAnchored();
    StepRewrites(Modules, u, "@/modules");
    var a := "@/modules" + u;
    AtFreeTail("@/modules", u);
    StepSkips(a, Layouts, "@/layouts", 1);
    StepSkips(a, Components, aliases.components, 1);
    StepSkips(a, Lib, aliases.lib, 1);
    StepSkips(a, SharedUtils, aliases.lib, 1);
    StepSkips(a, Shared, "@/shared", 1);
  }

  lemma ExampleLayouts(u: string, aliases: Aliases)
    requires AtFree(u) && AliasLike(aliases.components) && AliasLike(aliases.lib)
    ensures TransformImports(Layouts + u, aliases) == "@/layouts" + u
  {
    PatternsAnchored();
    var t := Layouts + u;
    AtFreeTail(Layouts, u);
    StepSkips(t, Modules, "@/modules", 10);
    StepRewrites(Layouts, u, "@/layouts");
    var a := "@/layouts" + u;
    AtFreeTail("@/layouts", u);
    StepSkips(a, Components, aliases.components, 1);
    StepSkips(a, Lib, aliases.lib, 1);
    StepSkips(a, SharedUtils, aliases.lib, 1);
    StepSkips(a, Shared, "@/shared", 1);
  }

  /** shared/utils goes to the lib alias, or to `@/lib` when that is falsy. */
  lemma ExampleSharedUtils(u: string, aliases: Aliases)
    requires AtFree(u) && (aliases.components == "" || AliasLike(aliases.components))
    requires aliases.lib == "" || AliasLike(aliases.lib)
    ensures TransformImports(SharedUtils + u, aliases) ==
            (if aliases.lib != "" then aliases.lib else "@/lib") + u
  {
    PatternsAnchored();
    var t := SharedUtils + u;
    AtFreeTail(SharedUtils, u);
    StepSkips(t, Modules, "@/modules", 10);
    StepSkips(t, Layouts, "@/layouts", 10);
    StepSkips(t, Components, aliases.components, 10);
    StepSkips(t, Lib, aliases.lib, 10);
    var l := if aliases.lib != "" then aliases.lib else "@/lib";
    StepRewrites(SharedUtils, u, l);
    var a := l + u;
    AtFreeTail(l, u);
    StepSkips(a, Shared, "@/shared", 1);
  }

  lemma DefaultAliasesLike()
    ensures AliasLike(DefaultAliases.components) && AliasLike(DefaultAliases.lib)
  {
  }

  /** The paths of the documented examples, cut after their prefix. */
  lemma ComponentsPath()
    ensures "@registry/components/ui/button" == Components + "/ui/button"
    ensures "@/components/ui/button" == "@/components" + "/ui/button"
  {
  }

  lemma LibPath()
    ensures "@registry/lib/utils" == Lib + "/utils"
    ensures "@/lib/utils" == "@/lib" + "/utils"
  {
  }

  lemma ModulesPath()
    ensures "@registry/modules/auth/index" == Modules + "/auth/index"
    ensures "@/modules/auth/index" == "@/modules" + "/auth/index"
  {
  }

  lemma LayoutsPath()
    ensures "@registry/app/layouts/default" == Layouts + "/default"
    ensures "@/layouts/default" == "@/layouts" + "/default"
  {
  }

  lemma SharedUtilsPath()
    ensures "@registry/shared/utils/typeGuards" == SharedUtils + "/typeGuards"
    ensures "@/lib/typeGuards" == "@/lib" + "/typeGuards"
  {
  }

  /** The examples of the function's documentation, with the default aliases. */
  lemma DocumentedComponents(s: string)
    requires s == "@registry/components/ui/button"
    ensures TransformImports(s, DefaultAliases) == "@/components/ui/button"
  {
    DefaultAliasesLike();
    assert AtFree("/ui/button");
    ExampleComponents("/ui/button", DefaultAliases);
    ComponentsPath();
  }

  lemma DocumentedLib(s: string)
    requires s == "@registry/lib/utils"
    ensures TransformImports(s, DefaultAliases) == "@/lib/utils"
  {
    DefaultAliasesLike();
    assert AtFree("/utils");
    ExampleLib("/utils", DefaultAliases);
    LibPath();
  }

  lemma DocumentedModules(s: string)
    requires s == "@registry/modules/auth/index"
    ensures TransformImports(s, DefaultAliases) == "@/modules/auth/index"
  {
    DefaultAliasesLike();
    assert AtFree("/auth/index");
    ExampleModules("/auth/index", DefaultAliases);
    ModulesPath();
  }

  lemma DocumentedLayouts(s: string)
    requires s == "@registry/app/layouts/default"
    ensures TransformImports(s, DefaultAliases) == "@/layouts/default"
  {
    DefaultAliasesLike();
    assert AtFree("/default");
    ExampleLayouts("/default", DefaultAliases);
    LayoutsPath();
  }

  lemma DocumentedSharedUtils(s: string)
    requires s == "@registry/shared/utils/typeGuards"
    ensures TransformImports(s, DefaultAliases) == "@/lib/typeGuards"
  {
    DefaultAliasesLike();
    assert AtFree("/typeGuards");
    ExampleSharedUtils("/typeGuards", DefaultAliases);
    SharedUtilsPath();
  }

  /** What the components step writes is left alone by the later steps
      when it has no '@' past its head and differs from their patterns at
      position 10. */
  lemma AliasRebuilds(a: string, u: string, aliases: Aliases)
    requires aliases.components == a && a != "" && AtFree(u) && AliasLike(aliases.lib)
    requires |a + u| > 10 && (a + u)[10] == 'c' && AtFree((a + u)[1..])
    ensures TransformImports(Components + u, aliases) == a + u
  {
    PatternsAnchored();
    var t := Components + u;
    AtFreeTail(Components, u);
    StepSkips(t, Modules, "@/modules", 10);
    StepSkips(t, Layouts, "@/layouts", 10);
    StepRewrites(Components, u, a);
    var c := a + u;
    StepSkips(c, Lib, aliases.lib, 10);
    StepSkips(c, SharedUtils, aliases.lib, 10);
    StepSkips(c, Shared, "@/shared", 10);
  }

  /** A non-empty alias free of `@registry/` is not enough for the output
      to be free of rewritten prefixes: the alias `@registry` joined to the
      rest of the path rebuilds one. */
  lemma AliasCanRebuildPrefix(s: string, aliases: Aliases)
    requires s == "@registry/components/components"
    requires aliases == DefaultAliases.(components := "@registry")
    ensures aliases.components != "" && !Contains(aliases.components, RegistryRoot)
    ensures TransformImports(s, aliases) == Components
  {
    DefaultAliasesLike();
    RebuildPath();
    AliasRebuilds("@registry", "/components", aliases);
  }

  /** The path of that example, cut after its prefix, and the prefix cut
      after `@registry`. */
  lemma RebuildPath()
    ensures "@registry/components/components" == Components + "/components"
    ensures Components == "@registry" + "/components"
    ensures AtFree("/components") && AtFree(Components[1..])
    ensures !Contains("@registry", RegistryRoot)
  {
    assert Components[9..] == "/components";
  }

  // ---------------------------------------------------------------------
  // validateTransformation

  /** A character of `[\w/.-]`: ASCII letters and digits, '_', '/', '.', '-'. */
  predicate PathChar(c: char) {
    ('a' <= c <= 'z') || ('A' <= c <= 'Z') || ('0' <= c <= '9') ||
    c == '_' || c == '/' || c == '.' || c == '-'
  }

  /** Length of the longest run of path characters at the head of u. */
  function PathRun(u: string): (n: nat)
    ensures n <= |u| && (forall k :: 0 <= k < n ==> PathChar(u[k]))
    ensures n < |u| ==> !PathChar(u[n])
  {
    if |u| == 0 || !PathChar(u[0]) then 0 else 1 + PathRun(u[1..])
  }

  /** A leftover import begins at i: `@registry/` and one path character. */
  predicate ImportAt(s: string, i: int) {
    OccursAt(s, RegistryRoot, i) && i + 10 < |s| && PathChar(s[i + 10])
  }

  /** The global match of `@registry/` followed by one or more path
      characters: scanning left to right, each match greedy, the scan
      resuming after it; no match gives the empty list. */
  function ValidateTransformation(content: string): (r: seq<string>)
    ensures forall m :: m in r ==> StartsWith(m, RegistryRoot) && |m| > 10
    ensures 11 * |r| <= |content|
    decreases |content|
  {
    if |content| == 0 then []
    else if ImportAt(content, 0) then
      var n := 10 + PathRun(content[10..]);
      [content[..n]] + ValidateTransformation(content[n..])
    else ValidateTransformation(content[1..])
  }

  /** m is a maximal leftover import at position i of s. */
  predicate MaximalImportAt(s: string, m: string, i: int) {
    OccursAt(s, m, i) && StartsWith(m, RegistryRoot) && |m| > 10 &&
    (forall k :: 10 <= k < |m| ==> PathChar(m[k])) &&
    (i + |m| == |s| || !PathChar(s[i + |m|]))
  }

  lemma MaximalShift(a: string, u: string, m: string, j: int)
    requires MaximalImportAt(u, m, j)
    ensures MaximalImportAt(a + u, m, j + |a|)
  {
    OccursAfter(a, u, m, j);
    if j + |m| < |u| {
      assert (a + u)[j + |a| + |m|] == u[j + |m|];
    }
  }

  /** Every reported string is a maximal leftover import found in the text. */
  lemma {:induction false} ValidateFindsImports(s: string)
    ensures forall m :: m in ValidateTransformation(s) ==> exists i :: MaximalImportAt(s, m, i)
    decreases |s|
  {
    if |s| > 0 {
      if ImportAt(s, 0) {
        var n := 10 + PathRun(s[10..]);
        var head := s[..n];
        ValidateFindsImports(s[n..]);
        SplitJoin(s, n);
        assert head[..10] == s[..10];
        assert MaximalImportAt(s, head, 0);
        forall m | m in ValidateTransformation(s[n..]) ensures exists i :: MaximalImportAt(s, m, i) {
          var j :| MaximalImportAt(s[n..], m, j);
          MaximalShift(head, s[n..], m, j);
        }
      } else {
        ValidateFindsImports(s[1..]);
        SplitJoin(s, 1);
        forall m | m in ValidateTransformation(s[1..]) ensures exists i :: MaximalImportAt(s, m, i) {
          var j :| MaximalImportAt(s[1..], m, j);
          MaximalShift(s[..1], s[1..], m, j);
        }
      }
    }
  }

  lemma ImportShift(a: string, u: string, j: int)
    ensures ImportAt(u, j) ==> ImportAt(a + u, j + |a|)
    ensures ImportAt(a + u, j + |a|) && j >= 0 ==> ImportAt(u, j)
  {
    OccursAfter(a, u, RegistryRoot, j);
    OccursPast(a, u, RegistryRoot, j + |a|);
    if 0 <= j && j + |a| + 10 < |a + u| {
      assert (a + u)[j + |a| + 10] == u[j + 10];
    }
  }

  /** The result is empty exactly when no leftover import occurs. */
  lemma {:induction false} ValidateEmptyIff(s: string)
    ensures ValidateTransformation(s) == [] <==> forall i :: 0 <= i < |s| ==> !ImportAt(s, i)
    decreases |s|
  {
    if |s| > 0 && !ImportAt(s, 0) {
      ValidateEmptyIff(s[1..]);
      SplitJoin(s, 1);
      forall i | 0 <= i < |s| - 1 ensures ImportAt(s[1..], i) <==> ImportAt(s, i + 1) {
        ImportShift(s[..1], s[1..], i);
      }
      forall i | 0 < i < |s| ensures ImportAt(s, i) <==> ImportAt(s[1..], i - 1) {
        ImportShift(s[..1], s[1..], i - 1);
      }
    }
  }

  /** After a rewrite with `@/`-style aliases, no reported leftover starts
      with one of the rewritten prefixes. */
  lemma LeftoversAfterTransform(content: string, aliases: Aliases)
    requires AliasLike(aliases.components) && AliasLike(aliases.lib)
    ensures forall m :: m in ValidateTransformation(TransformImports(content, aliases)) ==>
      !StartsWith(m, Modules) && !StartsWith(m, Layouts) && !StartsWith(m, Components) &&
      !StartsWith(m, Lib) && !StartsWith(m, Shared)
  {
    var out := TransformImports(content, aliases);
    NoLeftoverPrefixes(content, aliases);
    ValidateFindsImports(out);
    forall m | m in ValidateTransformation(out)
      ensures !StartsWith(m, Modules) && !StartsWith(m, Layouts) && !StartsWith(m, Components) &&
              !StartsWith(m, Lib) && !StartsWith(m, Shared)
    {
      var i :| MaximalImportAt(out, m, i);
      assert Contains(out, m);
      if StartsWith(m, Modules) { ContainsPrefix(out, m, Modules); }
      if StartsWith(m, Layouts) { ContainsPrefix(out, m, Layouts); }
      if StartsWith(m, Components) { ContainsPrefix(out, m, Components); }
      if StartsWith(m, Lib) { ContainsPrefix(out, m, Lib); }
      if StartsWith(m, Shared) { ContainsPrefix(out, m, Shared); }
    }
  }
}
