/** The recursive module loader of src/file_loader.c. */
module ModuleLoader {
  import opened ImportGraph
  import opened Options

  datatype LoadError =
    | CircularImport(path: Path)
    | PathTraversal(path: Path)
    | ReadFailed(path: Path)
    | ParseFailed(path: Path)
    | ImportNotAllowed(path: Path)
    | ImportedMain(path: Path)

  datatype Module = Module(path: Path, stmts: seq<Stmt>)

  function Paths(ms: seq<Module>): (ps: seq<Path>)
    ensures |ps| == |ms| && forall i :: 0 <= i < |ms| ==> ps[i] == ms[i].path
  {
    if ms == [] then [] else Paths(ms[..|ms| - 1]) + [ms[|ms| - 1].path]
  }

  /** is_safe_path: a scan over the components of a path. */
  method IsSafePath(path: Path) returns (safe: bool)
    ensures safe <==> SafePath(path)
  {
    var p := 0;
    while p < |path|
      invariant 0 <= p <= |path|
      invariant p == 0 || p == |path| || IsSep(path[p]) || IsSep(path[p - 1])
      invariant forall i, j {:trigger IsComponent(path, i, j)} ::
        0 <= i < j <= |path| && i < p && IsComponent(path, i, j) ==> path[i..j] != ".." && j <= p
    {
      ghost var begin := p;
      while p < |path| && IsSep(path[p])
        invariant begin <= p <= |path|
        invariant forall k :: begin <= k < p ==> IsSep(path[k])
      {
        p := p + 1;
      }
      var start := p;
      while p < |path| && !IsSep(path[p])
        invariant start <= p <= |path|
        invariant forall k :: start <= k < p ==> !IsSep(path[k])
      {
        p := p + 1;
      }
      if p == start {
        forall i, j | 0 <= i < j <= |path| && IsComponent(path, i, j) ensures i < begin {
          assert !IsSep(path[i]);
        }
        return true;
      }
      assert IsComponent(path, start, p);
      if path[start..p] == ".." {
        return false;
      }
      forall i, j | 0 <= i < j <= |path| && i < p && IsComponent(path, i, j)
        ensures path[i..j] != ".." && j <= p
      {
        if begin <= i { OneComponent(path, start, p, i, j); }
      }
    }
    safe := true;
  }

  lemma OneComponent(path: Path, start: nat, end: nat, i: nat, j: nat)
    requires IsComponent(path, start, end) && IsComponent(path, i, j) && i < end
    requires forall k :: i <= k < start ==> IsSep(path[k])
    ensures i == start && j == end
  {
    assert !IsSep(path[i]) && !IsSep(path[start]);
    assert start < i ==> SepAt(path, i - 1);
    assert j < end ==> SepAt(path, j);
    assert end < j ==> SepAt(path, end);
  }

  predicate SepAt(path: Path, k: int) {
    0 <= k < |path| && IsSep(path[k])
  }

  /** The statements of all modules, in load order. */
  function Flatten(ms: seq<Module>): seq<Stmt> {
    if ms == [] then [] else Flatten(ms[..|ms| - 1]) + ms[|ms| - 1].stmts
  }

  predicate DefinesMain(stmts: seq<Stmt>) {
    Function("main") in stmts
  }

  /** The modules are in load order and hold their files' statements. */
  ghost predicate Valid(fs: FileSystem, ms: seq<Module>) {
    && LoadOrder(fs, Paths(ms))
    && forall m :: m in ms ==> m.path in fs && fs[m.path] == Source(m.stmts)
  }

  /** The stack of files being loaded is a chain of imports down to `path`, and none of them is loaded yet. */
  ghost predicate Pending(fs: FileSystem, ms: seq<Module>, stack: seq<Path>, path: Path) {
    && IsChain(fs, stack + [path])
    && (forall i, j :: 0 <= i < j < |stack| ==> stack[i] != stack[j])
    && forall p :: p in stack ==> p !in Paths(ms)
  }

  /** `path` has been pushed: it was pending, not yet on the stack and not yet loaded. */
  ghost predicate OnTop(fs: FileSystem, ms: seq<Module>, stack: seq<Path>, path: Path) {
    && |stack| > 0 && stack[|stack| - 1] == path
    && path !in stack[..|stack| - 1] && path !in Paths(ms)
    && Pending(fs, ms, stack[..|stack| - 1], path)
  }

  lemma Pushing(fs: FileSystem, ms: seq<Module>, stack: seq<Path>, path: Path)
    requires Pending(fs, ms, stack, path) && path !in stack && path !in Paths(ms)
    ensures OnTop(fs, ms, stack + [path], path)
  {
    assert (stack + [path])[..|stack|] == stack;
  }

  lemma Popping(fs: FileSystem, ms: seq<Module>, stack: seq<Path>, path: Path)
    requires OnTop(fs, ms, stack + [path], path)
    ensures Pending(fs, ms, stack, path) && path !in stack && path !in Paths(ms)
    ensures (stack + [path])[..|stack + [path]| - 1] == stack
  {
    assert (stack + [path])[..|stack|] == stack;
  }

  /** With `path` on top, each file it imports is pending in turn. */
  lemma Descending(fs: FileSystem, ms: seq<Module>, stack: seq<Path>, path: Path, q: Path)
    requires OnTop(fs, ms, stack, path) && Imports(fs, path, q)
    ensures Pending(fs, ms, stack, q)
  {
    assert stack == stack[..|stack| - 1] + [path];
    ChainSnoc(fs, stack, q);
  }

  /** Coming back from an import leaves `path` on top. */
  lemma Returning(fs: FileSystem, ms: seq<Module>, ms': seq<Module>, stack: seq<Path>, path: Path, q: Path)
    requires OnTop(fs, ms, stack, path) && Pending(fs, ms', stack, q)
    ensures OnTop(fs, ms', stack, path)
  {
    assert path in stack;
    assert stack == stack[..|stack| - 1] + [path];
  }

  lemma ComesBack(fs: FileSystem, ms: seq<Module>, stack: seq<Path>, path: Path)
    requires Pending(fs, ms, stack, path) && path in stack
    ensures Trouble(fs, (stack + [path])[0])
  {
    var chain := stack + [path];
    assert chain[..|chain| - 1] == stack;
    assert IsTrouble(fs, chain);
  }

  lemma CannotLoad(fs: FileSystem, ms: seq<Module>, stack: seq<Path>, path: Path)
    requires OnTop(fs, ms, stack, path) && !Loadable(fs, path)
    ensures Trouble(fs, stack[0])
  {
    assert stack == stack[..|stack| - 1] + [path];
    assert IsTrouble(fs, stack);
  }

  lemma NotEmpty(fs: FileSystem, ms: seq<Module>, stack: seq<Path>, path: Path)
    requires OnTop(fs, ms, stack, path)
    ensures |stack| > 0
  {
  }

  lemma Shrinks(keys: set<Path>, stack: seq<Path>, path: Path)
    requires path in keys && path !in stack
    ensures keys - Members(stack + [path]) < keys - Members(stack)
  {
    assert path in keys - Members(stack);
    assert path in Members(stack + [path]);
  }

  lemma StillLoaded(before: seq<Module>, after: seq<Module>)
    requires before <= after
    ensures forall p :: p in Paths(before) ==> p in Paths(after)
  {
    forall p | p in Paths(before) ensures p in Paths(after) {
      var i :| 0 <= i < |before| && Paths(before)[i] == p;
      assert Paths(after)[i] == p;
    }
  }

  /** Appending a file whose imports are all loaded keeps the load order. */
  lemma Registered(fs: FileSystem, ms: seq<Module>, stack: seq<Path>, path: Path)
    requires Valid(fs, ms) && Loadable(fs, path) && path !in Paths(ms) && path !in stack
    requires forall q :: Imports(fs, path, q) ==> q in Paths(ms)
    requires Pending(fs, ms, stack, path)
    ensures var ms' := ms + [Module(path, fs[path].stmts)];
            Paths(ms') == Paths(ms) + [path] && Valid(fs, ms') && Pending(fs, ms', stack, path)
  {
    hide Imports, IsChain, SafePath, LoadOrder, Paths;
    var m := Module(path, fs[path].stmts);
    PathsSnoc(ms, m);
    OrderSnoc(fs, Paths(ms), path);
  }

  lemma PathsSnoc(ms: seq<Module>, m: Module)
    ensures Paths(ms + [m]) == Paths(ms) + [m.path]
  {
    assert (ms + [m])[..|ms|] == ms;
  }

  lemma OrderSnoc(fs: FileSystem, ps: seq<Path>, path: Path)
    requires LoadOrder(fs, ps) && Loadable(fs, path) && path !in ps
    requires forall q :: Imports(fs, path, q) ==> q in ps
    ensures LoadOrder(fs, ps + [path])
  {
    hide Imports, Loadable;
    var qs := ps + [path];
    forall i, q | 0 <= i < |qs| && Imports(fs, qs[i], q) ensures q in qs[..i] {
      if i < |ps| {
        assert ps[i] == qs[i] && qs[..i] == ps[..i];
      } else {
        assert qs[..i] == ps;
      }
    }
  }

  predicate FileDefinesMain(fs: FileSystem, p: Path) {
    p in fs && fs[p].Source? && DefinesMain(fs[p].stmts)
  }

  lemma MainClash(fs: FileSystem, ms: seq<Module>, root: Path)
    requires Valid(fs, ms)
    ensures (exists m :: m in ms && m.path != root && DefinesMain(m.stmts))
            <==> exists p :: p in Paths(ms) && p != root && FileDefinesMain(fs, p)
  {
    if m :| m in ms && m.path != root && DefinesMain(m.stmts) {
      var i :| 0 <= i < |ms| && ms[i] == m;
      assert Paths(ms)[i] == m.path;
      assert FileDefinesMain(fs, m.path);
    }
    if p :| p in Paths(ms) && p != root && FileDefinesMain(fs, p) {
      var i :| 0 <= i < |ms| && Paths(ms)[i] == p;
      assert ms[i] in ms && ms[i].path == p;
    }
  }

  lemma NothingPending(fs: FileSystem, ms: seq<Module>, path: Path)
    ensures Pending(fs, ms, [], path)
  {
  }

  lemma {:induction false} FlattenConcat(a: seq<Module>, b: seq<Module>)
    ensures Flatten(a + b) == Flatten(a) + Flatten(b)
  {
    if b == [] {
      assert a + b == a;
    } else {
      var k := |b| - 1;
      assert (a + b)[..|a| + k] == a + b[..k];
      FlattenConcat(a, b[..k]);
    }
  }

  /** In the combined program the whole of an imported module comes before the whole of its importer. */
  lemma {:induction false} ImportsComeFirst(fs: FileSystem, ms: seq<Module>, j: nat, q: Path)
    requires Valid(fs, ms) && j < |ms| && Imports(fs, ms[j].path, q)
    ensures exists i :: 0 <= i < j && ms[i].path == q && Precedes(ms, i, j)
  {
    hide Flatten;
    var ps := Paths(ms);
    assert ps[j] == ms[j].path;
    var i :| 0 <= i < j && ps[i] == q;
    FlattenAround(ms, j);
    FlattenAround(ms[..j], i);
    assert ms[..j][..i] == ms[..i] && ms[..j][i + 1..] == ms[i + 1..j];
  }

  /** The statements of module i stand before those of module j in the combined program. */
  predicate Precedes(ms: seq<Module>, i: nat, j: nat) {
    && i < j < |ms|
    && Flatten(ms) == Flatten(ms[..i]) + ms[i].stmts + Flatten(ms[i + 1..j]) + ms[j].stmts + Flatten(ms[j + 1..])
  }

  lemma {:induction false} FlattenAround(ms: seq<Module>, i: nat)
    requires i < |ms|
    ensures Flatten(ms) == Flatten(ms[..i]) + ms[i].stmts + Flatten(ms[i + 1..])
  {
    var a, b, c := ms[..i], [ms[i]], ms[i + 1..];
    assert ms == a + (b + c);
    assert Flatten(b) == ms[i].stmts by { assert b[..0] == []; }
    hide Flatten;
    FlattenConcat(a, b + c);
    FlattenConcat(b, c);
  }

  /** A dependency name covers an import path when it is a prefix that ends at a component boundary. */
  predicate Covers(dep: string, path: string) {
    dep != "" && dep <= path && (|dep| == |path| || IsSep(path[|dep|]))
  }

  /** module_loader_match_lock_dep_prefix: the longest dependency that covers the path, if any. */
  method MatchLockDep(deps: seq<string>, path: string) returns (best: Option<string>)
    ensures path == "" ==> best == None
    ensures best == None <==> forall i :: 0 <= i < |deps| ==> !Covers(deps[i], path)
    ensures best.Some? ==> best.value in deps && Covers(best.value, path)
    ensures best.Some? ==> forall i :: 0 <= i < |deps| && Covers(deps[i], path) ==> |deps[i]| <= |best.value|
  {
    best := None;
    if path == "" {
      return;
    }
    var bestLen := 0;
    var i := 0;
    while i < |deps|
      invariant i <= |deps|
      invariant best == None ==> bestLen == 0 && forall k :: 0 <= k < i ==> !Covers(deps[k], path)
      invariant best.Some? ==> best.value in deps && Covers(best.value, path) && bestLen == |best.value|
      invariant forall k :: 0 <= k < i && Covers(deps[k], path) ==> |deps[k]| <= bestLen
    {
      if Covers(deps[i], path) && |deps[i]| > bestLen {
        best, bestLen := Some(deps[i]), |deps[i]|;
      }
      i := i + 1;
    }
  }

  class ModuleLoader {
    var modules: seq<Module>
    var loadingStack: seq<Path>
    var error: Option<LoadError>

    constructor ()
      ensures modules == [] && loadingStack == [] && error == None
      ensures forall fs :: Valid(fs, modules)
    {
      modules, loadingStack, error := [], [], None;
    }

    method FindModule(path: Path) returns (found: bool)
      ensures found <==> path in Paths(modules)
    {
      var i := 0;
      while i < |modules|
        invariant i <= |modules|
        invariant forall k :: 0 <= k < i ==> modules[k].path != path
      {
        if modules[i].path == path {
          assert Paths(modules)[i] == path;
          return true;
        }
        i := i + 1;
      }
      return false;
    }

    method IsLoading(path: Path) returns (found: bool)
      ensures found <==> path in loadingStack
    {
      var i := 0;
      while i < |loadingStack|
        invariant i <= |loadingStack|
        invariant path !in loadingStack[..i]
      {
        if loadingStack[i] == path {
          return true;
        }
        i := i + 1;
      }
      return false;
    }

    method PushLoading(path: Path)
      modifies this`loadingStack
      ensures loadingStack == old(loadingStack) + [path]
    {
      loadingStack := loadingStack + [path];
    }

    method PopLoading()
      modifies this`loadingStack
      ensures old(loadingStack) == [] ==> loadingStack == []
      ensures old(loadingStack) != [] ==> loadingStack == old(loadingStack)[..|old(loadingStack)| - 1]
    {
      if |loadingStack| > 0 {
        loadingStack := loadingStack[..|loadingStack| - 1];
      }
    }

    /** module_loader_load_module. */
    method LoadModule(fs: FileSystem, path: Path) returns (ok: bool)
      requires Valid(fs, modules) && Pending(fs, modules, loadingStack, path)
      modifies this
      ensures loadingStack == old(loadingStack)
      ensures Valid(fs, modules) && Pending(fs, modules, loadingStack, path)
      ensures old(modules) <= modules
      ensures ok ==> path in Paths(modules) && error == old(error)
      ensures ok ==> forall p :: p in Paths(modules) ==> p in old(Paths(modules)) || Reaches(fs, path, p)
      ensures !ok ==> error.Some? && Trouble(fs, (loadingStack + [path])[0])
      decreases fs.Keys - Members(loadingStack), 0
    {
      hide Valid, Pending, OnTop, Loadable, Reaches, Trouble, SafePath, Members, Paths, Imports;
      ghost var stack := loadingStack;
      var found := FindModule(path);
      if found {
        return true;
      }
      var loading := IsLoading(path);
      if loading {
        ComesBack(fs, modules, stack, path);
        error := Some(CircularImport(path));
        return false;
      }
      PushLoading(path);
      Pushing(fs, modules, stack, path);
      var failure := ReadAndParse(fs, path);
      if failure.Some? {
        CannotLoad(fs, modules, loadingStack, path);
        error := failure;
        Popping(fs, modules, stack, path);
        PopLoading();
        return false;
      }
      Shrinks(fs.Keys, stack, path);
      ok := LoadImports(fs, path);
      Popping(fs, modules, stack, path);
      if ok {
        Registered(fs, modules, stack, path);
        modules := modules + [Module(path, fs[path].stmts)];
        ReachesSelf(fs, path);
      }
      PopLoading();
    }

    /** Loads the imports of a parsed file in statement order, before the file itself is registered. */
    method LoadImports(fs: FileSystem, path: Path) returns (ok: bool)
      requires Valid(fs, modules) && OnTop(fs, modules, loadingStack, path)
      requires SafePath(path) && path in fs && fs[path].Source?
      modifies this
      ensures loadingStack == old(loadingStack)
      ensures Valid(fs, modules) && OnTop(fs, modules, loadingStack, path)
      ensures old(modules) <= modules
      ensures ok ==> Loadable(fs, path) && error == old(error)
      ensures ok ==> forall q :: Imports(fs, path, q) ==> q in Paths(modules)
      ensures ok ==> forall p :: p in Paths(modules) ==> p in old(Paths(modules)) || Reaches(fs, path, p)
      ensures !ok ==> error.Some? && Trouble(fs, loadingStack[0])
      decreases fs.Keys - Members(loadingStack), 1
    {
      hide Valid, Pending, OnTop, Reaches, Trouble, SafePath, Members, Paths;
      NotEmpty(fs, modules, loadingStack, path);
      var stmts := fs[path].stmts;
      var i := 0;
      while i < |stmts|
        invariant i <= |stmts|
        invariant loadingStack == old(loadingStack) && error == old(error)
        invariant Valid(fs, modules) && OnTop(fs, modules, loadingStack, path) && old(modules) <= modules
        invariant forall k :: 0 <= k < i && stmts[k].Import? ==>
          stmts[k].target.Some? && stmts[k].target.value in Paths(modules)
        invariant forall p :: p in Paths(modules) ==> p in old(Paths(modules)) || Reaches(fs, path, p)
      {
        if stmts[i].Import? {
          if stmts[i].target.None? {
            CannotLoad(fs, modules, loadingStack, path);
            error := Some(ImportNotAllowed(path));
            return false;
          }
          var q := stmts[i].target.value;
          ghost var before := modules;
          assert Imports(fs, path, q) by { assert stmts[i] == Import(Some(q)); }
          Descending(fs, modules, loadingStack, path, q);
          ok := LoadModule(fs, q);
          Returning(fs, before, modules, loadingStack, path, q);
          if !ok {
            return;
          }
          StillLoaded(before, modules);
          forall p | p in Paths(modules) ensures p in old(Paths(modules)) || Reaches(fs, path, p) {
            if p !in Paths(before) { ReachesStep(fs, path, q, p); }
          }
        }
        i := i + 1;
      }
      ok := true;
    }

    /** The loading part of module_loader_load_main_with_options: the program handed to the type checker, or an
        error. Modules loaded before stay, and none but the root may define main. */
    method LoadMain(fs: FileSystem, path: Path) returns (program: Option<seq<Stmt>>)
      requires Valid(fs, modules) && loadingStack == []
      modifies this
      ensures loadingStack == [] && Valid(fs, modules) && old(modules) <= modules
      ensures Trouble(fs, path) ==> program.None?
      ensures !Trouble(fs, path) ==>
        forall p :: p in Paths(modules) <==> p in old(Paths(modules)) || Reaches(fs, path, p)
      ensures !Trouble(fs, path) ==>
        (program.Some? <==> forall p :: p in Paths(modules) && p != path ==> !FileDefinesMain(fs, p))
      ensures program.Some? ==> program.value == Flatten(modules)
    {
      hide Trouble, Reaches, Paths;
      NothingPending(fs, modules, path);
      assert ([] + [path])[0] == path;
      var ok := LoadModule(fs, path);
      if !ok {
        return None;
      }
      LoadedHasNoTrouble(fs, Paths(modules), path);
      MainClash(fs, modules, path);
      StillLoaded(old(modules), modules);
      var clash := ImportedModuleDefinesMain(path);
      if clash {
        error := Some(ImportedMain(path));
        return None;
      }
      var combined: seq<Stmt> := [];
      var i := 0;
      while i < |modules|
        invariant i <= |modules|
        invariant combined == Flatten(modules[..i])
      {
        assert modules[..i + 1][..i] == modules[..i];
        combined := combined + modules[i].stmts;
        i := i + 1;
      }
      assert modules[..i] == modules;
      program := Some(combined);
    }

    method ImportedModuleDefinesMain(root: Path) returns (clash: bool)
      ensures clash <==> exists m :: m in modules && m.path != root && DefinesMain(m.stmts)
    {
      var i := 0;
      while i < |modules|
        invariant i <= |modules|
        invariant forall m :: m in modules[..i] ==> m.path == root || !DefinesMain(m.stmts)
      {
        if modules[i].path != root && DefinesMain(modules[i].stmts) {
          return true;
        }
        i := i + 1;
      }
      return false;
    }

    /** The checks between pushing a path and looking at its imports. */
    method ReadAndParse(fs: FileSystem, path: Path) returns (failure: Option<LoadError>)
      ensures failure.None? ==> SafePath(path) && path in fs && fs[path].Source?
      ensures failure.Some? ==> !Loadable(fs, path)
    {
      var safe := IsSafePath(path);
      if !safe {
        return Some(PathTraversal(path));
      }
      if path !in fs || fs[path].Unreadable? {
        return Some(ReadFailed(path));
      }
      if fs[path].Malformed? {
        return Some(ParseFailed(path));
      }
      return None;
    }
  }

  ghost function Members(s: seq<Path>): set<Path> {
    set p | p in s
  }
}
