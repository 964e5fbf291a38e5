/**
 The module loader (kernel/src/module/mod.rs, kernel/src/module/registry.rs): modules are loaded
 after their dependencies, by a recursion that marks what it is loading and remembers what failed.
 A module's `init` and `cleanup` are outcomes given from outside.
 */
module ModuleLoader {
  import opened Base

  datatype ModuleError =
    | InitFailed
    | CleanupFailed
    | DependencyMissing(name: string)
    | AlreadyLoaded
    | NotLoaded
    | InvalidModule

  datatype Module = Module(name: string, version: string, dependencies: seq<string>)

  // What `init` of a module answers during one call into the loader; None is success.
  type Init = Module -> Option<ModuleError>

  // ---------------------------------------------------------------- what can be loaded

  datatype State = State(known: map<string, Module>, loaded: set<string>, failed: set<string>)

  // A module can be loaded from scratch in `rank` rounds: all its dependencies in fewer.
  ghost predicate LoadableIn(s: State, init: Init, rank: nat, name: string)
    decreases rank, 0
  {
    || name in s.loaded
    || (rank > 0 && name in s.known && name !in s.failed && init(s.known[name]) == None
        && DepsIn(s, init, rank - 1, s.known[name].dependencies))
  }

  ghost predicate DepsIn(s: State, init: Init, rank: nat, names: seq<string>)
    decreases rank, 1
  {
    forall i :: 0 <= i < |names| ==> LoadableIn(s, init, rank, names[i])
  }

  ghost predicate Loadable(s: State, init: Init, name: string) {
    exists rank: nat :: LoadableIn(s, init, rank, name)
  }

  lemma {:induction false} MoreRounds(s: State, init: Init, rank: nat, more: nat, name: string)
    requires LoadableIn(s, init, rank, name) && rank <= more
    ensures LoadableIn(s, init, more, name)
    decreases rank
  {
    if name !in s.loaded {
      forall i | 0 <= i < |s.known[name].dependencies|
        ensures LoadableIn(s, init, more - 1, s.known[name].dependencies[i])
      {
        MoreRounds(s, init, rank - 1, more - 1, s.known[name].dependencies[i]);
      }
    }
  }

  // Finitely many loadable modules are loadable in some common number of rounds.
  lemma {:induction false} CommonRounds(s: State, init: Init, names: seq<string>) returns (rank: nat)
    requires forall i :: 0 <= i < |names| ==> Loadable(s, init, names[i])
    ensures DepsIn(s, init, rank, names)
  {
    if names == [] {
      rank := 0;
    } else {
      var k := |names| - 1;
      var rest := CommonRounds(s, init, names[..k]);
      var last: nat :| LoadableIn(s, init, last, names[k]);
      rank := Max(rest, last);
      forall i | 0 <= i < |names| ensures LoadableIn(s, init, rank, names[i]) {
        if i < k {
          assert names[i] == names[..k][i];
          MoreRounds(s, init, rest, rank, names[i]);
        } else {
          MoreRounds(s, init, last, rank, names[i]);
        }
      }
    }
  }

  /** A module that is not loaded is loadable exactly when it could be once its dependencies are. */
  lemma LoadableStep(s: State, init: Init, name: string)
    requires name !in s.loaded
    ensures Loadable(s, init, name) <==>
      && name in s.known && name !in s.failed && init(s.known[name]) == None
      && forall i :: 0 <= i < |s.known[name].dependencies| ==> Loadable(s, init, s.known[name].dependencies[i])
  {
    if name in s.known && name !in s.failed && init(s.known[name]) == None
       && forall i :: 0 <= i < |s.known[name].dependencies| ==> Loadable(s, init, s.known[name].dependencies[i]) {
      var rank := CommonRounds(s, init, s.known[name].dependencies);
      assert LoadableIn(s, init, rank + 1, name);
    }
    if rank: nat :| LoadableIn(s, init, rank, name) {
      assert DepsIn(s, init, rank - 1, s.known[name].dependencies);
      forall i | 0 <= i < |s.known[name].dependencies| ensures Loadable(s, init, s.known[name].dependencies[i]) {
        assert LoadableIn(s, init, rank - 1, s.known[name].dependencies[i]);
      }
    }
  }

  // ---------------------------------------------------------------- cycles

  function Next(stack: seq<string>, name: string, i: nat): string {
    if i + 1 < |stack| then stack[i + 1] else name
  }

  // Each module on the stack depends on the next, and the last one on `name`.
  ghost predicate Chain(s: State, stack: seq<string>, name: string) {
    && (forall i :: 0 <= i < |stack| ==> stack[i] in s.known && stack[i] !in s.loaded)
    && (forall i :: 0 <= i < |stack| ==> Next(stack, name, i) in s.known[stack[i]].dependencies)
  }

  lemma {:induction false} ChainRank(s: State, init: Init, stack: seq<string>, name: string, i: nat, rank: nat)
    requires Chain(s, stack, name) && i < |stack| && LoadableIn(s, init, rank, stack[i])
    ensures rank >= 1 && LoadableIn(s, init, rank - 1, name)
    decreases |stack| - i
  {
    var next := Next(stack, name, i);
    assert next in s.known[stack[i]].dependencies;
    assert LoadableIn(s, init, rank - 1, next);
    if i + 1 < |stack| {
      ChainRank(s, init, stack, name, i + 1, rank - 1);
      MoreRounds(s, init, rank - 2, rank - 1, name);
    }
  }

  lemma {:induction false} NoRank(s: State, init: Init, stack: seq<string>, name: string, rank: nat)
    requires Chain(s, stack, name) && name in stack
    ensures !LoadableIn(s, init, rank, name)
    decreases rank
  {
    if LoadableIn(s, init, rank, name) {
      var i :| 0 <= i < |stack| && stack[i] == name;
      ChainRank(s, init, stack, name, i, rank);
      NoRank(s, init, stack, name, rank - 1);
      assert false;
    }
  }

  /** A module that leads back to itself cannot be loaded. */
  lemma CycleIsNotLoadable(s: State, init: Init, stack: seq<string>, name: string)
    requires Chain(s, stack, name) && name in stack
    ensures !Loadable(s, init, name)
  {
    forall rank: nat ensures !LoadableIn(s, init, rank, name) {
      NoRank(s, init, stack, name, rank);
    }
  }

  // ---------------------------------------------------------------- progress of a load

  // Later states of one load: loadable modules were loaded, others found to fail.
  ghost predicate Later(s: State, s': State, init: Init) {
    && s'.known == s.known && s.loaded <= s'.loaded && s.failed <= s'.failed && s'.failed !! s'.loaded
    && (forall n :: n in s'.loaded ==> Loadable(s, init, n))
    && (forall n :: n in s'.failed && n !in s.failed ==> !Loadable(s, init, n))
  }

  lemma {:induction false} LaterKeeps(s: State, s': State, init: Init, rank: nat, name: string)
    requires Later(s, s', init) && LoadableIn(s, init, rank, name)
    ensures LoadableIn(s', init, rank, name)
    decreases rank
  {
    if name !in s'.loaded {
      assert Loadable(s, init, name);
      forall i | 0 <= i < |s.known[name].dependencies|
        ensures LoadableIn(s', init, rank - 1, s.known[name].dependencies[i])
      {
        LaterKeeps(s, s', init, rank - 1, s.known[name].dependencies[i]);
      }
    }
  }

  lemma {:induction false} LaterAdds(s: State, s': State, init: Init, rank: nat, name: string)
    requires Later(s, s', init) && LoadableIn(s', init, rank, name)
    ensures Loadable(s, init, name)
    decreases rank
  {
    if name !in s'.loaded {
      forall i | 0 <= i < |s.known[name].dependencies| ensures Loadable(s, init, s.known[name].dependencies[i]) {
        LaterAdds(s, s', init, rank - 1, s.known[name].dependencies[i]);
      }
      LoadableStep(s, init, name);
    }
  }

  /** What a load has done so far changes nothing about what can be loaded. */
  lemma LaterSame(s: State, s': State, init: Init, name: string)
    requires Later(s, s', init)
    ensures Loadable(s', init, name) <==> Loadable(s, init, name)
  {
    if rank: nat :| LoadableIn(s, init, rank, name) {
      LaterKeeps(s, s', init, rank, name);
    }
    if rank: nat :| LoadableIn(s', init, rank, name) {
      LaterAdds(s, s', init, rank, name);
    }
  }

  lemma LaterTwice(a: State, b: State, c: State, init: Init)
    requires Later(a, b, init) && Later(b, c, init)
    ensures Later(a, c, init) && a.loaded <= b.loaded <= c.loaded
  {
    forall n ensures Loadable(b, init, n) <==> Loadable(a, init, n) {
      LaterSame(a, b, init, n);
    }
  }

  // ---------------------------------------------------------------- why a load fails

  ghost predicate AllLoadable(s: State, init: Init, names: seq<string>) {
    forall i :: 0 <= i < |names| ==> Loadable(s, init, names[i])
  }

  // The first of the names that cannot be loaded is d.
  ghost predicate FirstNotLoadable(s: State, init: Init, names: seq<string>, d: string) {
    exists i :: 0 <= i < |names| && names[i] == d && !Loadable(s, init, d) && AllLoadable(s, init, names[..i])
  }

  // The path leads from a module over first dependencies that cannot be loaded to the one at fault,
  // and the error is its own.
  ghost predicate AtFault(s: State, init: Init, loading: set<string>, path: seq<string>, e: ModuleError)
    decreases path
  {
    && path != []
    && var n := path[0];
    && n !in s.loaded
    && if n in s.failed || n in loading then |path| == 1 && e == InitFailed
       else if n !in s.known then |path| == 1 && e == DependencyMissing(n)
       else if AllLoadable(s, init, s.known[n].dependencies) then |path| == 1 && init(s.known[n]) == Some(e)
       else
         && |path| > 1 && FirstNotLoadable(s, init, s.known[n].dependencies, path[1])
         && AtFault(s, init, loading + {n}, path[1..], e)
  }

  ghost predicate Explains(s: State, init: Init, loading: set<string>, name: string, e: ModuleError) {
    exists path :: AtFault(s, init, loading, path, e) && path[0] == name
  }

  /** There is only one module at fault, and one error. */
  lemma {:induction false} OneFault(s: State, init: Init, loading: set<string>, path: seq<string>, e: ModuleError,
                                    path': seq<string>, e': ModuleError)
    requires AtFault(s, init, loading, path, e) && AtFault(s, init, loading, path', e') && path[0] == path'[0]
    ensures path == path' && e == e'
    decreases path
  {
    if |path| > 1 {
      var n := path[0];
      FirstOnce(s, init, s.known[n].dependencies, path[1], path'[1]);
      OneFault(s, init, loading + {n}, path[1..], e, path'[1..], e');
      assert path == [n] + path[1..] && path' == [n] + path'[1..];
    }
  }

  lemma FirstOnce(s: State, init: Init, names: seq<string>, d: string, d': string)
    requires FirstNotLoadable(s, init, names, d) && FirstNotLoadable(s, init, names, d')
    ensures d == d'
  {
    var i :| 0 <= i < |names| && names[i] == d && !Loadable(s, init, d) && AllLoadable(s, init, names[..i]);
    var j :| 0 <= j < |names| && names[j] == d' && !Loadable(s, init, d') && AllLoadable(s, init, names[..j]);
    if i < j {
      BeforeFirst(s, init, names, j, i);
    } else if j < i {
      BeforeFirst(s, init, names, i, j);
    }
  }

  lemma BeforeFirst(s: State, init: Init, names: seq<string>, i: nat, j: nat)
    requires j < i <= |names| && AllLoadable(s, init, names[..i])
    ensures Loadable(s, init, names[j])
  {
    assert names[..i][j] == names[j];
  }

  lemma FirstSame(s: State, s': State, init: Init, names: seq<string>, d: string)
    requires Later(s, s', init)
    ensures AllLoadable(s', init, names) <==> AllLoadable(s, init, names)
    ensures FirstNotLoadable(s', init, names, d) ==> FirstNotLoadable(s, init, names, d)
  {
    hide Loadable;
    forall n ensures Loadable(s', init, n) <==> Loadable(s, init, n) {
      LaterSame(s, s', init, n);
    }
  }

  // As long as nothing failed, what is at fault does not change.
  lemma {:induction false} SameFault(s: State, s': State, init: Init, loading: set<string>, path: seq<string>,
                                     e: ModuleError)
    requires Later(s, s', init) && s'.failed == s.failed && AtFault(s', init, loading, path, e)
    ensures AtFault(s, init, loading, path, e)
    decreases path
  {
    hide Loadable, AllLoadable, FirstNotLoadable;
    var n := path[0];
    if n in s.known {
      FirstSame(s, s', init, s.known[n].dependencies, if |path| > 1 then path[1] else n);
      if |path| > 1 {
        SameFault(s, s', init, loading + {n}, path[1..], e);
      }
    }
  }

  lemma SameExplanation(s: State, s': State, init: Init, loading: set<string>, name: string, e: ModuleError)
    requires Later(s, s', init) && s'.failed == s.failed && Explains(s', init, loading, name, e)
    ensures Explains(s, init, loading, name, e)
  {
    var path :| AtFault(s', init, loading, path, e) && path[0] == name;
    SameFault(s, s', init, loading, path, e);
  }

  // A module that is not at fault itself is explained by its first dependency that cannot be loaded.
  lemma ExplainsFurther(s: State, init: Init, loading: set<string>, name: string, d: string, e: ModuleError)
    requires name in s.known && name !in s.loaded && name !in s.failed && name !in loading
    requires FirstNotLoadable(s, init, s.known[name].dependencies, d) && Explains(s, init, loading + {name}, d, e)
    ensures Explains(s, init, loading, name, e)
  {
    var path :| AtFault(s, init, loading + {name}, path, e) && path[0] == d;
    assert ([name] + path)[1..] == path;
    assert AtFault(s, init, loading, [name] + path, e);
  }

  lemma ExplainsItself(s: State, init: Init, loading: set<string>, name: string, e: ModuleError)
    requires AtFault(s, init, loading, [name], e)
    ensures Explains(s, init, loading, name, e)
  {
    assert [name][0] == name;
  }

  // ---------------------------------------------------------------- what a load touches

  // A chain of dependencies leads from a to b, or they are the same.
  ghost predicate Reaches(known: map<string, Module>, a: string, b: string) {
    exists path: seq<string> :: IsPath(known, path) && path[0] == a && path[|path| - 1] == b
  }

  ghost predicate IsPath(known: map<string, Module>, path: seq<string>) {
    && path != []
    && forall i :: 0 <= i < |path| - 1 ==> path[i] in known && path[i + 1] in known[path[i]].dependencies
  }

  lemma ReachesSelf(known: map<string, Module>, a: string)
    ensures Reaches(known, a, a)
  {
    assert IsPath(known, [a]);
  }

  lemma ReachesFurther(known: map<string, Module>, a: string, d: string, b: string)
    requires a in known && d in known[a].dependencies && Reaches(known, d, b)
    ensures Reaches(known, a, b)
  {
    var path :| IsPath(known, path) && path[0] == d && path[|path| - 1] == b;
    assert IsPath(known, [a] + path);
  }

  // Only modules that the named one leads to were loaded or marked as failed.
  ghost predicate Touches(known: map<string, Module>, s: State, s': State, name: string) {
    forall n :: (n in s'.loaded && n !in s.loaded) || (n in s'.failed && n !in s.failed) ==> Reaches(known, name, n)
  }

  lemma TouchesFurther(known: map<string, Module>, s: State, s': State, name: string, d: string)
    requires name in known && d in known[name].dependencies && Touches(known, s, s', d)
    ensures Touches(known, s, s', name)
  {
    forall n | (n in s'.loaded && n !in s.loaded) || (n in s'.failed && n !in s.failed)
      ensures Reaches(known, name, n)
    {
      ReachesFurther(known, name, d, n);
    }
  }

  lemma NothingYet(known: map<string, Module>, s: State, name: string, log: seq<(Module, set<string>)>)
    ensures Touches(known, s, s, name) && Initialised(log[|log|..], known, s.loaded - s.loaded)
  {
  }

  lemma TouchesOne(known: map<string, Module>, s: State, s': State, name: string)
    requires Touches(known, s, s', name)
    ensures Touches(known, s, s'.(loaded := s'.loaded + {name}, failed := s'.failed - {name}), name)
    ensures Touches(known, s, s'.(failed := s'.failed + {name}), name)
  {
    ReachesSelf(known, name);
  }

  lemma TouchesTwice(known: map<string, Module>, a: State, b: State, c: State, name: string)
    requires Touches(known, a, b, name) && Touches(known, b, c, name)
    ensures Touches(known, a, c, name)
  {
  }

  // ---------------------------------------------------------------- the registry

  datatype Op =
    | Register(registered: Module, init: Init)
    | Unregister(name: string, cleanup: Option<ModuleError>)

  class ModuleRegistry {
    var loaded: map<string, Module>
    var known: map<string, Module>
    var loading: set<string>
    var failed: set<string>
    // Each `init` that was called, with what was loaded at that moment.
    ghost var log: seq<(Module, set<string>)>

    // Holds also in the middle of a load.
    ghost predicate Valid()
      reads this
    {
      && (forall n :: n in known ==> known[n].name == n)
      && (forall n :: n in loaded ==> n in known && loaded[n] == known[n])
      && loaded.Keys !! failed && loaded.Keys !! loading && loading <= known.Keys
      && DepsLoaded(loaded)
      && InOrder(log)
    }

    // Nothing is being loaded: so it is between calls.
    ghost predicate Quiet()
      reads this
    {
      Valid() && loading == {}
    }

    ghost function Now(): State
      reads this
    {
      State(known, loaded.Keys, failed)
    }

    constructor ()
      ensures Quiet() && loaded == known == map[] && failed == {} && log == []
    {
      loaded, known := map[], map[];
      loading, failed := {}, {};
      log := [];
    }

    /**
     `load_module_recursive`: ends on every dependency graph, and succeeds exactly when the module
     can be loaded from what is loaded already; its callers' marks are left as they were.
     */
    method Load(name: string, init: Init, ghost stack: seq<string>) returns (r: Result<(), ModuleError>)
      requires Valid() && Chain(Now(), stack, name) && loading == (set n | n in stack)
      modifies this
      ensures Valid() && loading == old(loading) && known == old(known)
      ensures r.Ok? <==> Loadable(old(Now()), init, name)
      ensures r.Ok? ==> name in loaded
      ensures Later(old(Now()), Now(), init) && Touches(known, old(Now()), Now(), name)
      ensures old(loading) !! (failed - old(failed))
      // which error, and what is marked
      ensures name !in old(loaded) && (name in old(failed) || name in old(loading)) ==> r == Err(InitFailed)
      ensures name !in old(loaded) && name !in old(failed) && name !in old(known) ==> r == Err(DependencyMissing(name))
      ensures r.Err? && name in known && name !in old(loading) ==> name in failed
      ensures r.Err? ==> Explains(old(Now()), init, old(loading), name, r.error)
      ensures r.Ok? ==> failed == old(failed)
      // each module that is now loaded was initialised by this call
      ensures old(log) <= log && Initialised(log[|old(log)|..], known, loaded.Keys - old(loaded.Keys))
      decreases known.Keys - loading, 0
    {
      hide LoadableIn, Loadable, InOrder, DepsLoaded, Later, Touches, Initialised, FirstNotLoadable, Explains;
      ghost var s0 := Now();
      LoadedNow(s0, init);
      NothingYet(known, s0, name, log);
      if name in loaded {
        return Ok(());
      }
      LoadableStep(Now(), init, name);
      if name in failed {
        ExplainsItself(s0, init, loading, name, InitFailed);
        return Err(InitFailed);
      }
      if name in loading {
        CycleIsNotLoadable(Now(), init, stack, name);
        ExplainsItself(s0, init, loading, name, InitFailed);
        return Err(InitFailed);
      }
      if name !in known {
        ExplainsItself(s0, init, loading, name, DependencyMissing(name));
        return Err(DependencyMissing(name));
      }
      var target := known[name];
      loading := loading + {name};
      r := LoadDependencies(target, init, stack + [name]);
      ghost var s1, entries := Now(), log;
      TouchesOne(known, s0, s1, name);
      if r.Err? {
        ghost var d :| FirstNotLoadable(s0, init, target.dependencies, d) && Explains(s0, init, loading, d, r.error);
        loading := loading - {name};
        ExplainsFurther(s0, init, loading, name, d, r.error);
        LaterOne(s0, Now(), init, name);
        failed := failed + {name};
        return;
      }
      LaterOne(s0, Now(), init, name);
      r := Initialise(target, init);
      if r.Err? {
        ExplainsItself(s0, init, loading, name, r.error);
      }
      InitialisedMore(old(log), entries, log, known, old(loaded.Keys), s1.loaded, loaded.Keys, target);
    }

    // The end of a load, when all dependencies are loaded.
    method Initialise(m: Module, init: Init) returns (r: Result<(), ModuleError>)
      requires Valid() && m.name in loading && known[m.name] == m
      requires forall i :: 0 <= i < |m.dependencies| ==> m.dependencies[i] in loaded
      modifies this
      ensures Valid() && loading == old(loading) - {m.name} && known == old(known)
      ensures r == (if init(m) == None then Ok(()) else Err(init(m).value))
      ensures r.Ok? ==> loaded.Keys == old(loaded).Keys + {m.name} && failed == old(failed) - {m.name}
      ensures r.Err? ==> loaded == old(loaded) && failed == old(failed) + {m.name}
      ensures log == old(log) + [(m, old(loaded).Keys)]
    {
      hide InOrder, DepsLoaded;
      Logged(log, m, loaded.Keys);
      OneMore(loaded, m.name, m);
      log := log + [(m, loaded.Keys)];
      match init(m)
      case None =>
        loading := loading - {m.name};
        loaded := loaded[m.name := m];
        failed := failed - {m.name};
        return Ok(());
      case Some(error) =>
        loading := loading - {m.name};
        failed := failed + {m.name};
        return Err(error);
    }

    // The loop over a module's dependencies.
    method LoadDependencies(m: Module, init: Init, ghost stack: seq<string>) returns (r: Result<(), ModuleError>)
      requires Valid() && stack != [] && loading == (set n | n in stack)
      requires m.name == stack[|stack| - 1] && m.name in known && known[m.name] == m
      requires m.dependencies != [] ==> Chain(Now(), stack, m.dependencies[0])
      modifies this
      ensures Valid() && loading == old(loading) && known == old(known)
      ensures r.Ok? <==> AllLoadable(old(Now()), init, m.dependencies)
      ensures r.Err? ==> exists d ::
        && FirstNotLoadable(old(Now()), init, m.dependencies, d)
        && Explains(old(Now()), init, loading, d, r.error)
      ensures r.Ok? ==> failed == old(failed)
      ensures r.Ok? ==> forall i :: 0 <= i < |m.dependencies| ==> m.dependencies[i] in loaded
      ensures Later(old(Now()), Now(), init) && Touches(known, old(Now()), Now(), m.name)
      ensures old(loading) !! (failed - old(failed))
      ensures old(log) <= log && Initialised(log[|old(log)|..], known, loaded.Keys - old(loaded.Keys))
      decreases known.Keys - loading, 1
    {
      hide LoadableIn, Loadable, InOrder, DepsLoaded, Later, Touches, Initialised, Explains;
      ghost var s0 := Now();
      LoadedNow(s0, init);
      NothingYet(known, s0, m.name, log);
      for i := 0 to |m.dependencies|
        invariant Valid() && loading == old(loading) && known == old(known)
        invariant Later(s0, Now(), init) && loading !! (failed - old(failed)) && Touches(known, s0, Now(), m.name)
        invariant old(log) <= log && Initialised(log[|old(log)|..], known, loaded.Keys - old(loaded.Keys))
        invariant forall j :: 0 <= j < i ==> m.dependencies[j] in loaded && Loadable(s0, init, m.dependencies[j])
        invariant failed == old(failed)
      {
        ghost var s1 := Now();
        LaterSame(s0, s1, init, m.dependencies[i]);
        ghost var entries := log;
        r := Load(m.dependencies[i], init, stack);
        LaterTwice(s0, s1, Now(), init);
        TouchesFurther(known, s1, Now(), m.name, m.dependencies[i]);
        TouchesTwice(known, s0, s1, Now(), m.name);
        InitialisedTwice(old(log), entries, log, known, s0.loaded, s1.loaded, loaded.Keys);
        if r.Err? {
          SameExplanation(s0, s1, init, loading, m.dependencies[i], r.error);
          assert FirstNotLoadable(s0, init, m.dependencies, m.dependencies[i]);
          return;
        }
      }
      return Ok(());
    }

    // `register_known`.
    method RegisterKnown(m: Module) returns (r: Result<(), ModuleError>)
      requires Quiet()
      modifies this
      ensures Quiet() && loaded == old(loaded)
      ensures r == (
        if m.name == "" || m.version == "" then Err(InvalidModule)
        else if m.name in old(loaded) then Err(AlreadyLoaded)
        else Ok(()))
      ensures r.Ok? ==> known == old(known)[m.name := m] && failed == old(failed) - {m.name}
      ensures r.Err? ==> known == old(known) && failed == old(failed)
    {
      if m.name == "" || m.version == "" {
        return Err(InvalidModule);
      }
      if m.name in loaded {
        return Err(AlreadyLoaded);
      }
      failed := failed - {m.name};
      known := known[m.name := m];
      return Ok(());
    }

    /**
     `register_module`: a valid module that is not loaded replaces what was known under its name,
     and is then loaded if and only if it can be. Nothing that was loaded is lost.
     */
    method Register(m: Module, init: Init) returns (r: Result<(), ModuleError>)
      requires Quiet()
      modifies this
      ensures Quiet()
      ensures m.name == "" || m.version == "" ==> r == Err(InvalidModule)
      ensures m.name != "" && m.version != "" && m.name in old(loaded) ==> r == Err(AlreadyLoaded)
      ensures m.name == "" || m.version == "" || m.name in old(loaded) ==> Now() == old(Now())
      ensures m.name != "" && m.version != "" && m.name !in old(loaded) ==>
        var s := State(old(known)[m.name := m], old(loaded.Keys), old(failed) - {m.name});
        && (r.Ok? <==> Loadable(s, init, m.name)) && (r.Ok? <==> m.name in loaded)
        && Later(s, Now(), init) && Touches(s.known, s, Now(), m.name)
        && (r.Err? ==> Explains(s, init, {}, m.name, r.error))
      ensures forall n :: n in old(loaded) ==> n in loaded && loaded[n] == old(loaded)[n]
    {
      r := RegisterKnown(m);
      if r.Ok? {
        LoadedNow(Now(), init);
        r := Load(m.name, init, []);
      }
    }

    // `find_dependent`: some loaded module that depends on the named one.
    method FindDependent(name: string) returns (found: Option<string>)
      ensures found.Some? ==> found.value in loaded && name in loaded[found.value].dependencies
      ensures found.None? ==> forall n :: n in loaded ==> name !in loaded[n].dependencies
    {
      var rest := loaded.Keys;
      while rest != {}
        invariant rest <= loaded.Keys
        invariant forall n :: n in loaded && n !in rest ==> name !in loaded[n].dependencies
      {
        var n :| n in rest;
        if name in loaded[n].dependencies {
          return Some(n);
        }
        rest := rest - {n};
      }
      return None;
    }

    /**
     `unload`: succeeds exactly when the module is loaded, no loaded module depends on it and its
     `cleanup` succeeds; then that module alone is no longer loaded.
     */
    method Unload(name: string, cleanup: Option<ModuleError>) returns (r: Result<(), ModuleError>)
      requires Quiet()
      modifies this`loaded
      ensures Quiet()
      ensures name !in old(loaded) ==> r == Err(NotLoaded)
      ensures name in old(loaded) && (exists n :: n in old(loaded) && name in old(loaded)[n].dependencies) ==>
        r == Err(CleanupFailed)
      ensures r.Ok? <==>
        name in old(loaded) && cleanup == None && forall n :: n in old(loaded) ==> name !in old(loaded)[n].dependencies
      ensures r.Err? && r.error !in {NotLoaded, CleanupFailed} ==> cleanup == Some(r.error)
      ensures loaded == if r.Ok? then old(loaded) - {name} else old(loaded)
    {
      if name !in loaded {
        return Err(NotLoaded);
      }
      var dependent := FindDependent(name);
      if dependent.Some? {
        return Err(CleanupFailed);
      }
      match cleanup
      case Some(error) => return Err(error);
      case None =>
        loaded := loaded - {name};
        return Ok(());
    }

    /**
     Every run of calls: nothing is left loading, no module is both loaded and failed, and every
     dependency of a loaded module is loaded.
     */
    method Run(ops: seq<Op>)
      requires Quiet()
      modifies this
      ensures Quiet()
      ensures loading == {} && loaded.Keys !! failed
      ensures forall n, d :: n in loaded && d in loaded[n].dependencies ==> d in loaded
    {
      for i := 0 to |ops|
        invariant Quiet()
      {
        match ops[i]
        case Register(m, init) =>
          var _ := Register(m, init);
        case Unregister(name, cleanup) =>
          var _ := Unload(name, cleanup);
      }
    }
  }

  ghost predicate DepsLoaded(loaded: map<string, Module>) {
    forall n, d :: n in loaded && d in loaded[n].dependencies ==> d in loaded
  }

  ghost predicate InOrder(log: seq<(Module, set<string>)>) {
    forall i, d :: 0 <= i < |log| && d in log[i].0.dependencies ==> d in log[i].1
  }

  // Each of the named modules has its entry in the log.
  ghost predicate Initialised(log: seq<(Module, set<string>)>, known: map<string, Module>, names: set<string>) {
    forall n :: n in names ==> n in known && exists i :: 0 <= i < |log| && log[i].0 == known[n]
  }

  lemma InitialisedTwice(a: seq<(Module, set<string>)>, b: seq<(Module, set<string>)>, c: seq<(Module, set<string>)>,
                         known: map<string, Module>, x: set<string>, y: set<string>, z: set<string>)
    requires a <= b <= c && Initialised(b[|a|..], known, y - x) && Initialised(c[|b|..], known, z - y)
    ensures Initialised(c[|a|..], known, z - x)
  {
    forall n | n in z - x ensures n in known && exists i :: 0 <= i < |c[|a|..]| && c[|a|..][i].0 == known[n] {
      if n in y {
        var i :| 0 <= i < |b[|a|..]| && b[|a|..][i].0 == known[n];
        assert c[|a|..][i] == b[|a|..][i];
      } else {
        var i :| 0 <= i < |c[|b|..]| && c[|b|..][i].0 == known[n];
        assert c[|a|..][|b| - |a| + i] == c[|b|..][i];
      }
    }
  }

  lemma InitialisedMore(a: seq<(Module, set<string>)>, b: seq<(Module, set<string>)>, c: seq<(Module, set<string>)>,
                        known: map<string, Module>, x: set<string>, y: set<string>, z: set<string>, m: Module)
    requires a <= b && Initialised(b[|a|..], known, y - x) && |c| == |b| + 1 && b <= c && c[|b|].0 == m
    requires z <= y + {m.name} && m.name in known && known[m.name] == m
    ensures Initialised(c[|a|..], known, z - x)
  {
    assert c[|b|..][0].0 == m;
    InitialisedTwice(a, b, c, known, x, y, z);
  }

  lemma OneMore(loaded: map<string, Module>, name: string, m: Module)
    requires DepsLoaded(loaded) && forall i :: 0 <= i < |m.dependencies| ==> m.dependencies[i] in loaded
    ensures DepsLoaded(loaded[name := m])
  {
  }

  lemma Logged(log: seq<(Module, set<string>)>, m: Module, names: set<string>)
    requires InOrder(log) && forall i :: 0 <= i < |m.dependencies| ==> m.dependencies[i] in names
    ensures InOrder(log + [(m, names)])
  {
  }

  // A load goes on by one module that is now loaded, or has now failed.
  lemma LaterOne(s: State, s': State, init: Init, name: string)
    requires Later(s, s', init) && name !in s'.loaded && name !in s.failed
    ensures s.known == s'.known && s.loaded <= s'.loaded && s.failed <= s'.failed && s'.failed !! s'.loaded
    ensures Loadable(s, init, name) ==> Later(s, s'.(loaded := s'.loaded + {name}, failed := s'.failed - {name}), init)
    ensures !Loadable(s, init, name) ==> Later(s, s'.(failed := s'.failed + {name}), init)
  {
    hide Loadable;
  }

  lemma LoadedNow(s: State, init: Init)
    requires s.failed !! s.loaded
    ensures Later(s, s, init) && forall n :: n in s.loaded ==> Loadable(s, init, n)
  {
    forall n | n in s.loaded ensures Loadable(s, init, n) {
      assert LoadableIn(s, init, 0, n);
    }
  }
}
