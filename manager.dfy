/**
 The plugin manager: its three tables as fields (the name cache
 `AssemblyReferences`, the plugin table `LoadedAssemblies`, the write-once
 registry `References`), the last discovery root, and the process's loaded
 assemblies and the calls made into plugin code as observable state. Each
 method is proved against the specification functions of the other modules.
 */
module Manager {
  import opened World
  import opened Lookup
  import opened Resolution
  import opened Injection
  import opened Tables
  import opened Pipeline

  /** How `DiscoverPlugins` ends: the directory check throws, `LoadedAssemblies.Add` throws, or it completes. */
  datatype Discovery =
    | DirectoryNotFound
    | DuplicateKey(asm: Assembly)
    | Discovered(processed: nat, assemblies: seq<Assembly>, plugins: seq<Plugin>, enabled: nat)

  class PluginManager {
    const env: Env
    var assemblyReferences: map<Name, Assembly>
    var loadedAssemblies: seq<LoadedAssembly>
    var references: map<TypeRef, Ref>
    var lastPath: Option<Path>
    var domain: seq<Assembly>
    var events: seq<Event>

    ghost predicate Valid()
      reads this
    {
      Tables.Valid(loadedAssemblies)
    }

    /** The manager starts with the process's assemblies and a seeded name cache, both arbitrary. */
    constructor(env: Env, domain0: seq<Assembly>, cache0: map<Name, Assembly>)
      ensures this.env == env && domain == domain0 && assemblyReferences == cache0
      ensures loadedAssemblies == [] && references == map[] && lastPath == None && events == []
      ensures Valid()
    {
      this.env := env;
      domain := domain0;
      assemblyReferences := cache0;
      loadedAssemblies := [];
      references := map[];
      lastPath := None;
      events := [];
    }

    // -------------------------------------------------------------------------
    // The registry

    /** `TryGetReference`: found exactly when the type is a key, with the stored object. */
    function TryGetReference(t: TypeRef): (r: Option<Ref>)
      reads this
      ensures r.Some? <==> t in references
      ensures r.Some? ==> r.value == references[t]
    {
      if t in references then Some(references[t]) else None
    }

    /**
     `SetReference`: the registry is write-once. A type already present fails
     (the source throws) and keeps its object; otherwise exactly that entry is
     added.
     */
    method SetReference(t: TypeRef, v: Ref) returns (ok: bool)
      modifies this`references
      ensures ok <==> t !in old(references)
      ensures references == if ok then old(references)[t := v] else old(references)
      ensures TryGetReference(t) == Some(if ok then v else old(references)[t])
    {
      if t in references {
        return false;
      }
      references := references[t := v];
      return true;
    }

    // -------------------------------------------------------------------------
    // Resolution and per-file loading

    /**
     `TryResolve`: the first loop classifies every reference, the second loads
     every found path. A thrown search changes nothing; a failed load keeps what
     was loaded before it.
     */
    method TryResolve(root: Path, m: Assembly) returns (ok: bool, assemblies: seq<Assembly>)
      modifies this`domain, this`assemblyReferences
      ensures var plan := PlanRefs(env, lastPath, old(domain), old(assemblyReferences), root, m.refs);
        if plan.PlanAborted? then
          !ok && assemblies == [] && domain == old(domain) && assemblyReferences == old(assemblyReferences)
        else
          var l := LoadPaths(env, old(domain), old(assemblyReferences), plan.paths);
          ok == l.ok && domain == l.domain && assemblyReferences == l.cache &&
          assemblies == if l.ok then plan.reused + l.loaded else []
    {
      var plan := FirstPass(root, m.refs);
      if plan.PlanAborted? {
        return false, [];
      }
      var loadedList;
      ok, loadedList := LoadFound(plan.paths);
      assemblies := if ok then plan.reused + loadedList else [];
    }

    /** The first loop of `TryResolve`: reuse or search for each reference; a search that throws aborts. */
    method FirstPass(root: Path, refs: seq<Name>) returns (plan: Plan)
      ensures plan == PlanRefs(env, lastPath, domain, assemblyReferences, root, refs)
    {
      var reused: seq<Assembly> := [];
      var paths: seq<(Name, Path)> := [];
      ghost var cs := Classify(env, lastPath, domain, assemblyReferences, root, refs);
      var i := 0;
      while i < |refs|
        invariant 0 <= i <= |refs|
        invariant Accumulate(cs[..i]) == Plan(reused, paths)
      {
        var r := refs[i];
        assert cs[..i + 1][..i] == cs[..i];
        var loaded := IsLoaded(domain, r);
        if loaded.Some? {
          reused := reused + [loaded.value];
        } else if r in assemblyReferences {
          reused := reused + [assemblyReferences[r]];
        } else {
          var found := TryFindAssemblyPath(env, lastPath, root, r);
          match found
          case Found(p) =>
            paths := paths + [(r, p)];
          case NotFound =>
          case SearchThrew =>
            AbortPersists(cs, i + 1);
            return PlanAborted;
        }
        i := i + 1;
      }
      assert cs[..i] == cs;
      return Plan(reused, paths);
    }

    /** The second loop of `TryResolve`: load every found path, recording each in the process and the cache. */
    method LoadFound(paths: seq<(Name, Path)>) returns (ok: bool, loadedList: seq<Assembly>)
      modifies this`domain, this`assemblyReferences
      ensures var l := LoadPaths(env, old(domain), old(assemblyReferences), paths);
        ok == l.ok && domain == l.domain && assemblyReferences == l.cache && (ok ==> loadedList == l.loaded)
    {
      loadedList := [];
      var j := 0;
      while j < |paths|
        invariant 0 <= j <= |paths|
        invariant LoadPaths(env, old(domain), old(assemblyReferences), paths[..j]) == Loading(true, loadedList, domain, assemblyReferences)
      {
        var (r, p) := paths[j];
        assert paths[..j + 1][..j] == paths[..j];
        var x := LoadFrom(env, p);
        if x.Throws? {
          LoadFailPersists(env, old(domain), old(assemblyReferences), paths, j + 1);
          return false, [];
        }
        domain := AddUnique(domain, x.value);
        assemblyReferences := TryAdd(assemblyReferences, r, x.value);
        loadedList := loadedList + [x.value];
        j := j + 1;
      }
      assert paths[..j] == paths;
      return true, loadedList;
    }

    /** `ProcessFile`: filter one file, resolve its references, load it. */
    method ProcessFile(directory: Path, file: Path) returns (r: Processed)
      modifies this`domain, this`assemblyReferences
      ensures FileStep(r, domain, assemblyReferences) ==
              ProcessSpec(env, lastPath, old(domain), old(assemblyReferences), directory, file)
    {
      if file !in env.disk {
        return FileMissing;
      }
      match env.disk[file]
      case None =>
        return Done([]);
      case Some(m) =>
        if IsLoaded(domain, m.name).Some? {
          return Skipped;
        }
        if m.name in assemblyReferences {
          return Skipped;
        }
        if !ReferencesHost(m) {
          return Skipped;
        }
        ghost var d0, c0 := domain, assemblyReferences;
        ghost var plan := PlanRefs(env, lastPath, d0, c0, directory, m.refs);
        var ok, loadedRefs := TryResolve(directory, m);
        if !ok {
          assert ProcessSpec(env, lastPath, d0, c0, directory, file) == FileStep(Done([]), domain, assemblyReferences);
          return Done([]);
        }
        var assemblies := KeepHostReferencing(loadedRefs);
        var own := LoadFrom(env, file);
        assemblies := assemblies + [own.value];
        domain := AddUnique(domain, own.value);
        assemblyReferences := TryAdd(assemblyReferences, m.name, own.value);
        assert ProcessSpec(env, lastPath, d0, c0, directory, file) == FileStep(Done(assemblies), domain, assemblyReferences) by {
          var l := LoadPaths(env, d0, c0, plan.paths);
          assert plan.Plan? && l.ok && loadedRefs == plan.reused + l.loaded;
        }
        return Done(assemblies);
    }

    /** The loop of `ProcessFile` over the resolved assemblies. */
    method KeepHostReferencing(loadedRefs: seq<Assembly>) returns (assemblies: seq<Assembly>)
      ensures assemblies == HostFilter(loadedRefs)
    {
      assemblies := [];
      var i := 0;
      while i < |loadedRefs|
        invariant 0 <= i <= |loadedRefs|
        invariant assemblies == HostFilter(loadedRefs[..i])
      {
        var x := loadedRefs[i];
        assert loadedRefs[..i + 1][..i] == loadedRefs[..i];
        if x !in assemblies && ReferencesHost(x) {
          assemblies := assemblies + [x];
        }
        i := i + 1;
      }
      assert loadedRefs[..i] == loadedRefs;
    }

    // -------------------------------------------------------------------------
    // Instantiation

    /** The inner loops over the table's rows and their instances for one parameter. */
    method MatchLoaded(param: TypeRef, a: Assembly, acc: Fill) returns (f: Fill)
      ensures f == MatchEntries(loadedAssemblies, param, a, acc)
    {
      var args := acc.args;
      var deps := acc.deps;
      var e := 0;
      while e < |loadedAssemblies|
        invariant 0 <= e <= |loadedAssemblies|
        invariant Fill(args, deps) == MatchEntries(loadedAssemblies[..e], param, a, acc)
      {
        var row := loadedAssemblies[e];
        ghost var before := Fill(args, deps);
        var q := 0;
        while q < |row.plugins|
          invariant 0 <= q <= |row.plugins|
          invariant Fill(args, deps) == MatchPlugins(row.plugins[..q], row.asm, param, a, before)
        {
          var inst := row.plugins[q];
          assert row.plugins[..q + 1][..q] == row.plugins[..q];
          if PluginType(inst) == param {
            args := args + [PluginArg(inst)];
            if row.asm != a {
              deps := AddUnique(deps, row.asm);
            }
          }
          q := q + 1;
        }
        assert row.plugins[..q] == row.plugins;
        assert loadedAssemblies[..e + 1][..e] == loadedAssemblies[..e];
        e := e + 1;
      }
      assert loadedAssemblies[..e] == loadedAssemblies;
      return Fill(args, deps);
    }

    /** The parameter loop of one constructor: host, else registry, else loaded instances. */
    method FillArguments(params: seq<TypeRef>, a: Assembly) returns (f: Fill)
      ensures f == FillParams(params, a, references, loadedAssemblies)
    {
      f := Fill([], []);
      var j := 0;
      while j < |params|
        invariant 0 <= j <= |params|
        invariant f == FillParams(params[..j], a, references, loadedAssemblies)
      {
        var param := params[j];
        assert params[..j + 1][..j] == params[..j];
        if param == HostType {
          f := Fill(f.args + [HostArg], f.deps);
        } else if param in references {
          var obj := references[param];
          f := Fill(f.args + [RegistryArg(param, obj)], AddUnique(f.deps, obj.owner));
        } else {
          f := MatchLoaded(param, a, f);
        }
        j := j + 1;
      }
      assert params[..j] == params;
    }

    /** The constructor loop of one type: the first usable constructor is invoked, then `break`. */
    method TryConstructors(t: TypeDesc, a: Assembly) returns (o: Outcome)
      ensures o == TryCtors(t, t.ctors, a, references, loadedAssemblies)
    {
      var k := 0;
      while k < |t.ctors|
        invariant 0 <= k <= |t.ctors|
        invariant TryCtors(t, t.ctors, a, references, loadedAssemblies) == TryCtors(t, t.ctors[k..], a, references, loadedAssemblies)
      {
        var c := t.ctors[k];
        assert t.ctors[k..][0] == c && t.ctors[k..][1..] == t.ctors[k + 1..];
        var f := FillArguments(c.params, a);
        if |f.args| == |c.params| {
          if InvokeThrows(c, f.args) {
            return Aborted;
          }
          return Created(Plugin(t.name, a, f.args), f.deps);
        }
        k := k + 1;
      }
      return NoInstance;
    }

    /**
     `LoadAssembly`: it changes nothing and returns exactly the instantiation
     the specification describes (see `Injection.InstantiateSpec`).
     */
    /** The body of `LoadAssembly`'s loop over the types: one type, on the plugins and dependencies so far. */
    method ScanType(t: TypeDesc, a: Assembly, plugins: seq<Plugin>, refAssemblies: seq<Assembly>)
      returns (aborted: bool, plugins': seq<Plugin>, refAssemblies': seq<Assembly>)
      ensures (if aborted then None else Some(Batch(plugins', refAssemblies'))) ==
        ScanNext(Batch(plugins, refAssemblies), t, a, references, loadedAssemblies)
    {
      aborted, plugins', refAssemblies' := false, plugins, refAssemblies;
      if Candidate(t) {
        if t.hasDefault {
          if !t.defaultThrows {
            plugins' := plugins + [Plugin(t.name, a, [])];
          }
        } else {
          var o := TryConstructors(t, a);
          match o
          case NoInstance =>
          case Aborted =>
            aborted := true;
          case Created(p, ds) =>
            refAssemblies' := AppendMissing(refAssemblies, ds);
            plugins' := plugins + [p];
        }
      }
    }

    method LoadAssembly(a: Assembly) returns (ok: bool, loaded: seq<Plugin>, referenced: seq<Assembly>)
      ensures Instantiation(ok, loaded, referenced) == Instantiate(a, references, loadedAssemblies)
      ensures ok <==> |loaded| > 0
    {
      var plugins: seq<Plugin> := [];
      var refAssemblies: seq<Assembly> := [];
      var types := a.types;
      var i := 0;
      while i < |types|
        invariant 0 <= i <= |types|
        invariant Scan(types[..i], a, references, loadedAssemblies) == Some(Batch(plugins, refAssemblies))
      {
        ScanLast(types, i, a, references, loadedAssemblies);
        var aborted;
        aborted, plugins, refAssemblies := ScanType(types[i], a, plugins, refAssemblies);
        if aborted {
          ScanAbortPersists(types, i + 1, a, references, loadedAssemblies);
          return false, [], [];
        }
        i := i + 1;
      }
      assert types[..i] == types;
      if |plugins| > 0 {
        return true, plugins, refAssemblies;
      }
      return false, [], [];
    }

    // -------------------------------------------------------------------------
    // Discovery

    /**
     `DiscoverPlugins`: process every listed file, register every gathered
     assembly that yields a plugin (origin: the directory of the last listed
     file), then enable the new plugins. The table stays valid.
     */
    method DiscoverPlugins(dir: Path) returns (r: Discovery)
      requires Valid()
      modifies this
      ensures Valid()
      ensures dir !in env.listing ==>
        r == DirectoryNotFound && lastPath == old(lastPath) && domain == old(domain) &&
        assemblyReferences == old(assemblyReferences) && loadedAssemblies == old(loadedAssemblies) &&
        references == old(references) && events == old(events)
      ensures dir in env.listing ==>
        var g := Gather(env, dir, old(domain), old(assemblyReferences), env.listing[dir]);
        var reg := Register(g.assemblies, old(references), old(loadedAssemblies), g.dir);
        lastPath == Some(dir) && domain == g.domain && assemblyReferences == g.cache &&
        references == old(references) && loadedAssemblies == reg.table &&
        (reg.dup.Some? ==> r == DuplicateKey(reg.dup.value) && events == old(events)) &&
        (reg.dup.None? ==>
           r == Discovered(g.processed, g.assemblies, reg.plugins, EnabledCount(env, reg.plugins)) &&
           events == old(events) + EnableEvents(reg.plugins))
    {
      if dir !in env.listing {
        return DirectoryNotFound;
      }
      lastPath := Some(dir);
      var processed, gathered, path := GatherFiles(dir, env.listing[dir]);
      GatherSpec(env, dir, old(domain), old(assemblyReferences), env.listing[dir]);
      RegisterSpec(gathered, references, loadedAssemblies, path);
      var dup, plugins := RegisterAll(gathered, path);
      if dup.Some? {
        return DuplicateKey(dup.value);
      }
      var enabled := EnableAll(plugins);
      return Discovered(processed, gathered, plugins, enabled);
    }

    /** The file loop of `DiscoverPlugins`; exceptions from `ProcessFile` are caught per file. */
    method GatherFiles(dir: Path, files: seq<Listed>) returns (processed: nat, gathered: seq<Assembly>, path: Path)
      requires lastPath == Some(dir)
      modifies this`domain, this`assemblyReferences
      ensures Gather(env, dir, old(domain), old(assemblyReferences), files) ==
              Gathered(processed, gathered, domain, assemblyReferences, path)
    {
      path := dir;
      processed := 0;
      gathered := [];
      var i := 0;
      while i < |files|
        invariant 0 <= i <= |files|
        invariant Gather(env, dir, old(domain), old(assemblyReferences), files[..i]) ==
                  Gathered(processed, gathered, domain, assemblyReferences, path)
      {
        var f := files[i];
        ghost var g := Gather(env, dir, old(domain), old(assemblyReferences), files[..i]);
        GatherLast(env, dir, old(domain), old(assemblyReferences), files, i);
        path := f.dir;
        var res := ProcessFile(f.dir, f.file);
        match res {
          case FileMissing =>
          case Skipped =>
            processed := processed + 1;
          case Done(xs) =>
            processed := processed + 1;
            gathered := AppendMissing(gathered, xs);
        }
        assert GatherStep(g, f.dir, FileStep(res, domain, assemblyReferences)) ==
               Gathered(processed, gathered, domain, assemblyReferences, path);
        i := i + 1;
      }
      assert files[..i] == files;
    }

    /**
     The `if (!list.Contains(x)) list.Add(x)` loop of `DiscoverPlugins` (over
     what `ProcessFile` returned) and of `LoadAssembly` (over a plugin's
     dependency assemblies).
     */
    method AppendMissing(s: seq<Assembly>, xs: seq<Assembly>) returns (r: seq<Assembly>)
      ensures r == AddAll(s, xs)
    {
      r := s;
      var n := 0;
      while n < |xs|
        invariant 0 <= n <= |xs|
        invariant r == AddAll(s, xs[..n])
      {
        assert xs[..n + 1][..n] == xs[..n];
        if xs[n] !in r {
          r := r + [xs[n]];
        }
        n := n + 1;
      }
      assert xs[..n] == xs;
    }

    /** The registration loop of `DiscoverPlugins`; `dup` is set when `LoadedAssemblies.Add` throws. */
    method RegisterAll(gathered: seq<Assembly>, path: Path) returns (dup: Option<Assembly>, plugins: seq<Plugin>)
      modifies this`loadedAssemblies
      ensures var reg := Register(gathered, references, old(loadedAssemblies), path);
        loadedAssemblies == reg.table && dup == reg.dup && (dup.None? ==> plugins == reg.plugins)
    {
      plugins := [];
      var k := 0;
      while k < |gathered|
        invariant 0 <= k <= |gathered|
        invariant Register(gathered[..k], references, old(loadedAssemblies), path) == Registration(loadedAssemblies, plugins, None)
      {
        var x := gathered[k];
        assert gathered[..k + 1][..k] == gathered[..k];
        var ok, instances, required := LoadAssembly(x);
        if ok {
          if Find(loadedAssemblies, x).Some? {
            RegisterDupPersists(gathered, references, old(loadedAssemblies), path, k + 1);
            return Some(x), plugins;
          }
          loadedAssemblies := loadedAssemblies + [LoadedAssembly(x, instances, required, path)];
          plugins := plugins + instances;
        }
        k := k + 1;
      }
      assert gathered[..k] == gathered;
      return None, plugins;
    }

    /** The enabling loop of `DiscoverPlugins`: `Enabled` on every plugin, counting those that return. */
    method EnableAll(plugins: seq<Plugin>) returns (enabled: nat)
      modifies this`events
      ensures enabled == EnabledCount(env, plugins)
      ensures events == old(events) + EnableEvents(plugins)
    {
      enabled := 0;
      var q := 0;
      while q < |plugins|
        invariant 0 <= q <= |plugins|
        invariant enabled == EnabledCount(env, plugins[..q])
        invariant events == old(events) + EnableEvents(plugins[..q])
      {
        var p := plugins[q];
        assert plugins[..q + 1][..q] == plugins[..q];
        assert EnableEvents(plugins[..q + 1]) == EnableEvents(plugins[..q]) + [Enabled(p)];
        events := events + [Enabled(p)];
        if PluginType(p) !in env.enableThrows {
          enabled := enabled + 1;
        }
        q := q + 1;
      }
      assert plugins[..q] == plugins;
    }

    // -------------------------------------------------------------------------
    // Teardown

    /** `UnloadPlugin`: `Disabled` is always called; the instance leaves its row when the row exists. */
    method UnloadPlugin(p: Plugin)
      requires Valid()
      modifies this`loadedAssemblies, this`events
      ensures Valid()
      ensures loadedAssemblies == UnloadPluginTable(old(loadedAssemblies), p)
      ensures events == old(events) + [Disabled(p)] +
                        if p.asm in Keys(old(loadedAssemblies)) then [CommandsUnloaded(p)] else []
    {
      UnloadPluginSpec(loadedAssemblies, p);
      events := events + [Disabled(p)];
      var found := Find(loadedAssemblies, p.asm);
      if found.Some? {
        var i := found.value;
        var rest := RemoveFirst(loadedAssemblies[i].plugins, p);
        events := events + [CommandsUnloaded(p)];
        loadedAssemblies := SetPlugins(loadedAssemblies, i, rest);
      }
    }

    /** The loop over a row's instances, run over a snapshot of the list: the row goes. */
    method UnloadInstances(i: nat)
      requires Valid() && i < |loadedAssemblies|
      modifies this`loadedAssemblies, this`events
      ensures Valid()
      ensures loadedAssemblies == RemoveAt(old(loadedAssemblies), i)
      ensures events == old(events) + UnloadEvents(old(loadedAssemblies)[i].plugins)
    {
      ghost var t0 := loadedAssemblies;
      var ps := loadedAssemblies[i].plugins;
      assert ps[0..] == ps;
      var k := 0;
      while k < |ps|
        invariant 0 <= k <= |ps|
        invariant Valid()
        invariant loadedAssemblies == SetPlugins(t0, i, ps[k..])
        invariant events == old(events) + UnloadEvents(ps[..k])
      {
        UnloadNext(t0, i, k, old(events));
        UnloadPlugin(ps[k]);
        k := k + 1;
      }
      assert ps[..k] == ps;
    }

    /**
     `UnloadPluginAssembly`, with the cycle guard the source lacks: every
     recorded dependency that is still tracked is unloaded first (except one
     already being unloaded further up), then the registry entries for all of
     the assembly's types go, then its instances and its row.
     */
    method UnloadGuarded(a: Assembly, visiting: set<Assembly>) returns (ghost cascade: seq<Event>)
      requires Valid() && a !in visiting
      modifies this`loadedAssemblies, this`events, this`references
      ensures Valid()
      ensures forall e :: e in loadedAssemblies ==> e in old(loadedAssemblies)
      ensures Keys(loadedAssemblies) == Keys(old(loadedAssemblies)) - Reach(old(loadedAssemblies), a, visiting)
      ensures forall e :: e in old(loadedAssemblies) && e.asm !in Reach(old(loadedAssemblies), a, visiting) ==>
        e in loadedAssemblies
      ensures references == old(references) - TypeKeys(Reach(old(loadedAssemblies), a, visiting))
      ensures a !in Keys(old(loadedAssemblies)) ==>
        loadedAssemblies == old(loadedAssemblies) && references == old(references) && events == old(events)
      ensures forall i :: 0 <= i < |old(loadedAssemblies)| && old(loadedAssemblies)[i].asm == a ==>
        events == old(events) + cascade + UnloadEvents(old(loadedAssemblies)[i].plugins)
      decreases Keys(loadedAssemblies) - visiting, 2
    {
      cascade := [];
      var found := Find(loadedAssemblies, a);
      if found.None? {
        ReachOutside(loadedAssemblies, a, visiting);
        assert references == references - TypeKeys({});
        return;
      }
      ghost var t0, r0, ev0 := loadedAssemblies, references, events;
      var row := loadedAssemblies[found.value];
      assert forall i :: 0 <= i < |t0| && t0[i].asm == a ==> t0[i] == row;
      assert forall d :: d in row.deps ==> DependsOn(t0, a, d);
      UnloadDependencies(a, visiting, row.deps);
      cascade := events[|ev0|..];
      PrefixSplit(ev0, events);
      assert row in loadedAssemblies;
      ghost var tm := loadedAssemblies;
      ghost var w := IndexOf(tm, row);
      RemoveTypeReferences(a);
      UnloadIfTracked(a);
      CascadeDone(t0, tm, loadedAssemblies, r0, references, a, visiting, found.value);
    }

    /**
     The loop over the recorded dependencies of `a`'s row, recursing into each
     one still tracked: the rows it removes are closed under recorded
     dependencies (up to those being unloaded) and all reached from `a`.
     */
    method UnloadDependencies(a: Assembly, visiting: set<Assembly>, deps: seq<Assembly>)
      requires Valid() && a !in visiting && a in Keys(loadedAssemblies)
      requires forall d :: d in deps ==> DependsOn(loadedAssemblies, a, d)
      modifies this`loadedAssemblies, this`events, this`references
      ensures UnloadedSoFar(old(loadedAssemblies), old(references), old(events), a, visiting, deps)
      decreases Keys(loadedAssemblies) - visiting, 1
    {
      ghost var t0, r0, ev0 := loadedAssemblies, references, events;
      assert Keys(t0) - Keys(t0) == {};
      var k := 0;
      while k < |deps|
        invariant 0 <= k <= |deps|
        invariant UnloadedSoFar(t0, r0, ev0, a, visiting, deps[..k])
      {
        assert deps[k] in deps;
        assert deps[..k + 1] == deps[..k] + [deps[k]];
        UnloadDependency(a, visiting, deps[..k], deps[k], t0, r0, ev0);
        k := k + 1;
      }
      assert deps[..k] == deps;
    }

    /**
     The state the dependency loop of `a` keeps relative to the table `t0`,
     registry `r0` and event log `ev0` it started from: rows only go, the rows
     of `visiting` and `a` stay, the removed rows are closed under recorded
     dependencies and all reached from `a`, the registry has lost exactly their
     types, events were only appended, and each dependency in `done` is being
     unloaded further up, is `a` itself, or is no longer tracked.
     */
    ghost predicate UnloadedSoFar(t0: seq<LoadedAssembly>, r0: map<TypeRef, Ref>, ev0: seq<Event>,
                                  a: Assembly, visiting: set<Assembly>, done: seq<Assembly>)
      reads this
    {
      Valid() && KeysDistinct(t0) && a in Keys(t0) && a !in visiting &&
      (forall e :: e in loadedAssemblies ==> e in t0) &&
      (forall e :: e in t0 && (e.asm in visiting || e.asm == a) ==> e in loadedAssemblies) &&
      Closed(t0, visiting + {a}, Keys(t0) - Keys(loadedAssemblies)) &&
      Keys(t0) - Keys(loadedAssemblies) <= Reach(t0, a, visiting) &&
      references == r0 - TypeKeys(Keys(t0) - Keys(loadedAssemblies)) &&
      ev0 <= events &&
      (forall d :: d in done ==> d in visiting || d == a || d !in Keys(loadedAssemblies))
    }

    /** One recorded dependency `d` of `a`: the guarded cascade into it, when it is still tracked and not being unloaded. */
    method UnloadDependency(a: Assembly, visiting: set<Assembly>, ghost done: seq<Assembly>, d: Assembly,
                            ghost t0: seq<LoadedAssembly>, ghost r0: map<TypeRef, Ref>, ghost ev0: seq<Event>)
      requires UnloadedSoFar(t0, r0, ev0, a, visiting, done) && DependsOn(t0, a, d)
      modifies this`loadedAssemblies, this`events, this`references
      ensures UnloadedSoFar(t0, r0, ev0, a, visiting, done + [d])
      ensures Keys(loadedAssemblies) <= Keys(old(loadedAssemblies))
      decreases Keys(loadedAssemblies) - visiting, 0
    {
      if d != a && d !in visiting && Find(loadedAssemblies, d).Some? {
        ghost var t1 := loadedAssemblies;
        assert d in Keys(t1) by {
          assert t1[Find(t1, d).value] in t1;
        }
        var _ := UnloadGuarded(d, visiting + {a});
        DependencyUnloaded(t0, t1, loadedAssemblies, r0, references, a, visiting, d);
      }
    }

    /** The loop over all of `a`'s types removing their registry entries. */
    method RemoveTypeReferences(a: Assembly)
      modifies this`references
      ensures references == old(references) - TypeKeys({a})
    {
      var types := a.types;
      var j := 0;
      while j < |types|
        invariant 0 <= j <= |types|
        invariant references == old(references) - TypeKeysOf(a, types[..j])
      {
        var key := TypeOf(a, types[j]);
        assert TypeKeysOf(a, types[..j + 1]) == TypeKeysOf(a, types[..j]) + {key} by {
          assert types[..j + 1] == types[..j] + [types[j]];
        }
        if key in references {
          references := references - {key};
        }
        j := j + 1;
      }
      assert types[..j] == types;
      TypeKeysOne(a);
    }

    /**
     `UnloadPluginAssembly(a)`: the guarded cascade started from `a`. It
     removes exactly the assemblies reached from `a` through recorded
     dependencies, keeps every other row, and ends with the events of `a`'s
     own instances.
     */
    method UnloadPluginAssembly(a: Assembly) returns (ghost cascade: seq<Event>)
      requires Valid()
      modifies this`loadedAssemblies, this`events, this`references
      ensures Valid()
      ensures a !in Keys(loadedAssemblies)
      ensures forall e :: e in loadedAssemblies ==> e in old(loadedAssemblies)
      ensures Keys(loadedAssemblies) == Keys(old(loadedAssemblies)) - Reach(old(loadedAssemblies), a, {})
      ensures forall e :: e in old(loadedAssemblies) && e.asm !in Reach(old(loadedAssemblies), a, {}) ==>
        e in loadedAssemblies
      ensures references == old(references) - TypeKeys(Reach(old(loadedAssemblies), a, {}))
      ensures a !in Keys(old(loadedAssemblies)) ==>
        loadedAssemblies == old(loadedAssemblies) && references == old(references) && events == old(events)
      ensures forall i :: 0 <= i < |old(loadedAssemblies)| && old(loadedAssemblies)[i].asm == a ==>
        (forall d :: d in old(loadedAssemblies)[i].deps ==> d !in Keys(loadedAssemblies)) &&
        events == old(events) + cascade + UnloadEvents(old(loadedAssemblies)[i].plugins)
    {
      ghost var t0 := loadedAssemblies;
      cascade := UnloadGuarded(a, {});
      if a in Keys(t0) {
        ReachRoot(t0, a, {});
        ReachClosed(t0, a, {});
        forall i, d | 0 <= i < |t0| && t0[i].asm == a && d in t0[i].deps ensures d !in Keys(loadedAssemblies) {
          assert DependsOn(t0, a, d);
        }
      }
    }

    /**
     `UnloadAll`, over the name cache in the enumeration order `order`: every
     row whose assembly is a cached value is unloaded, the other rows stay,
     the registry is untouched and the name cache ends empty.
     */
    method UnloadAll(order: seq<Name>)
      requires Valid()
      requires NoDup(order) && Elems(order) == assemblyReferences.Keys
      modifies this`loadedAssemblies, this`events, this`assemblyReferences
      ensures Valid()
      ensures assemblyReferences == map[]
      ensures forall e :: e in loadedAssemblies <==> e in old(loadedAssemblies) && e.asm !in old(assemblyReferences).Values
      ensures events == old(events) + AllUnloadEvents(old(loadedAssemblies), old(assemblyReferences), order)
    {
      ghost var c0, t0, ev0 := assemblyReferences, loadedAssemblies, events;
      assert order[..0] == [];
      var k := 0;
      while k < |order|
        invariant 0 <= k <= |order|
        invariant CachedUnloaded(t0, c0, ev0, order, k)
      {
        UnloadCached(t0, c0, ev0, order, k);
        k := k + 1;
      }
      assert order[..k] == order;
      CachedValuesAll(c0, order);
    }

    /** `UnloadAll`'s loop invariant on the current state; see `CachedUnloadedAt`. */
    ghost predicate CachedUnloaded(t0: seq<LoadedAssembly>, c0: map<Name, Assembly>, ev0: seq<Event>, order: seq<Name>, k: nat)
      reads this
    {
      CachedUnloadedAt(t0, c0, ev0, order, k, loadedAssemblies, assemblyReferences, events)
    }

    /** One iteration of `UnloadAll`'s loop: the next name's assembly is unloaded if tracked, and the name goes. */
    method UnloadCached(ghost t0: seq<LoadedAssembly>, ghost c0: map<Name, Assembly>, ghost ev0: seq<Event>, order: seq<Name>, k: nat)
      requires CachedUnloaded(t0, c0, ev0, order, k) && k < |order|
      modifies this`loadedAssemblies, this`events, this`assemblyReferences
      ensures CachedUnloaded(t0, c0, ev0, order, k + 1)
    {
      ghost var t, c, ev := loadedAssemblies, assemblyReferences, events;
      CachedUnloadedHas(t0, c0, ev0, order, k, t, c, ev);
      var name := order[k];
      UnloadIfTracked(assemblyReferences[name]);
      assemblyReferences := assemblyReferences - {name};
      CachedUnloadedStep(t0, c0, ev0, order, k, t, c, ev, loadedAssemblies, events);
    }

    /** The body of `UnloadAll`'s loop: a tracked assembly loses every instance, and so its row. */
    method UnloadIfTracked(asm: Assembly)
      requires Valid()
      modifies this`loadedAssemblies, this`events
      ensures Valid()
      ensures forall e :: e in loadedAssemblies <==> e in old(loadedAssemblies) && e.asm != asm
      ensures Keys(loadedAssemblies) == Keys(old(loadedAssemblies)) - {asm}
      ensures asm !in Keys(old(loadedAssemblies)) ==> events == old(events)
      ensures forall i :: 0 <= i < |old(loadedAssemblies)| && old(loadedAssemblies)[i].asm == asm ==>
        events == old(events) + UnloadEvents(old(loadedAssemblies)[i].plugins)
      ensures events == old(events) + RowEvents(old(loadedAssemblies), asm)
    {
      var found := Find(loadedAssemblies, asm);
      if found.Some? {
        RemoveAtSpec(loadedAssemblies, found.value);
        FindUnique(loadedAssemblies, found.value);
        UnloadInstances(found.value);
      }
    }
  }

  /**
   The state `UnloadAll`'s loop keeps after the first `k` names of `order`,
   relative to the table `t0`, cache `c0` and event log `ev0` it started
   from: those names are no longer cached, exactly the rows of their
   assemblies are gone, and the events are those of unloading them in order.
   */
  ghost predicate CachedUnloadedAt(t0: seq<LoadedAssembly>, c0: map<Name, Assembly>, ev0: seq<Event>, order: seq<Name>, k: nat,
                                   t: seq<LoadedAssembly>, c: map<Name, Assembly>, ev: seq<Event>)
  {
    k <= |order| && Tables.Valid(t) && KeysDistinct(t0) && NoDup(order) && Elems(order) == c0.Keys &&
    c == c0 - Elems(order[..k]) &&
    (forall e :: e in t <==> e in t0 && e.asm !in CachedValues(c0, order[..k])) &&
    ev == ev0 + AllUnloadEvents(t0, c0, order[..k])
  }

  lemma CachedUnloadedHas(t0: seq<LoadedAssembly>, c0: map<Name, Assembly>, ev0: seq<Event>, order: seq<Name>, k: nat,
                          t: seq<LoadedAssembly>, c: map<Name, Assembly>, ev: seq<Event>)
    requires CachedUnloadedAt(t0, c0, ev0, order, k, t, c, ev) && k < |order|
    ensures order[k] in c && c[order[k]] == c0[order[k]]
  {
    CacheStep(c0, order, k);
  }

  /** Unloading the next name's assembly, if tracked, and dropping the name keeps the loop invariant. */
  lemma CachedUnloadedStep(t0: seq<LoadedAssembly>, c0: map<Name, Assembly>, ev0: seq<Event>, order: seq<Name>, k: nat,
                           t: seq<LoadedAssembly>, c: map<Name, Assembly>, ev: seq<Event>,
                           t1: seq<LoadedAssembly>, ev1: seq<Event>)
    requires CachedUnloadedAt(t0, c0, ev0, order, k, t, c, ev) && k < |order|
    requires order[k] in c0
    requires Tables.Valid(t1) && (forall e :: e in t1 <==> e in t && e.asm != c0[order[k]])
    requires ev1 == ev + RowEvents(t, c0[order[k]])
    ensures CachedUnloadedAt(t0, c0, ev0, order, k + 1, t1, c - {order[k]}, ev1)
  {
    var x := c0[order[k]];
    CacheStep(c0, order, k);
    AllUnloadEventsStep(t0, t, c0, order, k);
    var done, done1 := CachedValues(c0, order[..k]), CachedValues(c0, order[..k + 1]);
    assert done1 == done + {x};
    forall e ensures e in t1 <==> e in t0 && e.asm !in done1 {
      assert e in t <==> e in t0 && e.asm !in done;
    }
    var a0, a1 := AllUnloadEvents(t0, c0, order[..k]), AllUnloadEvents(t0, c0, order[..k + 1]);
    var r := RowEvents(t, x);
    assert a1 == a0 + r;
    SeqAssoc(ev0, a0, r);
  }

  /** The cached assemblies under the names `ns`. */
  ghost function CachedValues(c: map<Name, Assembly>, ns: seq<Name>): set<Assembly> {
    set n | n in ns && n in c :: c[n]
  }

  /** One more name of the enumeration: its entry is still cached, and its value joins the unloaded set. */
  lemma CacheStep(c0: map<Name, Assembly>, order: seq<Name>, k: nat)
    requires NoDup(order) && Elems(order) == c0.Keys && k < |order|
    ensures order[k] in c0 - Elems(order[..k])
    ensures (c0 - Elems(order[..k])) - {order[k]} == c0 - Elems(order[..k + 1])
    ensures CachedValues(c0, order[..k + 1]) == CachedValues(c0, order[..k]) + {c0[order[k]]}
  {
    assert order[k] in Elems(order);
    assert order[k] !in Elems(order[..k]);
    assert order[..k + 1] == order[..k] + [order[k]];
  }

  /**
   The calls `UnloadAll` makes over the names `ns`, in order: at the first
   name under which an assembly is cached, that assembly's row in `t` is
   unloaded instance by instance; a later name for the same assembly finds no
   row.
   */
  ghost function AllUnloadEvents(t: seq<LoadedAssembly>, c: map<Name, Assembly>, ns: seq<Name>): seq<Event>
    decreases |ns|
  {
    if ns == [] then []
    else
      var pre, n := ns[..|ns| - 1], ns[|ns| - 1];
      AllUnloadEvents(t, c, pre) + if n in c && c[n] !in CachedValues(c, pre) then RowEvents(t, c[n]) else []
  }

  /**
   One more name of the enumeration: the row the current table holds for its
   assembly yields exactly the events `AllUnloadEvents` adds for it.
   */
  lemma AllUnloadEventsStep(t0: seq<LoadedAssembly>, cur: seq<LoadedAssembly>, c0: map<Name, Assembly>, order: seq<Name>, k: nat)
    requires KeysDistinct(t0) && KeysDistinct(cur)
    requires NoDup(order) && Elems(order) == c0.Keys && k < |order|
    requires forall e :: e in cur <==> e in t0 && e.asm !in CachedValues(c0, order[..k])
    ensures AllUnloadEvents(t0, c0, order[..k + 1]) == AllUnloadEvents(t0, c0, order[..k]) + RowEvents(cur, c0[order[k]])
  {
    assert order[..k + 1][..k] == order[..k];
    assert order[k] in Elems(order);
    var x := c0[order[k]];
    if x in CachedValues(c0, order[..k]) || Find(t0, x).None? {
      assert Find(cur, x).None? by {
        forall j | 0 <= j < |cur| ensures cur[j].asm != x {
          assert cur[j] in cur;
        }
      }
    } else {
      var i := Find(t0, x).value;
      assert t0[i] in cur;
      var j := Find(cur, x).value;
      assert cur[j] in cur;
      assert cur[j] == t0[i];
    }
  }

  lemma SeqAssoc<T>(x: seq<T>, y: seq<T>, z: seq<T>)
    ensures (x + y) + z == x + (y + z)
  {
  }

  lemma CachedValuesAll(c0: map<Name, Assembly>, order: seq<Name>)
    requires Elems(order) == c0.Keys
    ensures CachedValues(c0, order) == c0.Values
  {
  }
}
