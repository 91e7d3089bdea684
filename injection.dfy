/**
 Constructor injection (`LoadAssembly`) as specification functions. Each fold
 recurses on the last element, so that a loop over a prefix extends it by one
 unfolding. The lemmas state what the injector promises: which arguments a
 constructor receives, which constructor is chosen, and which dependency
 assemblies are recorded.
 */
module Injection {
  import opened World

  /** The accumulators `parameters` and `assembliesReferenced` of one constructor attempt. */
  datatype Fill = Fill(args: seq<Arg>, deps: seq<Assembly>)

  /** Matching one parameter against the plugin instances of one loaded assembly `owner`. */
  function MatchPlugins(ps: seq<Plugin>, owner: Assembly, param: TypeRef, a: Assembly, acc: Fill): Fill
    decreases |ps|
  {
    if ps == [] then acc
    else
      var f := MatchPlugins(ps[..|ps| - 1], owner, param, a, acc);
      var q := ps[|ps| - 1];
      if PluginType(q) == param then
        Fill(f.args + [PluginArg(q)], if owner != a then AddUnique(f.deps, owner) else f.deps)
      else f
  }

  /** Matching one parameter against every loaded assembly's plugin instances, in table order. */
  function MatchEntries(es: seq<LoadedAssembly>, param: TypeRef, a: Assembly, acc: Fill): Fill
    decreases |es|
  {
    if es == [] then acc
    else
      var e := es[|es| - 1];
      MatchPlugins(e.plugins, e.asm, param, a, MatchEntries(es[..|es| - 1], param, a, acc))
  }

  /** One parameter: the host type, else the registry, else loaded plugin instances of exactly that type. */
  function FillParam(acc: Fill, param: TypeRef, a: Assembly, refs: map<TypeRef, Ref>, table: seq<LoadedAssembly>): Fill {
    if param == HostType then Fill(acc.args + [HostArg], acc.deps)
    else if param in refs then
      Fill(acc.args + [RegistryArg(param, refs[param])], AddUnique(acc.deps, refs[param].owner))
    else MatchEntries(table, param, a, acc)
  }

  /** All parameters of one constructor, in order. */
  function FillParams(params: seq<TypeRef>, a: Assembly, refs: map<TypeRef, Ref>, table: seq<LoadedAssembly>): Fill
    decreases |params|
  {
    if params == [] then Fill([], [])
    else FillParam(FillParams(params[..|params| - 1], a, refs, table), params[|params| - 1], a, refs, table)
  }

  /** A constructor is usable when the filled-argument count equals its parameter count. */
  predicate Full(c: Ctor, a: Assembly, refs: map<TypeRef, Ref>, table: seq<LoadedAssembly>) {
    |FillParams(c.params, a, refs, table).args| == |c.params|
  }

  /** An argument has the type of the parameter it is passed for. */
  predicate Fits(arg: Arg, param: TypeRef) {
    match arg
    case HostArg => param == HostType
    case RegistryArg(key, _) => key == param
    case PluginArg(q) => PluginType(q) == param
  }

  /** Reflection's `Invoke` throws when the constructor does, or when an argument has the wrong type. */
  predicate InvokeThrows(c: Ctor, args: seq<Arg>)
    requires |args| == |c.params|
  {
    c.throws || exists i :: 0 <= i < |args| && !Fits(args[i], c.params[i])
  }

  /** What one plugin type yields. `Aborted`: an exception that ends the whole `LoadAssembly`. */
  datatype Outcome = Created(plugin: Plugin, deps: seq<Assembly>) | NoInstance | Aborted

  /** Invoking a usable constructor. */
  function Invoke(t: TypeDesc, c: Ctor, a: Assembly, refs: map<TypeRef, Ref>, table: seq<LoadedAssembly>): Outcome
    requires Full(c, a, refs, table)
  {
    var f := FillParams(c.params, a, refs, table);
    if InvokeThrows(c, f.args) then Aborted else Created(Plugin(t.name, a, f.args), f.deps)
  }

  /** The constructor loop with its `break`: the first usable constructor is invoked. */
  function TryCtors(t: TypeDesc, cs: seq<Ctor>, a: Assembly, refs: map<TypeRef, Ref>, table: seq<LoadedAssembly>): Outcome
    decreases |cs|
  {
    if cs == [] then NoInstance
    else if Full(cs[0], a, refs, table) then Invoke(t, cs[0], a, refs, table)
    else TryCtors(t, cs[1..], a, refs, table)
  }

  /**
   One plugin type. A public parameterless constructor is always used when
   present, and an exception from it only loses that instance.
   */
  function Instance(t: TypeDesc, a: Assembly, refs: map<TypeRef, Ref>, table: seq<LoadedAssembly>): (r: Outcome)
    ensures t.hasDefault ==> r == if t.defaultThrows then NoInstance else Created(Plugin(t.name, a, []), [])
  {
    if t.hasDefault then
      if t.defaultThrows then NoInstance else Created(Plugin(t.name, a, []), [])
    else TryCtors(t, t.ctors, a, refs, table)
  }

  /** The type filter: exported, assignable to OpenPlugin, not abstract, a class. */
  predicate Candidate(t: TypeDesc) {
    t.isPublic && t.isPlugin && !t.isAbstract && t.isClass
  }

  /** The elements of `ys` absent from `xs`, each at its first occurrence in `ys`, in order. */
  function Fresh<T(==)>(xs: seq<T>, ys: seq<T>): seq<T>
    decreases |ys|
  {
    if ys == [] then []
    else
      var y := ys[|ys| - 1];
      Fresh(xs, ys[..|ys| - 1]) + if y !in xs && y !in ys[..|ys| - 1] then [y] else []
  }

  /**
   Adding each element of `ys` that is not yet present: the original list is
   kept as a prefix, and the new elements follow in their order in `ys`.
   */
  function AddAll<T(==,!new)>(xs: seq<T>, ys: seq<T>): (r: seq<T>)
    ensures NoDup(xs) ==> NoDup(r)
    ensures Elems(r) == Elems(xs) + Elems(ys)
    ensures xs <= r && r == xs + Fresh(xs, ys)
    decreases |ys|
  {
    if ys == [] then xs
    else
      var r0 := AddAll(xs, ys[..|ys| - 1]);
      AddAllStep(xs, ys, r0);
      AddUnique(r0, ys[|ys| - 1])
  }

  /** Adding the last element of `ys` to what the elements before it gave. */
  lemma AddAllStep<T(!new)>(xs: seq<T>, ys: seq<T>, r0: seq<T>)
    requires ys != []
    requires Elems(r0) == Elems(xs) + Elems(ys[..|ys| - 1]) && r0 == xs + Fresh(xs, ys[..|ys| - 1])
    ensures Elems(AddUnique(r0, ys[|ys| - 1])) == Elems(xs) + Elems(ys)
    ensures AddUnique(r0, ys[|ys| - 1]) == xs + Fresh(xs, ys)
  {
    var pre, y := ys[..|ys| - 1], ys[|ys| - 1];
    assert Elems(ys) == Elems(pre) + {y} by {
      assert ys == pre + [y];
    }
    assert y in r0 <==> y in xs || y in pre by {
      assert y in r0 <==> y in Elems(r0);
      assert y in pre <==> y in Elems(pre);
      assert y in xs <==> y in Elems(xs);
    }
  }

  /** The accumulators `plugins` and `refAssemblies` of `LoadAssembly`. */
  datatype Batch = Batch(plugins: seq<Plugin>, deps: seq<Assembly>)

  /** One iteration of the loop over the types, on the batch so far; `None` when it throws. */
  function ScanNext(b: Batch, t: TypeDesc, a: Assembly, refs: map<TypeRef, Ref>, table: seq<LoadedAssembly>): Option<Batch> {
    if !Candidate(t) then Some(b)
    else match Instance(t, a, refs, table)
      case NoInstance => Some(b)
      case Aborted => None
      case Created(p, ds) => Some(Batch(b.plugins + [p], AddAll(b.deps, ds)))
  }

  /** The loop over the types; `None` once an exception has aborted it. */
  function Scan(types: seq<TypeDesc>, a: Assembly, refs: map<TypeRef, Ref>, table: seq<LoadedAssembly>): Option<Batch>
    decreases |types|
  {
    if types == [] then Some(Batch([], []))
    else match Scan(types[..|types| - 1], a, refs, table)
      case None => None
      case Some(b) => ScanNext(b, types[|types| - 1], a, refs, table)
  }

  /** The loop over a prefix of the types, extended by one more type. */
  lemma ScanLast(types: seq<TypeDesc>, i: nat, a: Assembly, refs: map<TypeRef, Ref>, table: seq<LoadedAssembly>)
    requires i < |types|
    ensures Scan(types[..i + 1], a, refs, table) ==
      match Scan(types[..i], a, refs, table)
      case None => None
      case Some(b) => ScanNext(b, types[i], a, refs, table)
  {
    assert types[..i + 1][..i] == types[..i];
  }

  /** The plugins the candidate types create, one per type whose instance is created, in type order. */
  function CreatedPlugins(types: seq<TypeDesc>, a: Assembly, refs: map<TypeRef, Ref>, table: seq<LoadedAssembly>): seq<Plugin>
    decreases |types|
  {
    if types == [] then []
    else
      var t := types[|types| - 1];
      var o := Instance(t, a, refs, table);
      CreatedPlugins(types[..|types| - 1], a, refs, table) + if Candidate(t) && o.Created? then [o.plugin] else []
  }

  /** Some candidate type's instance throws out of the type loop. */
  predicate Aborts(types: seq<TypeDesc>, a: Assembly, refs: map<TypeRef, Ref>, table: seq<LoadedAssembly>) {
    exists i :: 0 <= i < |types| && Candidate(types[i]) && Instance(types[i], a, refs, table).Aborted?
  }

  /**
   The type loop aborts exactly when some candidate type's instance throws
   out of it; otherwise it keeps the plugin of every candidate type whose
   instance is created, in type order, and no other.
   */
  lemma {:induction false} ScanComplete(types: seq<TypeDesc>, a: Assembly, refs: map<TypeRef, Ref>, table: seq<LoadedAssembly>)
    ensures Scan(types, a, refs, table).None? <==> Aborts(types, a, refs, table)
    ensures Scan(types, a, refs, table).Some? ==> Scan(types, a, refs, table).value.plugins == CreatedPlugins(types, a, refs, table)
    decreases |types|
  {
    if types != [] {
      var pre := types[..|types| - 1];
      var t := types[|types| - 1];
      ScanComplete(pre, a, refs, table);
      assert forall i :: 0 <= i < |pre| ==> types[i] == pre[i];
      if Aborts(types, a, refs, table) && !Aborts(pre, a, refs, table) {
        var i :| 0 <= i < |types| && Candidate(types[i]) && Instance(types[i], a, refs, table).Aborted?;
        assert i == |types| - 1;
      }
    }
  }

  datatype Instantiation = Instantiation(ok: bool, plugins: seq<Plugin>, deps: seq<Assembly>)

  /**
   `LoadAssembly`: true exactly when no candidate type's instance threw out of
   the type loop and at least one plugin was created; the plugins are then
   those of every candidate type whose instance was created, in type order.
   Otherwise both outputs are empty.
   */
  function Instantiate(a: Assembly, refs: map<TypeRef, Ref>, table: seq<LoadedAssembly>): (r: Instantiation)
    ensures r.ok <==> |r.plugins| > 0
    ensures !r.ok ==> r.deps == []
    ensures r.ok <==> !Aborts(a.types, a, refs, table) && CreatedPlugins(a.types, a, refs, table) != []
    ensures r.ok ==> r.plugins == CreatedPlugins(a.types, a, refs, table)
  {
    ScanComplete(a.types, a, refs, table);
    match Scan(a.types, a, refs, table)
    case None => Instantiation(false, [], [])
    case Some(b) => if |b.plugins| > 0 then Instantiation(true, b.plugins, b.deps) else Instantiation(false, [], [])
  }

  // ---------------------------------------------------------------------------
  // Reference definitions: the arguments each parameter receives, and the
  // assemblies that provide them.

  /** The plugin instances of type `param` among `ps`, as arguments. */
  function Matching(ps: seq<Plugin>, param: TypeRef): seq<Arg>
    decreases |ps|
  {
    if ps == [] then []
    else Matching(ps[..|ps| - 1], param) + (if PluginType(ps[|ps| - 1]) == param then [PluginArg(ps[|ps| - 1])] else [])
  }

  /** The plugin instances of type `param` across the table, in table order. */
  function PluginsOfType(es: seq<LoadedAssembly>, param: TypeRef): seq<Arg>
    decreases |es|
  {
    if es == [] then []
    else PluginsOfType(es[..|es| - 1], param) + Matching(es[|es| - 1].plugins, param)
  }

  /** The arguments one parameter receives, by priority: host, registry, loaded plugins. */
  function ArgsFor(param: TypeRef, refs: map<TypeRef, Ref>, table: seq<LoadedAssembly>): seq<Arg> {
    if param == HostType then [HostArg]
    else if param in refs then [RegistryArg(param, refs[param])]
    else PluginsOfType(table, param)
  }

  function ArgsByParam(params: seq<TypeRef>, refs: map<TypeRef, Ref>, table: seq<LoadedAssembly>): seq<Arg>
    decreases |params|
  {
    if params == [] then []
    else ArgsByParam(params[..|params| - 1], refs, table) + ArgsFor(params[|params| - 1], refs, table)
  }

  /**
   The assembly recorded as a dependency for an argument: a registry object's
   assembly always, a plugin instance's assembly only when it is not the one
   being loaded.
   */
  function ProvidedBy(x: Arg, a: Assembly): Option<Assembly> {
    match x
    case HostArg => None
    case RegistryArg(_, obj) => Some(obj.owner)
    case PluginArg(q) => if q.asm != a then Some(q.asm) else None
  }

  function Providers(args: seq<Arg>, a: Assembly): set<Assembly>
    decreases |args|
  {
    if args == [] then {}
    else
      Providers(args[..|args| - 1], a) +
      (match ProvidedBy(args[|args| - 1], a) case Some(d) => {d} case None => {})
  }

  function AllProviders(ps: seq<Plugin>, a: Assembly): set<Assembly>
    decreases |ps|
  {
    if ps == [] then {} else AllProviders(ps[..|ps| - 1], a) + Providers(ps[|ps| - 1].args, a)
  }

  lemma {:induction false} ProvidersAppend(x: seq<Arg>, y: seq<Arg>, a: Assembly)
    ensures Providers(x + y, a) == Providers(x, a) + Providers(y, a)
    decreases |y|
  {
    if y == [] {
      assert x + y == x;
    } else {
      assert (x + y)[..|x + y| - 1] == x + y[..|y| - 1];
      ProvidersAppend(x, y[..|y| - 1], a);
    }
  }

  /** Matching against one assembly's instances appends exactly the instances of that type. */
  lemma {:induction false} MatchPluginsSpec(ps: seq<Plugin>, owner: Assembly, param: TypeRef, a: Assembly, acc: Fill)
    requires forall q :: q in ps ==> q.asm == owner
    requires NoDup(acc.deps)
    ensures MatchPlugins(ps, owner, param, a, acc).args == acc.args + Matching(ps, param)
    ensures NoDup(MatchPlugins(ps, owner, param, a, acc).deps)
    ensures Elems(MatchPlugins(ps, owner, param, a, acc).deps) == Elems(acc.deps) + Providers(Matching(ps, param), a)
    decreases |ps|
  {
    if ps == [] {
      assert acc.args + [] == acc.args;
    } else {
      var pre := ps[..|ps| - 1];
      var q := ps[|ps| - 1];
      MatchPluginsSpec(pre, owner, param, a, acc);
      var tail: seq<Arg> := if PluginType(q) == param then [PluginArg(q)] else [];
      ProvidersAppend(Matching(pre, param), tail, a);
      if PluginType(q) == param {
        assert tail[..0] == [];
        assert Providers(tail, a) == if owner != a then {owner} else {};
      } else {
        assert Matching(ps, param) == Matching(pre, param);
      }
    }
  }

  lemma OwnedSplit(es: seq<LoadedAssembly>)
    requires InstancesOwned(es) && es != []
    ensures InstancesOwned(es[..|es| - 1])
    ensures forall q :: q in es[|es| - 1].plugins ==> q.asm == es[|es| - 1].asm
  {
    var pre := es[..|es| - 1];
    forall i, q | 0 <= i < |pre| && q in pre[i].plugins ensures q.asm == pre[i].asm {
      assert pre[i] == es[i];
    }
  }

  lemma {:induction false} MatchEntriesSpec(es: seq<LoadedAssembly>, param: TypeRef, a: Assembly, acc: Fill)
    requires InstancesOwned(es)
    requires NoDup(acc.deps)
    ensures MatchEntries(es, param, a, acc).args == acc.args + PluginsOfType(es, param)
    ensures NoDup(MatchEntries(es, param, a, acc).deps)
    ensures Elems(MatchEntries(es, param, a, acc).deps) == Elems(acc.deps) + Providers(PluginsOfType(es, param), a)
    decreases |es|
  {
    if es == [] {
      assert acc.args + [] == acc.args;
    } else {
      var pre := es[..|es| - 1];
      var e := es[|es| - 1];
      OwnedSplit(es);
      MatchEntriesSpec(pre, param, a, acc);
      var mid := MatchEntries(pre, param, a, acc);
      MatchPluginsSpec(e.plugins, e.asm, param, a, mid);
      var p0, m := PluginsOfType(pre, param), Matching(e.plugins, param);
      assert PluginsOfType(es, param) == p0 + m;
      assert MatchEntries(es, param, a, acc) == MatchPlugins(e.plugins, e.asm, param, a, mid);
      assert (acc.args + p0) + m == acc.args + (p0 + m);
      ProvidersAppend(p0, m, a);
    }
  }

  /** Parameters are filled by priority: host, then registry, then every loaded instance of exactly that type. */
  lemma {:induction false} FillByPriority(params: seq<TypeRef>, a: Assembly, refs: map<TypeRef, Ref>, table: seq<LoadedAssembly>)
    requires InstancesOwned(table)
    ensures FillParams(params, a, refs, table).args == ArgsByParam(params, refs, table)
    ensures NoDup(FillParams(params, a, refs, table).deps)
    ensures Elems(FillParams(params, a, refs, table).deps) == Providers(FillParams(params, a, refs, table).args, a)
    decreases |params|
  {
    if params != [] {
      var pre := params[..|params| - 1];
      var p := params[|params| - 1];
      FillByPriority(pre, a, refs, table);
      var acc := FillParams(pre, a, refs, table);
      ProvidersAppend(acc.args, ArgsFor(p, refs, table), a);
      if p == HostType {
        assert Providers([HostArg], a) == {} by { assert [HostArg][..0] == []; }
      } else if p in refs {
        var x := RegistryArg(p, refs[p]);
        assert Providers([x], a) == {refs[p].owner} by { assert [x][..0] == []; }
      } else {
        MatchEntriesSpec(table, p, a, acc);
      }
    }
  }

  /**
   First fit: no instance exactly when no constructor is usable; otherwise the
   outcome is that of the first usable constructor, and no later one is tried.
   */
  lemma FirstFit(t: TypeDesc, cs: seq<Ctor>, a: Assembly, refs: map<TypeRef, Ref>, table: seq<LoadedAssembly>)
    ensures TryCtors(t, cs, a, refs, table).NoInstance? <==> forall k :: 0 <= k < |cs| ==> !Full(cs[k], a, refs, table)
    ensures !TryCtors(t, cs, a, refs, table).NoInstance? ==>
      exists k :: 0 <= k < |cs| && Full(cs[k], a, refs, table) &&
        (forall j :: 0 <= j < k ==> !Full(cs[j], a, refs, table)) &&
        TryCtors(t, cs, a, refs, table) == Invoke(t, cs[k], a, refs, table)
  {
    if !TryCtors(t, cs, a, refs, table).NoInstance? {
      var k := FirstUsable(t, cs, a, refs, table);
    } else {
      forall k | 0 <= k < |cs| ensures !Full(cs[k], a, refs, table) {
        NoneUsable(t, cs, a, refs, table, k);
      }
    }
  }

  /** When an instance is attempted, the index of the constructor used: the first usable one. */
  lemma {:induction false} FirstUsable(t: TypeDesc, cs: seq<Ctor>, a: Assembly, refs: map<TypeRef, Ref>, table: seq<LoadedAssembly>)
    returns (k: nat)
    requires !TryCtors(t, cs, a, refs, table).NoInstance?
    ensures k < |cs| && Full(cs[k], a, refs, table) && (forall j :: 0 <= j < k ==> !Full(cs[j], a, refs, table)) &&
      TryCtors(t, cs, a, refs, table) == Invoke(t, cs[k], a, refs, table)
    decreases |cs|
  {
    if Full(cs[0], a, refs, table) {
      k := 0;
    } else {
      var k0 := FirstUsable(t, cs[1..], a, refs, table);
      k := k0 + 1;
      assert cs[k] == cs[1..][k0];
      forall j | 0 <= j < k ensures !Full(cs[j], a, refs, table) {
        if j > 0 {
          assert cs[j] == cs[1..][j - 1];
        }
      }
    }
  }

  lemma {:induction false} NoneUsable(t: TypeDesc, cs: seq<Ctor>, a: Assembly, refs: map<TypeRef, Ref>, table: seq<LoadedAssembly>, k: nat)
    requires TryCtors(t, cs, a, refs, table).NoInstance? && k < |cs|
    ensures !Full(cs[k], a, refs, table)
    decreases |cs|
  {
    if k > 0 && !Full(cs[0], a, refs, table) {
      NoneUsable(t, cs[1..], a, refs, table, k - 1);
      assert cs[1..][k - 1] == cs[k];
    }
  }

  lemma {:induction false} TryCtorsCreated(t: TypeDesc, cs: seq<Ctor>, a: Assembly, refs: map<TypeRef, Ref>, table: seq<LoadedAssembly>)
    requires InstancesOwned(table)
    ensures TryCtors(t, cs, a, refs, table).Created? ==>
      var o := TryCtors(t, cs, a, refs, table);
      o.plugin.asm == a && o.plugin.typeName == t.name &&
      NoDup(o.deps) && Elems(o.deps) == Providers(o.plugin.args, a)
    decreases |cs|
  {
    if cs != [] {
      if Full(cs[0], a, refs, table) {
        FillByPriority(cs[0].params, a, refs, table);
      } else {
        TryCtorsCreated(t, cs[1..], a, refs, table);
      }
    }
  }

  /** A created plugin belongs to the loaded assembly, and its dependencies are exactly its providers. */
  lemma CreatedSpec(t: TypeDesc, a: Assembly, refs: map<TypeRef, Ref>, table: seq<LoadedAssembly>)
    requires InstancesOwned(table)
    ensures Instance(t, a, refs, table).Created? ==>
      var o := Instance(t, a, refs, table);
      o.plugin.asm == a && o.plugin.typeName == t.name &&
      NoDup(o.deps) && Elems(o.deps) == Providers(o.plugin.args, a)
  {
    if !t.hasDefault {
      TryCtorsCreated(t, t.ctors, a, refs, table);
    } else {
      assert Elems<Assembly>([]) == {};
    }
  }

  /** Once an exception has aborted the type loop, nothing more is scanned. */
  lemma {:induction false} ScanAbortPersists(types: seq<TypeDesc>, j: nat, a: Assembly, refs: map<TypeRef, Ref>, table: seq<LoadedAssembly>)
    requires j <= |types|
    requires Scan(types[..j], a, refs, table).None?
    ensures Scan(types, a, refs, table).None?
    decreases |types|
  {
    if j < |types| {
      assert types[..|types| - 1][..j] == types[..j];
      ScanAbortPersists(types[..|types| - 1], j, a, refs, table);
    } else {
      assert types[..j] == types;
    }
  }

  /** Every plugin of a batch comes from a candidate type of the assembly. */
  predicate FromCandidate(p: Plugin, types: seq<TypeDesc>, a: Assembly) {
    p.asm == a && exists i :: 0 <= i < |types| && Candidate(types[i]) && types[i].name == p.typeName
  }

  lemma {:induction false} ScanSpec(types: seq<TypeDesc>, a: Assembly, refs: map<TypeRef, Ref>, table: seq<LoadedAssembly>)
    requires InstancesOwned(table)
    ensures Scan(types, a, refs, table).Some? ==>
      var b := Scan(types, a, refs, table).value;
      NoDup(b.deps) && Elems(b.deps) == AllProviders(b.plugins, a) &&
      forall p :: p in b.plugins ==> FromCandidate(p, types, a)
    decreases |types|
  {
    if types != [] {
      var pre := types[..|types| - 1];
      var t := types[|types| - 1];
      ScanSpec(pre, a, refs, table);
      CreatedSpec(t, a, refs, table);
      assert forall i :: 0 <= i < |pre| ==> types[i] == pre[i];
      if Scan(types, a, refs, table).Some? && Scan(pre, a, refs, table).Some? {
        var b := Scan(pre, a, refs, table).value;
        if Candidate(t) && Instance(t, a, refs, table).Created? {
          var o := Instance(t, a, refs, table);
          var ps := b.plugins + [o.plugin];
          assert ps[..|ps| - 1] == b.plugins;
          assert Candidate(types[|types| - 1]);
        }
      }
    }
  }

  /**
   Dependency recording: the recorded dependencies of a loaded assembly have no
   duplicates and are exactly the assemblies providing its plugins' injected
   arguments (registry arguments always, plugin arguments only from another
   assembly); every plugin comes from a candidate type of that assembly.
   */
  lemma InstantiateSpec(a: Assembly, refs: map<TypeRef, Ref>, table: seq<LoadedAssembly>)
    requires InstancesOwned(table)
    ensures var r := Instantiate(a, refs, table);
      NoDup(r.deps) && Elems(r.deps) == AllProviders(r.plugins, a) &&
      forall p :: p in r.plugins ==> FromCandidate(p, a.types, a)
  {
    ScanSpec(a.types, a, refs, table);
  }

  lemma FillOne(k: TypeRef, a: Assembly, refs: map<TypeRef, Ref>, table: seq<LoadedAssembly>)
    ensures FillParams([k], a, refs, table) == FillParam(Fill([], []), k, a, refs, table)
  {
    var ps := [k];
    assert ps[..|ps| - 1] == [];
  }

  lemma ScanOne(t: TypeDesc, a: Assembly, refs: map<TypeRef, Ref>, table: seq<LoadedAssembly>, p: Plugin, ds: seq<Assembly>)
    requires Candidate(t) && Instance(t, a, refs, table) == Created(p, ds)
    ensures Scan([t], a, refs, table) == Some(Batch([p], AddAll([], ds)))
  {
    var ts := [t];
    assert ts[..|ts| - 1] == [];
    assert Scan(ts[..|ts| - 1], a, refs, table) == Some(Batch([], []));
    assert [] + [p] == [p];
  }

  /**
   A registry argument's assembly is recorded even when it is the assembly being
   loaded: the loaded assembly then depends on itself.
   */
  lemma RegistrySelfDependency(a: Assembly, t: TypeDesc, k: TypeRef, refs: map<TypeRef, Ref>, table: seq<LoadedAssembly>)
    requires a.types == [t] && Candidate(t) && !t.hasDefault
    requires t.ctors == [Ctor([k], false)]
    requires k != HostType && k in refs && refs[k].owner == a
    ensures Instantiate(a, refs, table) == Instantiation(true, [Plugin(t.name, a, [RegistryArg(k, refs[k])])], [a])
  {
    var x := RegistryArg(k, refs[k]);
    var o := Created(Plugin(t.name, a, [x]), [a]);
    assert Instance(t, a, refs, table) == o by {
      var c := Ctor([k], false);
      FillOne(k, a, refs, table);
      assert FillParams([k], a, refs, table) == Fill([x], [a]);
      assert !InvokeThrows(c, [x]) by { assert Fits(x, k); }
    }
    assert Scan(a.types, a, refs, table) == Some(Batch([o.plugin], [a])) by {
      ScanOne(t, a, refs, table, o.plugin, o.deps);
      assert AddAll([], [a]) == [a] by { assert [a][..0] == []; }
    }
  }
}
