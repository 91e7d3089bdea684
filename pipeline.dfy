/**
 Discovery as specification functions: what `ProcessFile` does to one file,
 what the file loop of `DiscoverPlugins` gathers, how the gathered assemblies
 become table rows, and how many plugins enable without an exception.
 */
module Pipeline {
  import opened World
  import opened Lookup
  import opened Resolution
  import opened Injection
  import opened Tables

  /** The resolved assemblies that `ProcessFile` keeps: first occurrences of those referencing the host. */
  function HostFilter(xs: seq<Assembly>): seq<Assembly>
    decreases |xs|
  {
    if xs == [] then []
    else
      var r := HostFilter(xs[..|xs| - 1]);
      var x := xs[|xs| - 1];
      if x !in r && ReferencesHost(x) then r + [x] else r
  }

  lemma {:induction false} HostFilterSpec(xs: seq<Assembly>)
    ensures NoDup(HostFilter(xs))
    ensures forall x :: x in HostFilter(xs) <==> x in xs && ReferencesHost(x)
    decreases |xs|
  {
    if xs != [] {
      var pre := xs[..|xs| - 1];
      HostFilterSpec(pre);
      assert xs == pre + [xs[|xs| - 1]];
    }
  }

  /** `ProcessFile`'s outcome: the file vanished (it throws), a skip (`null`), or the assemblies it yields. */
  datatype Processed = FileMissing | Skipped | Done(assemblies: seq<Assembly>)

  /** The outcome with the process's assemblies and the name cache afterwards. */
  datatype FileStep = FileStep(result: Processed, domain: seq<Assembly>, cache: map<Name, Assembly>)

  function ProcessSpec(env: Env, lastPath: Option<Path>, domain: seq<Assembly>, cache: map<Name, Assembly>,
                       directory: Path, file: Path): FileStep
  {
    if file !in env.disk then FileStep(FileMissing, domain, cache)
    else match env.disk[file]
      case None => FileStep(Done([]), domain, cache)
      case Some(m) =>
        if IsLoaded(domain, m.name).Some? || m.name in cache || !ReferencesHost(m) then FileStep(Skipped, domain, cache)
        else match PlanRefs(env, lastPath, domain, cache, directory, m.refs)
          case PlanAborted => FileStep(Done([]), domain, cache)
          case Plan(u, ps) =>
            var l := LoadPaths(env, domain, cache, ps);
            if !l.ok then FileStep(Done([]), l.domain, l.cache)
            else FileStep(Done(HostFilter(u + l.loaded) + [m]), AddUnique(l.domain, m), TryAdd(l.cache, m.name, m))
  }

  /**
   `ProcessFile`: a file whose assembly is already loaded, already cached by
   name, or does not reference the host is skipped with nothing changed, and
   nothing is resolved for it. A non-empty result ends with the file's own
   assembly, which is then loaded and cached by name; the elements before it
   are distinct and, like it, reference the host. The name cache never loses
   or changes an entry and the process's assemblies only grow.
   */
  lemma ProcessSpecProperties(env: Env, lastPath: Option<Path>, domain: seq<Assembly>, cache: map<Name, Assembly>,
                              directory: Path, file: Path)
    ensures var s := ProcessSpec(env, lastPath, domain, cache, directory, file);
      (s.result.Skipped? <==>
         file in env.disk && env.disk[file].Some? &&
         var m := env.disk[file].value; IsLoaded(domain, m.name).Some? || m.name in cache || !ReferencesHost(m)) &&
      (s.result.FileMissing? <==> file !in env.disk) &&
      (!s.result.Done? ==> s.domain == domain && s.cache == cache) &&
      (s.result.Done? && s.result.assemblies != [] ==>
         var xs := s.result.assemblies;
         file in env.disk && env.disk[file] == Some(xs[|xs| - 1]) &&
         xs[|xs| - 1].name in s.cache && xs[|xs| - 1] in s.domain &&
         NoDup(xs[..|xs| - 1]) &&
         (forall x :: x in xs ==> ReferencesHost(x))) &&
      (forall k :: k in cache ==> k in s.cache && s.cache[k] == cache[k]) &&
      domain <= s.domain
  {
    var s := ProcessSpec(env, lastPath, domain, cache, directory, file);
    if file in env.disk && env.disk[file].Some? {
      var m := env.disk[file].value;
      if !(IsLoaded(domain, m.name).Some? || m.name in cache || !ReferencesHost(m)) {
        match PlanRefs(env, lastPath, domain, cache, directory, m.refs)
        case PlanAborted =>
        case Plan(u, ps) =>
          var l := LoadPaths(env, domain, cache, ps);
          LoadPathsKeeps(env, domain, cache, ps);
          if l.ok {
            var h := HostFilter(u + l.loaded);
            HostFilterSpec(u + l.loaded);
            var xs := h + [m];
            assert xs[..|xs| - 1] == h;
            assert s.result.assemblies == xs;
          }
      }
    }
  }

  /**
   A readable file that is not skipped is loaded exactly when its references
   resolve (no search throws) and every found path loads; its result is then
   the resolved assemblies that reference the host, the reused ones before
   those loaded from disk and each once, followed by the file's own assembly.
   */
  lemma ProcessLoads(env: Env, lastPath: Option<Path>, domain: seq<Assembly>, cache: map<Name, Assembly>,
                     directory: Path, file: Path)
    ensures var s := ProcessSpec(env, lastPath, domain, cache, directory, file);
      file in env.disk && env.disk[file].Some? && !s.result.Skipped? ==>
        var m := env.disk[file].value;
        var p := PlanRefs(env, lastPath, domain, cache, directory, m.refs);
        s.result.Done? &&
        (s.result.assemblies != [] <==> p.Plan? && LoadPaths(env, domain, cache, p.paths).ok) &&
        (s.result.assemblies != [] ==>
           s.result.assemblies == HostFilter(p.reused + LoadPaths(env, domain, cache, p.paths).loaded) + [m])
  {
  }

  /** The file loop of `DiscoverPlugins`: files counted as processed, assemblies kept, state, and `path`. */
  datatype Gathered = Gathered(processed: nat, assemblies: seq<Assembly>, domain: seq<Assembly>,
                               cache: map<Name, Assembly>, dir: Path)

  function Gather(env: Env, root: Path, domain: seq<Assembly>, cache: map<Name, Assembly>, files: seq<Listed>): Gathered
    decreases |files|
  {
    if files == [] then Gathered(0, [], domain, cache, root)
    else
      var g := Gather(env, root, domain, cache, files[..|files| - 1]);
      var f := files[|files| - 1];
      GatherStep(g, f.dir, ProcessSpec(env, Some(root), g.domain, g.cache, f.dir, f.file))
  }

  lemma GatherLast(env: Env, root: Path, domain: seq<Assembly>, cache: map<Name, Assembly>, files: seq<Listed>, i: nat)
    requires i < |files|
    ensures var g := Gather(env, root, domain, cache, files[..i]);
      Gather(env, root, domain, cache, files[..i + 1]) ==
      GatherStep(g, files[i].dir, ProcessSpec(env, Some(root), g.domain, g.cache, files[i].dir, files[i].file))
  {
    assert files[..i + 1][..i] == files[..i];
  }

  /** One iteration of the file loop, given what `ProcessFile` did. */
  function GatherStep(g: Gathered, dir: Path, s: FileStep): Gathered {
    match s.result
    case FileMissing => g.(dir := dir)
    case Skipped => Gathered(g.processed + 1, g.assemblies, s.domain, s.cache, dir)
    case Done(xs) => Gathered(g.processed + 1, AddAll(g.assemblies, xs), s.domain, s.cache, dir)
  }

  /** The number of listed files that exist on disk. */
  function Existing(env: Env, files: seq<Listed>): nat
    decreases |files|
  {
    if files == [] then 0
    else Existing(env, files[..|files| - 1]) + if files[|files| - 1].file in env.disk then 1 else 0
  }

  /**
   The file loop counts exactly the listed files that exist, keeps each
   assembly once, and keeps only assemblies that reference the host; the
   recorded `path` is the directory of the last listed file.
   */
  lemma {:induction false} GatherSpec(env: Env, root: Path, domain: seq<Assembly>, cache: map<Name, Assembly>, files: seq<Listed>)
    ensures var g := Gather(env, root, domain, cache, files);
      g.processed == Existing(env, files) &&
      NoDup(g.assemblies) &&
      (forall x :: x in g.assemblies ==> ReferencesHost(x)) &&
      g.dir == (if files == [] then root else files[|files| - 1].dir)
    decreases |files|
  {
    if files != [] {
      var pre := files[..|files| - 1];
      var f := files[|files| - 1];
      GatherSpec(env, root, domain, cache, pre);
      var g := Gather(env, root, domain, cache, pre);
      ProcessSpecProperties(env, Some(root), g.domain, g.cache, f.dir, f.file);
      var s := ProcessSpec(env, Some(root), g.domain, g.cache, f.dir, f.file);
      if s.result.Done? {
        var xs := s.result.assemblies;
        var ys := AddAll(g.assemblies, xs);
        forall x | x in ys ensures ReferencesHost(x) {
          assert x in Elems(ys);
          assert x in Elems(g.assemblies) || x in Elems(xs);
        }
      }
    }
  }

  /** What `ProcessFile` gives for listed file `i`, in the state the files before it leave. */
  function FileResult(env: Env, root: Path, domain: seq<Assembly>, cache: map<Name, Assembly>, files: seq<Listed>, i: nat): Processed
    requires i < |files|
  {
    var g := Gather(env, root, domain, cache, files[..i]);
    ProcessSpec(env, Some(root), g.domain, g.cache, files[i].dir, files[i].file).result
  }

  /** The union of what the listed files yielded when loaded, each in the state the files before it leave. */
  ghost function Yielded(env: Env, root: Path, domain: seq<Assembly>, cache: map<Name, Assembly>, files: seq<Listed>): set<Assembly>
    decreases |files|
  {
    if files == [] then {}
    else
      var n := |files| - 1;
      var r := FileResult(env, root, domain, cache, files, n);
      Yielded(env, root, domain, cache, files[..n]) + if r.Done? then Elems(r.assemblies) else {}
  }

  /** The file loop keeps exactly the assemblies that the loaded files yielded: nothing is lost or invented. */
  lemma {:induction false} GatherComplete(env: Env, root: Path, domain: seq<Assembly>, cache: map<Name, Assembly>, files: seq<Listed>)
    ensures Elems(Gather(env, root, domain, cache, files).assemblies) == Yielded(env, root, domain, cache, files)
    decreases |files|
  {
    if files != [] {
      GatherComplete(env, root, domain, cache, files[..|files| - 1]);
      GatherLastElems(env, root, domain, cache, files);
    }
  }

  /** The assemblies after the last listed file: those before it, plus what that file yielded. */
  lemma GatherLastElems(env: Env, root: Path, domain: seq<Assembly>, cache: map<Name, Assembly>, files: seq<Listed>)
    requires files != []
    ensures var n := |files| - 1;
      var r := FileResult(env, root, domain, cache, files, n);
      Elems(Gather(env, root, domain, cache, files).assemblies) ==
      Elems(Gather(env, root, domain, cache, files[..n]).assemblies) + if r.Done? then Elems(r.assemblies) else {}
  {
    var n := |files| - 1;
    var g := Gather(env, root, domain, cache, files[..n]);
    var s := ProcessSpec(env, Some(root), g.domain, g.cache, files[n].dir, files[n].file);
    assert Gather(env, root, domain, cache, files) == GatherStep(g, files[n].dir, s);
    assert FileResult(env, root, domain, cache, files, n) == s.result;
  }

  /** The registration loop; `dup` is the assembly whose `LoadedAssemblies.Add` threw. */
  datatype Registration = Registration(table: seq<LoadedAssembly>, plugins: seq<Plugin>, dup: Option<Assembly>)

  function Register(xs: seq<Assembly>, refs: map<TypeRef, Ref>, table: seq<LoadedAssembly>, origin: Path): Registration
    decreases |xs|
  {
    if xs == [] then Registration(table, [], None)
    else
      var g := Register(xs[..|xs| - 1], refs, table, origin);
      var x := xs[|xs| - 1];
      if g.dup.Some? then g
      else
        var inst := Instantiate(x, refs, g.table);
        if !inst.ok then g
        else if Find(g.table, x).Some? then g.(dup := Some(x))
        else Registration(g.table + [LoadedAssembly(x, inst.plugins, inst.deps, origin)], g.plugins + inst.plugins, None)
  }

  /** Once `LoadedAssemblies.Add` has thrown, the registration loop is over. */
  lemma {:induction false} RegisterDupPersists(xs: seq<Assembly>, refs: map<TypeRef, Ref>, table: seq<LoadedAssembly>,
                                               origin: Path, j: nat)
    requires j <= |xs| && Register(xs[..j], refs, table, origin).dup.Some?
    ensures Register(xs, refs, table, origin) == Register(xs[..j], refs, table, origin)
    decreases |xs|
  {
    if j < |xs| {
      var pre := xs[..|xs| - 1];
      assert pre[..j] == xs[..j];
      RegisterDupPersists(pre, refs, table, origin, j);
    } else {
      assert xs[..j] == xs;
    }
  }

  /**
   Gathered assembly `k` makes `LoadedAssemblies.Add` throw: it yields a
   plugin against the table registration has built by its turn, and that
   table already tracks it.
   */
  predicate DupAt(xs: seq<Assembly>, refs: map<TypeRef, Ref>, table: seq<LoadedAssembly>, origin: Path, k: nat)
    requires k < |xs|
  {
    var g := Register(xs[..k], refs, table, origin);
    Instantiate(xs[k], refs, g.table).ok && xs[k] in Keys(g.table)
  }

  /**
   Registration stops on a duplicate key exactly when some gathered assembly
   makes `LoadedAssemblies.Add` throw; `dup` is then the first such assembly,
   and the table and plugins are those registered before it.
   */
  lemma RegisterStops(xs: seq<Assembly>, refs: map<TypeRef, Ref>, table: seq<LoadedAssembly>, origin: Path)
    ensures var g := Register(xs, refs, table, origin);
      (g.dup.Some? <==> exists k :: 0 <= k < |xs| && DupAt(xs, refs, table, origin, k)) &&
      (g.dup.Some? ==>
         exists k :: 0 <= k < |xs| && DupAt(xs, refs, table, origin, k) &&
           (forall j :: 0 <= j < k ==> !DupAt(xs, refs, table, origin, j)) &&
           g == Register(xs[..k], refs, table, origin).(dup := Some(xs[k])))
  {
    RegisterNoDupAt(xs, refs, table, origin);
    if Register(xs, refs, table, origin).dup.Some? {
      var k := RegisterFirstDup(xs, refs, table, origin);
    }
  }

  /** While no `Add` has thrown, no gathered assembly so far is a duplicate. */
  lemma {:induction false} RegisterNoDupAt(xs: seq<Assembly>, refs: map<TypeRef, Ref>, table: seq<LoadedAssembly>, origin: Path)
    ensures Register(xs, refs, table, origin).dup.None? ==> forall j :: 0 <= j < |xs| ==> !DupAt(xs, refs, table, origin, j)
    decreases |xs|
  {
    if xs != [] {
      var n := |xs| - 1;
      if Register(xs, refs, table, origin).dup.None? {
        DupAtLast(xs, refs, table, origin);
        assert Register(xs[..n], refs, table, origin).dup.None?;
        assert !DupAt(xs, refs, table, origin, n);
        RegisterNoDupAt(xs[..n], refs, table, origin);
        forall j | 0 <= j < |xs| ensures !DupAt(xs, refs, table, origin, j) {
          if j < n {
            DupAtPrefix(xs, n, j, refs, table, origin);
            assert !DupAt(xs[..n], refs, table, origin, j);
          } else {
            assert j == n;
          }
        }
      }
    }
  }

  /** The index of the assembly whose `Add` threw: the first duplicate. */
  lemma {:induction false} RegisterFirstDup(xs: seq<Assembly>, refs: map<TypeRef, Ref>, table: seq<LoadedAssembly>, origin: Path)
    returns (k: nat)
    requires Register(xs, refs, table, origin).dup.Some?
    ensures k < |xs| && DupAt(xs, refs, table, origin, k)
    ensures forall j :: 0 <= j < k ==> !DupAt(xs, refs, table, origin, j)
    ensures Register(xs, refs, table, origin) == Register(xs[..k], refs, table, origin).(dup := Some(xs[k]))
    decreases |xs|
  {
    var n := |xs| - 1;
    var pre := xs[..n];
    DupAtLast(xs, refs, table, origin);
    if Register(pre, refs, table, origin).dup.Some? {
      k := RegisterFirstDup(pre, refs, table, origin);
      forall j | 0 <= j <= k ensures DupAt(xs, refs, table, origin, j) == DupAt(pre, refs, table, origin, j) {
        DupAtPrefix(xs, n, j, refs, table, origin);
      }
      assert pre[..k] == xs[..k];
    } else {
      k := n;
      RegisterNoDupAt(pre, refs, table, origin);
      forall j | 0 <= j < n ensures DupAt(xs, refs, table, origin, j) == DupAt(pre, refs, table, origin, j) {
        DupAtPrefix(xs, n, j, refs, table, origin);
      }
    }
  }

  lemma DupAtPrefix(xs: seq<Assembly>, m: nat, j: nat, refs: map<TypeRef, Ref>, table: seq<LoadedAssembly>, origin: Path)
    requires j < m <= |xs|
    ensures DupAt(xs[..m], refs, table, origin, j) == DupAt(xs, refs, table, origin, j)
  {
    assert xs[..m][j] == xs[j] && xs[..m][..j] == xs[..j];
  }

  /** The step for the last gathered assembly, when nothing has thrown before it. */
  lemma DupAtLast(xs: seq<Assembly>, refs: map<TypeRef, Ref>, table: seq<LoadedAssembly>, origin: Path)
    requires xs != []
    ensures var n := |xs| - 1;
      var g0 := Register(xs[..n], refs, table, origin);
      (g0.dup.Some? ==> Register(xs, refs, table, origin) == g0) &&
      (g0.dup.None? ==>
         (Register(xs, refs, table, origin).dup.Some? <==> DupAt(xs, refs, table, origin, n)) &&
         (DupAt(xs, refs, table, origin, n) ==> Register(xs, refs, table, origin) == g0.(dup := Some(xs[n]))))
  {
    var n := |xs| - 1;
    var g0 := Register(xs[..n], refs, table, origin);
    if xs[n] in Keys(g0.table) {
      var e :| e in g0.table && e.asm == xs[n];
      assert Find(g0.table, xs[n]).Some?;
    }
  }

  /** The instances of the rows appended after the first `n`, in order. */
  function PluginsAfter(t: seq<LoadedAssembly>, n: nat): seq<Plugin>
    requires n <= |t|
    decreases |t| - n
  {
    if n == |t| then [] else t[n].plugins + PluginsAfter(t, n + 1)
  }

  lemma {:induction false} PluginsAfterAppend(t: seq<LoadedAssembly>, n: nat, e: LoadedAssembly)
    requires n <= |t|
    ensures PluginsAfter(t + [e], n) == PluginsAfter(t, n) + e.plugins
    decreases |t| - n
  {
    if n < |t| {
      PluginsAfterAppend(t, n + 1, e);
      assert (t + [e])[n] == t[n];
    } else {
      assert (t + [e])[n] == e;
      assert PluginsAfter(t + [e], n + 1) == [];
    }
  }

  /** Appending a row for an untracked assembly, holding some of its own instances, keeps the table valid. */
  lemma AppendRowValid(t: seq<LoadedAssembly>, e: LoadedAssembly)
    requires Valid(t) && Find(t, e.asm).None?
    requires e.plugins != [] && forall q :: q in e.plugins ==> q.asm == e.asm
    ensures Valid(t + [e])
  {
    var t2 := t + [e];
    assert forall j :: 0 <= j < |t| ==> t2[j] == t[j];
    assert t2[|t|] == e;
  }

  /**
   Registration keeps the table valid and only appends rows: one per gathered
   assembly that yields a plugin, with the discovery's `path` as origin; the
   plugins to enable are exactly those rows' instances. With distinct
   gathered assemblies, a duplicate key can only be an assembly that was
   already tracked before the discovery.
   */
  lemma RegisterSpec(xs: seq<Assembly>, refs: map<TypeRef, Ref>, table: seq<LoadedAssembly>, origin: Path)
    requires Valid(table) && NoDup(xs)
    ensures var g := Register(xs, refs, table, origin);
      Valid(g.table) && table <= g.table &&
      (forall j :: |table| <= j < |g.table| ==> g.table[j].asm in xs && g.table[j].origin == origin) &&
      g.plugins == PluginsAfter(g.table, |table|) &&
      (g.dup.Some? ==> g.dup.value in xs && g.dup.value in Keys(table))
  {
    RegisterTable(xs, refs, table, origin);
    RegisterPlugins(xs, refs, table, origin);
    RegisterDup(xs, refs, table, origin);
  }

  /**
   Each row registration appends holds exactly what `Instantiate` made for its
   assembly against the table as it stood at that assembly's turn, and belongs
   to a gathered assembly; the table before is kept as a prefix.
   */
  lemma {:induction false} RegisterRows(xs: seq<Assembly>, refs: map<TypeRef, Ref>, table: seq<LoadedAssembly>, origin: Path)
    ensures var g := Register(xs, refs, table, origin);
      table <= g.table &&
      forall j :: |table| <= j < |g.table| ==>
        g.table[j].asm in xs &&
        Instantiate(g.table[j].asm, refs, g.table[..j]).ok &&
        g.table[j].plugins == Instantiate(g.table[j].asm, refs, g.table[..j]).plugins &&
        g.table[j].deps == Instantiate(g.table[j].asm, refs, g.table[..j]).deps
    decreases |xs|
  {
    if xs != [] {
      var pre := xs[..|xs| - 1];
      var x := xs[|xs| - 1];
      RegisterRows(pre, refs, table, origin);
      var g := Register(pre, refs, table, origin);
      assert forall y :: y in pre ==> y in xs;
      assert RowsInstantiated(g.table, |table|, pre, refs);
      var inst := Instantiate(x, refs, g.table);
      if g.dup.None? && inst.ok && Find(g.table, x).None? {
        RowsAppend(g.table, |table|, LoadedAssembly(x, inst.plugins, inst.deps, origin), pre, xs, refs);
      } else {
        RowsWiden(g.table, |table|, pre, xs, refs);
      }
    }
  }

  /** Every row after the first `n` holds exactly its assembly's successful `Instantiate` against the rows before it. */
  predicate RowsInstantiated(t: seq<LoadedAssembly>, n: nat, xs: seq<Assembly>, refs: map<TypeRef, Ref>) {
    forall j :: n <= j < |t| ==>
      t[j].asm in xs &&
      Instantiate(t[j].asm, refs, t[..j]).ok &&
      t[j].plugins == Instantiate(t[j].asm, refs, t[..j]).plugins &&
      t[j].deps == Instantiate(t[j].asm, refs, t[..j]).deps
  }

  lemma RowsWiden(t: seq<LoadedAssembly>, n: nat, xs: seq<Assembly>, ys: seq<Assembly>, refs: map<TypeRef, Ref>)
    requires RowsInstantiated(t, n, xs, refs) && forall y :: y in xs ==> y in ys
    ensures RowsInstantiated(t, n, ys, refs)
  {
  }

  /** Appending the row of a successful `Instantiate` against the whole table. */
  lemma RowsAppend(t: seq<LoadedAssembly>, n: nat, e: LoadedAssembly, xs: seq<Assembly>, ys: seq<Assembly>, refs: map<TypeRef, Ref>)
    requires n <= |t| && RowsInstantiated(t, n, xs, refs) && forall y :: y in xs ==> y in ys
    requires e.asm in ys && Instantiate(e.asm, refs, t).ok
    requires e.plugins == Instantiate(e.asm, refs, t).plugins && e.deps == Instantiate(e.asm, refs, t).deps
    ensures RowsInstantiated(t + [e], n, ys, refs)
  {
    var t2 := t + [e];
    forall j | n <= j < |t2|
      ensures t2[j].asm in ys && Instantiate(t2[j].asm, refs, t2[..j]).ok &&
        t2[j].plugins == Instantiate(t2[j].asm, refs, t2[..j]).plugins &&
        t2[j].deps == Instantiate(t2[j].asm, refs, t2[..j]).deps
    {
      if j < |t| {
        assert t2[j] == t[j] && t2[..j] == t[..j];
      } else {
        assert t2[j] == e && t2[..j] == t;
      }
    }
  }

  /**
   The gathered assemblies for which `Instantiate` succeeds at their turn,
   against the table registration has built by then.
   */
  ghost function Instantiable(xs: seq<Assembly>, refs: map<TypeRef, Ref>, table: seq<LoadedAssembly>, origin: Path): set<Assembly>
    decreases |xs|
  {
    if xs == [] then {}
    else
      var n := |xs| - 1;
      Instantiable(xs[..n], refs, table, origin) +
        if Instantiate(xs[n], refs, Register(xs[..n], refs, table, origin).table).ok then {xs[n]} else {}
  }

  /**
   When no `LoadedAssemblies.Add` threw, the tracked assemblies are exactly
   those tracked before plus every gathered assembly `Instantiate` succeeded
   for at its turn: each assembly that yields a plugin is registered.
   */
  lemma {:induction false} RegisterComplete(xs: seq<Assembly>, refs: map<TypeRef, Ref>, table: seq<LoadedAssembly>, origin: Path)
    ensures var g := Register(xs, refs, table, origin);
      g.dup.None? ==> Keys(g.table) == Keys(table) + Instantiable(xs, refs, table, origin)
    decreases |xs|
  {
    if xs != [] {
      RegisterComplete(xs[..|xs| - 1], refs, table, origin);
      RegisterLastKeys(xs, refs, table, origin);
    }
  }

  /** The last gathered assembly adds its key exactly when `Instantiate` succeeds for it and nothing threw. */
  lemma RegisterLastKeys(xs: seq<Assembly>, refs: map<TypeRef, Ref>, table: seq<LoadedAssembly>, origin: Path)
    requires xs != []
    ensures var n := |xs| - 1;
      var g := Register(xs[..n], refs, table, origin);
      var fin := Register(xs, refs, table, origin);
      fin.dup.None? ==>
        g.dup.None? && Keys(fin.table) == Keys(g.table) + if Instantiate(xs[n], refs, g.table).ok then {xs[n]} else {}
  {
    var n := |xs| - 1;
    var g := Register(xs[..n], refs, table, origin);
    var x := xs[n];
    var inst := Instantiate(x, refs, g.table);
    if g.dup.None? && inst.ok && Find(g.table, x).None? {
      var e := LoadedAssembly(x, inst.plugins, inst.deps, origin);
      assert Register(xs, refs, table, origin).table == g.table + [e];
      KeysAppend(g.table, e);
    }
  }

  lemma {:induction false} RegisterTable(xs: seq<Assembly>, refs: map<TypeRef, Ref>, table: seq<LoadedAssembly>, origin: Path)
    requires Valid(table)
    ensures var g := Register(xs, refs, table, origin);
      Valid(g.table) && table <= g.table &&
      (forall j :: |table| <= j < |g.table| ==> g.table[j].asm in xs && g.table[j].origin == origin)
    decreases |xs|
  {
    if xs != [] {
      var pre := xs[..|xs| - 1];
      var x := xs[|xs| - 1];
      RegisterTable(pre, refs, table, origin);
      var g := Register(pre, refs, table, origin);
      var inst := Instantiate(x, refs, g.table);
      if g.dup.None? && inst.ok && Find(g.table, x).None? {
        var e := LoadedAssembly(x, inst.plugins, inst.deps, origin);
        var t2 := g.table + [e];
        assert Register(xs, refs, table, origin).table == t2;
        assert forall q :: q in e.plugins ==> q.asm == x by {
          InstantiateSpec(x, refs, g.table);
          forall q | q in e.plugins ensures q.asm == x {
            assert FromCandidate(q, x.types, x);
          }
        }
        AppendRowValid(g.table, e);
        forall j | |table| <= j < |t2| ensures t2[j].asm in xs && t2[j].origin == origin {
          if j < |g.table| {
            assert t2[j] == g.table[j];
            assert g.table[j].asm in pre;
            var k :| 0 <= k < |pre| && pre[k] == g.table[j].asm;
            assert xs[k] == pre[k];
          } else {
            assert t2[j] == e;
            assert xs[|xs| - 1] == x;
          }
        }
      } else {
        assert forall y :: y in pre ==> y in xs;
      }
    }
  }

  lemma {:induction false} RegisterPlugins(xs: seq<Assembly>, refs: map<TypeRef, Ref>, table: seq<LoadedAssembly>, origin: Path)
    ensures var g := Register(xs, refs, table, origin);
      |table| <= |g.table| && g.plugins == PluginsAfter(g.table, |table|)
    decreases |xs|
  {
    if xs != [] {
      var pre := xs[..|xs| - 1];
      var x := xs[|xs| - 1];
      RegisterPlugins(pre, refs, table, origin);
      var g := Register(pre, refs, table, origin);
      var inst := Instantiate(x, refs, g.table);
      if g.dup.None? && inst.ok && Find(g.table, x).None? {
        var e := LoadedAssembly(x, inst.plugins, inst.deps, origin);
        PluginsAfterAppend(g.table, |table|, e);
      }
    } else {
      assert PluginsAfter(table, |table|) == [];
    }
  }

  lemma {:induction false} RegisterDup(xs: seq<Assembly>, refs: map<TypeRef, Ref>, table: seq<LoadedAssembly>, origin: Path)
    requires Valid(table) && NoDup(xs)
    ensures var g := Register(xs, refs, table, origin);
      g.dup.Some? ==> g.dup.value in xs && g.dup.value in Keys(table)
    decreases |xs|
  {
    if xs != [] {
      var pre := xs[..|xs| - 1];
      var x := xs[|xs| - 1];
      assert forall i :: 0 <= i < |pre| ==> pre[i] == xs[i];
      assert NoDup(pre);
      RegisterDup(pre, refs, table, origin);
      RegisterTable(pre, refs, table, origin);
      var g := Register(pre, refs, table, origin);
      assert forall y :: y in pre ==> y in xs;
      if g.dup.None? && Instantiate(x, refs, g.table).ok && Find(g.table, x).Some? {
        var i := Find(g.table, x).value;
        assert i < |table|;
        assert table[i] == g.table[i];
      }
    }
  }

  /** The enabling loop: how many plugins' `Enabled` returned without throwing. */
  function EnabledCount(env: Env, ps: seq<Plugin>): nat
    decreases |ps|
  {
    if ps == [] then 0
    else EnabledCount(env, ps[..|ps| - 1]) + if PluginType(ps[|ps| - 1]) in env.enableThrows then 0 else 1
  }

  /** The calls the enabling loop makes: `Enabled` once per plugin, in order. */
  function EnableEvents(ps: seq<Plugin>): (r: seq<Event>)
    ensures |r| == |ps| && forall k :: 0 <= k < |ps| ==> r[k] == Enabled(ps[k])
  {
    seq(|ps|, k requires 0 <= k < |ps| => Enabled(ps[k]))
  }

  /** Every plugin counts as enabled exactly when none of their `Enabled` throws. */
  lemma {:induction false} EnabledCountSpec(env: Env, ps: seq<Plugin>)
    ensures EnabledCount(env, ps) <= |ps|
    ensures EnabledCount(env, ps) == |ps| <==> forall p :: p in ps ==> PluginType(p) !in env.enableThrows
    decreases |ps|
  {
    if ps != [] {
      var pre := ps[..|ps| - 1];
      EnabledCountSpec(env, pre);
      assert ps == pre + [ps[|ps| - 1]];
    }
  }
}
