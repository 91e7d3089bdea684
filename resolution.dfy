/**
 Dependency resolution (`TryResolve`) as specification functions: a first pass
 that classifies each declared reference (reused, found on disk, not found,
 search threw), and a second pass that loads every found path.
 */
module Resolution {
  import opened World
  import opened Lookup

  /** A reference already loaded in the process (ignoring case) or already cached by name (exact key). */
  function Reuse(domain: seq<Assembly>, cache: map<Name, Assembly>, r: Name): Option<Assembly> {
    match IsLoaded(domain, r)
    case Some(x) => Some(x)
    case None => if r in cache then Some(cache[r]) else None
  }

  /** What the first pass makes of one reference. */
  datatype Resolved = Reused(asm: Assembly) | Located(path: Path) | Missing | Threw

  /** One reference: reuse it, or search for it (a search that throws aborts the pass). */
  function Resolve(env: Env, lastPath: Option<Path>, domain: seq<Assembly>, cache: map<Name, Assembly>,
                   root: Path, r: Name): Resolved
  {
    match Reuse(domain, cache, r)
    case Some(x) => Reused(x)
    case None =>
      match TryFindAssemblyPath(env, lastPath, root, r)
      case Found(p) => Located(p)
      case NotFound => Missing
      case SearchThrew => Threw
  }

  /** Every reference paired with what the first pass makes of it. */
  function Classify(env: Env, lastPath: Option<Path>, domain: seq<Assembly>, cache: map<Name, Assembly>,
                    root: Path, refs: seq<Name>): seq<(Name, Resolved)>
  {
    seq(|refs|, i requires 0 <= i < |refs| => (refs[i], Resolve(env, lastPath, domain, cache, root, refs[i])))
  }

  /** The first pass: `resolvedAssemblies` and `resolvedPaths`, or an abort when a search threw. */
  datatype Plan = PlanAborted | Plan(reused: seq<Assembly>, paths: seq<(Name, Path)>)

  /** The first pass over classified references, in order. */
  function Accumulate(cs: seq<(Name, Resolved)>): Plan
    decreases |cs|
  {
    if cs == [] then Plan([], [])
    else match Accumulate(cs[..|cs| - 1])
      case PlanAborted => PlanAborted
      case Plan(u, ps) =>
        var (r, c) := cs[|cs| - 1];
        match c
        case Reused(x) => Plan(u + [x], ps)
        case Located(p) => Plan(u, ps + [(r, p)])
        case Missing => Plan(u, ps)
        case Threw => PlanAborted
  }

  function PlanRefs(env: Env, lastPath: Option<Path>, domain: seq<Assembly>, cache: map<Name, Assembly>,
                    root: Path, refs: seq<Name>): Plan
  {
    Accumulate(Classify(env, lastPath, domain, cache, root, refs))
  }

  /** The second pass: the process's assemblies and the name cache as loading proceeds. */
  datatype Loading = Loading(ok: bool, loaded: seq<Assembly>, domain: seq<Assembly>, cache: map<Name, Assembly>)

  function LoadPaths(env: Env, domain: seq<Assembly>, cache: map<Name, Assembly>, paths: seq<(Name, Path)>): Loading
    decreases |paths|
  {
    if paths == [] then Loading(true, [], domain, cache)
    else
      var s := LoadPaths(env, domain, cache, paths[..|paths| - 1]);
      if !s.ok then s
      else
        var (r, p) := paths[|paths| - 1];
        match LoadFrom(env, p)
        case Throws => s.(ok := false)
        case Ok(x) => Loading(true, s.loaded + [x], AddUnique(s.domain, x), TryAdd(s.cache, r, x))
  }

  lemma {:induction false} AccumulateAborted(cs: seq<(Name, Resolved)>)
    ensures Accumulate(cs).PlanAborted? <==> exists i :: 0 <= i < |cs| && cs[i].1 == Threw
    decreases |cs|
  {
    if cs != [] {
      var pre := cs[..|cs| - 1];
      AccumulateAborted(pre);
      assert forall i :: 0 <= i < |pre| ==> pre[i] == cs[i];
    }
  }

  lemma {:induction false} AccumulateReused(cs: seq<(Name, Resolved)>)
    ensures Accumulate(cs).Plan? ==>
      forall x :: x in Accumulate(cs).reused <==> exists i :: 0 <= i < |cs| && cs[i].1 == Reused(x)
    decreases |cs|
  {
    if cs != [] {
      var pre := cs[..|cs| - 1];
      AccumulateReused(pre);
      assert forall i :: 0 <= i < |pre| ==> pre[i] == cs[i];
      if Accumulate(cs).Plan? {
        forall x | exists i :: 0 <= i < |cs| && cs[i].1 == Reused(x)
          ensures x in Accumulate(cs).reused
        {
          var i :| 0 <= i < |cs| && cs[i].1 == Reused(x);
          if i < |pre| {
            assert pre[i].1 == Reused(x);
          }
        }
      }
    }
  }

  lemma {:induction false} AccumulatePaths(cs: seq<(Name, Resolved)>)
    ensures Accumulate(cs).Plan? ==>
      forall r, p :: (r, p) in Accumulate(cs).paths <==> (r, Located(p)) in cs
    decreases |cs|
  {
    if cs != [] {
      var pre := cs[..|cs| - 1];
      var (r0, c) := cs[|cs| - 1];
      AccumulatePaths(pre);
      assert cs == pre + [(r0, c)];
      if Accumulate(cs).Plan? {
        var pl0 := Accumulate(pre);
        assert pl0.Plan?;
        assert Accumulate(cs).paths == pl0.paths + (if c.Located? then [(r0, c.path)] else []);
        forall r, p ensures (r, p) in Accumulate(cs).paths <==> (r, Located(p)) in cs {
          assert (r, Located(p)) in cs <==> (r, Located(p)) in pre || (r, Located(p)) == (r0, c);
        }
      }
    }
  }

  /**
   The first pass aborts exactly when the search for some reference that is
   neither loaded nor cached throws; a reference that is not found does not
   abort it.
   */
  lemma PlanAbortsOnlyOnThrow(env: Env, lastPath: Option<Path>, domain: seq<Assembly>,
                              cache: map<Name, Assembly>, root: Path, refs: seq<Name>)
    ensures PlanRefs(env, lastPath, domain, cache, root, refs).PlanAborted? <==>
      (exists i :: 0 <= i < |refs| && Reuse(domain, cache, refs[i]).None? &&
         TryFindAssemblyPath(env, lastPath, root, refs[i]) == SearchThrew)
  {
    var cs := Classify(env, lastPath, domain, cache, root, refs);
    AccumulateAborted(cs);
    if exists i :: 0 <= i < |cs| && cs[i].1 == Threw {
      var i :| 0 <= i < |cs| && cs[i].1 == Threw;
      ResolveThrew(env, lastPath, domain, cache, root, refs[i]);
    }
    if exists i :: 0 <= i < |refs| && Reuse(domain, cache, refs[i]).None? &&
                  TryFindAssemblyPath(env, lastPath, root, refs[i]) == SearchThrew {
      var i :| 0 <= i < |refs| && Reuse(domain, cache, refs[i]).None? &&
        TryFindAssemblyPath(env, lastPath, root, refs[i]) == SearchThrew;
      ResolveThrew(env, lastPath, domain, cache, root, refs[i]);
      assert cs[i].1 == Threw;
    }
  }

  /** The reused assemblies are exactly those of the references already loaded or cached. */
  lemma PlanReused(env: Env, lastPath: Option<Path>, domain: seq<Assembly>,
                   cache: map<Name, Assembly>, root: Path, refs: seq<Name>)
    ensures var pl := PlanRefs(env, lastPath, domain, cache, root, refs);
      pl.Plan? ==>
        forall x :: x in pl.reused <==> exists i :: 0 <= i < |refs| && Reuse(domain, cache, refs[i]) == Some(x)
  {
    var cs := Classify(env, lastPath, domain, cache, root, refs);
    AccumulateReused(cs);
    if Accumulate(cs).Plan? {
      forall x
        ensures (exists i :: 0 <= i < |cs| && cs[i].1 == Reused(x)) <==>
                (exists i :: 0 <= i < |refs| && Reuse(domain, cache, refs[i]) == Some(x))
      {
        ReusedAtSame(env, lastPath, domain, cache, root, refs, x);
      }
    }
  }

  lemma ReusedAtSame(env: Env, lastPath: Option<Path>, domain: seq<Assembly>,
                     cache: map<Name, Assembly>, root: Path, refs: seq<Name>, x: Assembly)
    ensures var cs := Classify(env, lastPath, domain, cache, root, refs);
      (exists i :: 0 <= i < |cs| && cs[i].1 == Reused(x)) <==>
      (exists i :: 0 <= i < |refs| && Reuse(domain, cache, refs[i]) == Some(x))
  {
    var cs := Classify(env, lastPath, domain, cache, root, refs);
    if exists i :: 0 <= i < |cs| && cs[i].1 == Reused(x) {
      var i :| 0 <= i < |cs| && cs[i].1 == Reused(x);
      ResolveReused(env, lastPath, domain, cache, root, refs[i], x);
    }
    if exists i :: 0 <= i < |refs| && Reuse(domain, cache, refs[i]) == Some(x) {
      var i :| 0 <= i < |refs| && Reuse(domain, cache, refs[i]) == Some(x);
      ResolveReused(env, lastPath, domain, cache, root, refs[i], x);
      assert cs[i].1 == Reused(x);
    }
  }

  lemma ResolveThrew(env: Env, lastPath: Option<Path>, domain: seq<Assembly>,
                     cache: map<Name, Assembly>, root: Path, r: Name)
    ensures Resolve(env, lastPath, domain, cache, root, r) == Threw <==>
      Reuse(domain, cache, r).None? && TryFindAssemblyPath(env, lastPath, root, r) == SearchThrew
  {
  }

  lemma ResolveLocated(env: Env, lastPath: Option<Path>, domain: seq<Assembly>,
                       cache: map<Name, Assembly>, root: Path, r: Name, p: Path)
    ensures Resolve(env, lastPath, domain, cache, root, r) == Located(p) <==>
      Reuse(domain, cache, r).None? && TryFindAssemblyPath(env, lastPath, root, r) == Found(p)
  {
  }

  lemma ResolveReused(env: Env, lastPath: Option<Path>, domain: seq<Assembly>,
                      cache: map<Name, Assembly>, root: Path, r: Name, x: Assembly)
    ensures Resolve(env, lastPath, domain, cache, root, r) == Reused(x) <==> Reuse(domain, cache, r) == Some(x)
  {
  }

  /**
   A path is searched for, and kept, exactly for the references that are
   neither loaded nor cached and that the search finds; a reference that is
   not found contributes nothing.
   */
  lemma PlanPaths(env: Env, lastPath: Option<Path>, domain: seq<Assembly>,
                  cache: map<Name, Assembly>, root: Path, refs: seq<Name>)
    ensures var pl := PlanRefs(env, lastPath, domain, cache, root, refs);
      pl.Plan? ==>
        forall r, p :: (r, p) in pl.paths <==>
           (r in refs && Reuse(domain, cache, r).None? && TryFindAssemblyPath(env, lastPath, root, r) == Found(p))
  {
    var cs := Classify(env, lastPath, domain, cache, root, refs);
    AccumulatePaths(cs);
    if Accumulate(cs).Plan? {
      forall r, p
        ensures (r, Located(p)) in cs <==>
           (r in refs && Reuse(domain, cache, r).None? && TryFindAssemblyPath(env, lastPath, root, r) == Found(p))
      {
        if (r, Located(p)) in cs {
          var i :| 0 <= i < |cs| && cs[i] == (r, Located(p));
          assert refs[i] == r;
          ResolveLocated(env, lastPath, domain, cache, root, r, p);
        }
        if r in refs && Reuse(domain, cache, r).None? && TryFindAssemblyPath(env, lastPath, root, r) == Found(p) {
          var i :| 0 <= i < |refs| && refs[i] == r;
          ResolveLocated(env, lastPath, domain, cache, root, r, p);
          assert cs[i] == (r, Located(p));
        }
      }
    }
  }

  /**
   The second pass fails exactly when some found path does not load. On success
   it loaded every path, in order, and each reference's name is in the cache.
   Existing cache entries are never overwritten and the process's assemblies
   only grow, on failure too.
   */
  lemma LoadPathsSpec(env: Env, domain: seq<Assembly>, cache: map<Name, Assembly>, paths: seq<(Name, Path)>)
    ensures var l := LoadPaths(env, domain, cache, paths);
      (!l.ok <==> exists i :: 0 <= i < |paths| && LoadFrom(env, paths[i].1).Throws?) &&
      (l.ok ==> |l.loaded| == |paths| &&
                (forall i :: 0 <= i < |paths| ==> LoadFrom(env, paths[i].1) == Ok(l.loaded[i]) && paths[i].0 in l.cache)) &&
      (forall k :: k in cache ==> k in l.cache && l.cache[k] == cache[k]) &&
      domain <= l.domain
  {
    LoadPathsFails(env, domain, cache, paths);
    LoadPathsLoaded(env, domain, cache, paths);
    LoadPathsKeeps(env, domain, cache, paths);
  }

  lemma {:induction false} LoadPathsFails(env: Env, domain: seq<Assembly>, cache: map<Name, Assembly>, paths: seq<(Name, Path)>)
    ensures !LoadPaths(env, domain, cache, paths).ok <==> exists i :: 0 <= i < |paths| && LoadFrom(env, paths[i].1).Throws?
    decreases |paths|
  {
    if paths != [] {
      var pre := paths[..|paths| - 1];
      LoadPathsFails(env, domain, cache, pre);
      assert forall i :: 0 <= i < |pre| ==> pre[i] == paths[i];
      var s := LoadPaths(env, domain, cache, pre);
      if !s.ok {
        var i :| 0 <= i < |pre| && LoadFrom(env, pre[i].1).Throws?;
        assert LoadFrom(env, paths[i].1).Throws?;
      }
    }
  }

  lemma {:induction false} LoadPathsLoaded(env: Env, domain: seq<Assembly>, cache: map<Name, Assembly>, paths: seq<(Name, Path)>)
    ensures var l := LoadPaths(env, domain, cache, paths);
      l.ok ==> |l.loaded| == |paths| &&
               (forall i :: 0 <= i < |paths| ==> LoadFrom(env, paths[i].1) == Ok(l.loaded[i]) && paths[i].0 in l.cache)
    decreases |paths|
  {
    if paths != [] {
      var pre := paths[..|paths| - 1];
      LoadPathsLoaded(env, domain, cache, pre);
      var s := LoadPaths(env, domain, cache, pre);
      var l := LoadPaths(env, domain, cache, paths);
      if l.ok {
        assert s.ok;
        var (r, p) := paths[|paths| - 1];
        var x := LoadFrom(env, p).value;
        assert l.loaded == s.loaded + [x] && l.cache == TryAdd(s.cache, r, x);
        forall i | 0 <= i < |paths|
          ensures LoadFrom(env, paths[i].1) == Ok(l.loaded[i]) && paths[i].0 in l.cache
        {
          if i < |pre| {
            assert pre[i] == paths[i];
            assert l.loaded[i] == s.loaded[i];
          }
        }
      }
    }
  }

  lemma {:induction false} LoadPathsKeeps(env: Env, domain: seq<Assembly>, cache: map<Name, Assembly>, paths: seq<(Name, Path)>)
    ensures var l := LoadPaths(env, domain, cache, paths);
      (forall k :: k in cache ==> k in l.cache && l.cache[k] == cache[k]) && domain <= l.domain
    decreases |paths|
  {
    if paths != [] {
      LoadPathsKeeps(env, domain, cache, paths[..|paths| - 1]);
    }
  }

  /** Once the first pass has aborted on a prefix, it has aborted on the whole list. */
  lemma {:induction false} AbortPersists(cs: seq<(Name, Resolved)>, j: nat)
    requires j <= |cs| && Accumulate(cs[..j]).PlanAborted?
    ensures Accumulate(cs).PlanAborted?
    decreases |cs|
  {
    if j < |cs| {
      var pre := cs[..|cs| - 1];
      assert pre[..j] == cs[..j];
      AbortPersists(pre, j);
    } else {
      assert cs[..j] == cs;
    }
  }

  /** Once a load has failed on a prefix, the second pass ends in that state. */
  lemma {:induction false} LoadFailPersists(env: Env, domain: seq<Assembly>, cache: map<Name, Assembly>,
                                            paths: seq<(Name, Path)>, j: nat)
    requires j <= |paths| && !LoadPaths(env, domain, cache, paths[..j]).ok
    ensures LoadPaths(env, domain, cache, paths) == LoadPaths(env, domain, cache, paths[..j])
    decreases |paths|
  {
    if j < |paths| {
      var pre := paths[..|paths| - 1];
      assert pre[..j] == paths[..j];
      LoadFailPersists(env, domain, cache, pre, j);
    } else {
      assert paths[..j] == paths;
    }
  }
}
