/**
 Pure lookups of the plugin manager: the name checks against the process's
 loaded assemblies and the host, the file-to-name comparison, and the
 prioritised search for a referenced assembly's file.
 */
module Lookup {
  import opened World

  /**
   `IsLoaded`: the first assembly of the process whose name equals `name`
   ignoring case.
   */
  function IsLoaded(domain: seq<Assembly>, name: Name): (r: Option<Assembly>)
    ensures r.None? <==> forall i :: 0 <= i < |domain| ==> !EqualsIgnoreCase(domain[i].name, name)
    ensures r.Some? ==> exists i :: 0 <= i < |domain| && domain[i] == r.value && FirstMatch(domain, name, i)
  {
    if domain == [] then None
    else if EqualsIgnoreCase(domain[0].name, name) then
      assert FirstMatch(domain, name, 0);
      Some(domain[0])
    else
      var r := IsLoaded(domain[1..], name);
      if r.Some? then
        var i :| 0 <= i < |domain[1..]| && domain[1..][i] == r.value && FirstMatch(domain[1..], name, i);
        assert FirstMatch(domain, name, i + 1);
        r
      else r
  }

  /** Position `i` holds the first assembly named `name` ignoring case. */
  predicate FirstMatch(domain: seq<Assembly>, name: Name, i: int) {
    0 <= i < |domain| && EqualsIgnoreCase(domain[i].name, name) &&
    forall j :: 0 <= j < i ==> !EqualsIgnoreCase(domain[j].name, name)
  }

  /**
   `ReferencesHost`, for a module and for a loaded assembly alike: `Any` over
   the declared references, in order, comparing each name with the host's
   ignoring case.
   */
  function ReferencesHost(a: Assembly): (r: bool)
    ensures r <==> exists i :: 0 <= i < |a.refs| && EqualsIgnoreCase(a.refs[i], HostAssemblyName)
    decreases |a.refs|
  {
    if a.refs == [] then false
    else if EqualsIgnoreCase(a.refs[0], HostAssemblyName) then true
    else
      var rest := a.(refs := a.refs[1..]);
      assert forall j :: 0 <= j < |rest.refs| ==> rest.refs[j] == a.refs[j + 1];
      ReferencesHost(rest)
  }

  datatype Comparison = FileNotFound | NotEqual | Match

  /**
   `CompareFileToAssemblyName`: reading the module of a file that is not a .NET
   module throws.
   */
  function CompareFileToAssemblyName(disk: map<Path, Option<Assembly>>, file: Path, name: Name): (r: Try<Comparison>)
    ensures r == Ok(FileNotFound) <==> file !in disk
    ensures r == Throws <==> file in disk && disk[file].None?
    ensures r == Ok(Match) <==> file in disk && disk[file].Some? && EqualsIgnoreCase(name, disk[file].value.name)
    ensures r == Ok(NotEqual) <==> file in disk && disk[file].Some? && !EqualsIgnoreCase(name, disk[file].value.name)
  {
    if file !in disk then Ok(FileNotFound)
    else match disk[file]
      case None => Throws
      case Some(m) => if EqualsIgnoreCase(name, m.name) then Ok(Match) else Ok(NotEqual)
  }

  datatype Search = Found(path: Path) | NotFound | SearchThrew

  /** `CompareFileToAssemblyName(file, name) == Match` as a search step. */
  function NameCheck(disk: map<Path, Option<Assembly>>, file: Path, name: Name): Try<bool> {
    match CompareFileToAssemblyName(disk, file, name)
    case Throws => Throws
    case Ok(c) => Ok(c == Match)
  }

  /**
   `TryFindAssemblyPath`, following the source's nesting: the resolver, the root
   directory, then (only when the root misses) the fallback directories.
   */
  function TryFindAssemblyPath(env: Env, lastPath: Option<Path>, root: Path, name: Name): (r: Search)
    ensures r.Found? ==> r.path in SearchPaths(env, lastPath, root, name)
  {
    if (root, name) in env.resolver then Found(env.resolver[(root, name)])
    else
      var file := Combine(root, DllName(name));
      match NameCheck(env.disk, file, name)
      case Throws => SearchThrew
      case Ok(true) => Found(file)
      case Ok(false) => SearchFallback(env, lastPath, name)
  }

  /** The last scanned directory, then the other directories if it misses. */
  function SearchFallback(env: Env, lastPath: Option<Path>, name: Name): Search {
    var atLast: Try<Option<Path>> :=
      if lastPath.Some? && lastPath.value != "" then
        var f := Combine(lastPath.value, DllName(name));
        match NameCheck(env.disk, f, name)
        case Throws => Throws
        case Ok(m) => Ok(if m then Some(f) else None)
      else Ok(None);
    match atLast
    case Throws => SearchThrew
    case Ok(Some(f)) => Found(f)
    case Ok(None) => SearchOthers(env, name)
  }

  /** The executing assembly's directory (existence only), then the calling assembly's directory. */
  function SearchOthers(env: Env, name: Name): Search {
    if env.executingDir.Some? && Combine(env.executingDir.value, DllName(name)) in env.disk then
      Found(Combine(env.executingDir.value, DllName(name)))
    else if env.callingDir.Some? then
      var f := Combine(env.callingDir.value, DllName(name));
      match NameCheck(env.disk, f, name)
      case Throws => SearchThrew
      case Ok(m) => if m then Found(f) else NotFound
    else NotFound
  }

  /** Every path the search may return. */
  function SearchPaths(env: Env, lastPath: Option<Path>, root: Path, name: Name): set<Path> {
    (if (root, name) in env.resolver then {env.resolver[(root, name)]} else {}) +
    {Combine(root, DllName(name))} +
    (if lastPath.Some? then {Combine(lastPath.value, DllName(name))} else {}) +
    (if env.executingDir.Some? then {Combine(env.executingDir.value, DllName(name))} else {}) +
    (if env.callingDir.Some? then {Combine(env.callingDir.value, DllName(name))} else {})
  }

  // ---------------------------------------------------------------------------
  // An independent reference definition: the search as a list of steps, first hit wins.

  /** One step of the search: the resolver's answer, a name-validated file, or a file that need only exist. */
  datatype Step = ResolverStep(answer: Option<Path>) | NameStep(file: Path) | ExistsStep(file: Path)

  /** What one step yields: a hit, a miss, or an exception. */
  function Probe(disk: map<Path, Option<Assembly>>, s: Step, name: Name): Try<Option<Path>> {
    match s
    case ResolverStep(answer) => Ok(answer)
    case NameStep(f) =>
      (match NameCheck(disk, f, name)
       case Throws => Throws
       case Ok(m) => Ok(if m then Some(f) else None))
    case ExistsStep(f) => Ok(if f in disk then Some(f) else None)
  }

  function FirstHit(disk: map<Path, Option<Assembly>>, steps: seq<Step>, name: Name): Search {
    if steps == [] then NotFound
    else match Probe(disk, steps[0], name)
      case Throws => SearchThrew
      case Ok(Some(p)) => Found(p)
      case Ok(None) => FirstHit(disk, steps[1..], name)
  }

  function LastDirStep(lastPath: Option<Path>, name: Name): seq<Step> {
    if lastPath.Some? && lastPath.value != "" then [NameStep(Combine(lastPath.value, DllName(name)))] else []
  }

  function ExecutingStep(env: Env, name: Name): seq<Step> {
    if env.executingDir.Some? then [ExistsStep(Combine(env.executingDir.value, DllName(name)))] else []
  }

  function CallingStep(env: Env, name: Name): seq<Step> {
    if env.callingDir.Some? then [NameStep(Combine(env.callingDir.value, DllName(name)))] else []
  }

  /** The search order: resolver, root, last scanned directory, executing directory, calling directory. */
  function SearchOrder(env: Env, lastPath: Option<Path>, root: Path, name: Name): seq<Step> {
    [ResolverStep(if (root, name) in env.resolver then Some(env.resolver[(root, name)]) else None),
     NameStep(Combine(root, DllName(name)))] +
    (LastDirStep(lastPath, name) + (ExecutingStep(env, name) + CallingStep(env, name)))
  }

  lemma OthersIsFirstHit(env: Env, name: Name)
    ensures SearchOthers(env, name) == FirstHit(env.disk, ExecutingStep(env, name) + CallingStep(env, name), name)
  {
    FirstHitAppend(env.disk, ExecutingStep(env, name), CallingStep(env, name), name);
    SingleStep(env.disk, ExecutingStep(env, name), name);
    SingleStep(env.disk, CallingStep(env, name), name);
  }

  lemma FallbackIsFirstHit(env: Env, lastPath: Option<Path>, name: Name)
    ensures SearchFallback(env, lastPath, name) ==
      FirstHit(env.disk, LastDirStep(lastPath, name) + (ExecutingStep(env, name) + CallingStep(env, name)), name)
  {
    OthersIsFirstHit(env, name);
    FirstHitAppend(env.disk, LastDirStep(lastPath, name), ExecutingStep(env, name) + CallingStep(env, name), name);
    SingleStep(env.disk, LastDirStep(lastPath, name), name);
  }

  /** The source's nested search is exactly "first hit in the search order". */
  lemma SearchIsFirstHit(env: Env, lastPath: Option<Path>, root: Path, name: Name)
    ensures TryFindAssemblyPath(env, lastPath, root, name) == FirstHit(env.disk, SearchOrder(env, lastPath, root, name), name)
  {
    var s := SearchOrder(env, lastPath, root, name);
    var rest := LastDirStep(lastPath, name) + (ExecutingStep(env, name) + CallingStep(env, name));
    assert s[1..][1..] == rest;
    assert FirstHit(env.disk, s[1..], name) ==
      match Probe(env.disk, NameStep(Combine(root, DllName(name))), name)
      case Throws => SearchThrew
      case Ok(Some(p)) => Found(p)
      case Ok(None) => FirstHit(env.disk, rest, name);
    FallbackIsFirstHit(env, lastPath, name);
  }

  lemma SingleStep(disk: map<Path, Option<Assembly>>, steps: seq<Step>, name: Name)
    requires |steps| <= 1
    ensures FirstHit(disk, steps, name) ==
      if steps == [] then NotFound
      else match Probe(disk, steps[0], name)
        case Throws => SearchThrew
        case Ok(Some(p)) => Found(p)
        case Ok(None) => NotFound
  {
    if steps != [] {
      assert steps[1..] == [];
    }
  }

  /** Searching a concatenation: the first list, then the second if the first misses everywhere. */
  lemma {:induction false} FirstHitAppend(disk: map<Path, Option<Assembly>>, a: seq<Step>, b: seq<Step>, name: Name)
    ensures FirstHit(disk, a + b, name) == if FirstHit(disk, a, name) == NotFound then FirstHit(disk, b, name) else FirstHit(disk, a, name)
  {
    if a != [] {
      assert (a + b)[0] == a[0];
      assert (a + b)[1..] == a[1..] + b;
      FirstHitAppend(disk, a[1..], b, name);
    } else {
      assert a + b == b;
    }
  }

  /** A hit is returned exactly when some step hits and every earlier step misses without throwing. */
  lemma {:induction false} FirstHitFound(disk: map<Path, Option<Assembly>>, steps: seq<Step>, name: Name, p: Path)
    ensures FirstHit(disk, steps, name) == Found(p) <==>
      exists k :: 0 <= k < |steps| && Probe(disk, steps[k], name) == Ok(Some(p)) &&
        forall j :: 0 <= j < k ==> Probe(disk, steps[j], name) == Ok(None)
  {
    if steps != [] {
      FirstHitFound(disk, steps[1..], name, p);
      if FirstHit(disk, steps, name) == Found(p) {
        if Probe(disk, steps[0], name) != Ok(Some(p)) {
          var k :| 0 <= k < |steps[1..]| && Probe(disk, steps[1..][k], name) == Ok(Some(p)) &&
            forall j :: 0 <= j < k ==> Probe(disk, steps[1..][j], name) == Ok(None);
          assert Probe(disk, steps[k + 1], name) == Ok(Some(p));
          assert forall j :: 0 <= j < k + 1 ==> Probe(disk, steps[j], name) == Ok(None) by {
            forall j | 0 <= j < k + 1 ensures Probe(disk, steps[j], name) == Ok(None) {
              if j > 0 { assert steps[j] == steps[1..][j - 1]; }
            }
          }
        }
      } else {
        forall k | 0 <= k < |steps| && Probe(disk, steps[k], name) == Ok(Some(p))
          ensures exists j :: 0 <= j < k && Probe(disk, steps[j], name) != Ok(None)
        {
          if k > 0 && Probe(disk, steps[0], name) == Ok(None) {
            assert steps[1..][k - 1] == steps[k];
            var j :| 0 <= j < k - 1 && Probe(disk, steps[1..][j], name) != Ok(None);
            assert steps[j + 1] == steps[1..][j];
          }
        }
      }
    }
  }

  /** The search fails cleanly exactly when every step misses without throwing. */
  lemma {:induction false} FirstHitNotFound(disk: map<Path, Option<Assembly>>, steps: seq<Step>, name: Name)
    ensures FirstHit(disk, steps, name) == NotFound <==> forall k :: 0 <= k < |steps| ==> Probe(disk, steps[k], name) == Ok(None)
  {
    if steps != [] {
      FirstHitNotFound(disk, steps[1..], name);
      assert forall k :: 0 < k < |steps| ==> steps[k] == steps[1..][k - 1];
      if Probe(disk, steps[0], name) == Ok(None) {
        assert forall k :: 0 <= k < |steps[1..]| ==> steps[1..][k] == steps[k + 1];
      }
    }
  }

  /**
   The executing-directory step validates nothing: once the resolver, the root
   and the last directory miss, any file there is accepted, even one holding a
   differently named assembly or no module at all.
   */
  lemma ExecutingStepAcceptsAnyFile(env: Env, lastPath: Option<Path>, root: Path, name: Name)
    requires (root, name) !in env.resolver
    requires NameCheck(env.disk, Combine(root, DllName(name)), name) == Ok(false)
    requires lastPath.Some? && lastPath.value != "" ==> NameCheck(env.disk, Combine(lastPath.value, DllName(name)), name) == Ok(false)
    requires env.executingDir.Some? && Combine(env.executingDir.value, DllName(name)) in env.disk
    ensures TryFindAssemblyPath(env, lastPath, root, name) == Found(Combine(env.executingDir.value, DllName(name)))
  {
  }
}
