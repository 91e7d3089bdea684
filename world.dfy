/**
 The world the plugin manager runs in. Reflection, assembly loading and the
 file system are replaced by plain values: an assembly is its metadata, the
 disk is a map from paths to metadata, and the runtime's dependency resolver
 and directory queries are oracle inputs.
 */
module World {

  type Name = string
  type Path = string

  datatype Option<+T> = None | Some(value: T)

  /** The outcome of a call that may throw an exception. */
  datatype Try<+T> = Ok(value: T) | Throws

  /** A .NET type, identified by the name of its assembly and its full name. */
  datatype TypeRef = TypeRef(assembly: Name, name: Name)

  /** A public constructor: its parameter types, and whether invoking it throws. */
  datatype Ctor = Ctor(params: seq<TypeRef>, throws: bool)

  /** What reflection tells about one type of an assembly. */
  datatype TypeDesc = TypeDesc(
    name: Name,
    isPublic: bool,       // part of GetExportedTypes
    isPlugin: bool,       // assignable to OpenPlugin
    isAbstract: bool,
    isClass: bool,
    hasDefault: bool,     // has a public parameterless constructor
    defaultThrows: bool,  // ... and invoking it throws
    ctors: seq<Ctor>)     // GetConstructors, in declaration order

  /** An assembly: its declared name, the names it references, all its types. */
  datatype Assembly = Assembly(name: Name, refs: seq<Name>, types: seq<TypeDesc>)

  function TypeOf(a: Assembly, t: TypeDesc): TypeRef {
    TypeRef(a.name, t.name)
  }

  /** The host assembly and the host type `OpenAPI` that constructors may request. */
  const HostAssemblyName: Name := "OpenAPI"
  const HostType: TypeRef := TypeRef("OpenAPI", "OpenAPI.OpenAPI")

  /** An object held by the typed-reference registry, with the assembly of its runtime type. */
  datatype Ref = Ref(typeName: Name, owner: Assembly)

  /** A constructor argument, by where the injector found it. */
  datatype Arg =
    | HostArg
    | RegistryArg(key: TypeRef, obj: Ref)
    | PluginArg(plugin: Plugin)

  /** A plugin instance: its type, the assembly defining it, and the arguments it was built with. */
  datatype Plugin = Plugin(typeName: Name, asm: Assembly, args: seq<Arg>)

  function PluginType(p: Plugin): TypeRef {
    TypeRef(p.asm.name, p.typeName)
  }

  /** Calls the manager makes into plugin code and into the command service. */
  datatype Event = Enabled(p: Plugin) | Disabled(p: Plugin) | CommandsUnloaded(p: Plugin)

  /** One row of the plugin table (`LoadedAssembly`). */
  datatype LoadedAssembly = LoadedAssembly(
    asm: Assembly,
    plugins: seq<Plugin>,   // PluginInstances
    deps: seq<Assembly>,    // AssemblyReferences: recorded dependency assemblies
    origin: Path)

  /** Every plugin instance of a row is defined by that row's assembly. */
  predicate InstancesOwned(table: seq<LoadedAssembly>) {
    forall i, q :: 0 <= i < |table| && q in table[i].plugins ==> q.asm == table[i].asm
  }

  /** The set of elements of a sequence. */
  function Elems<T>(s: seq<T>): set<T> {
    set x | x in s
  }

  /** A file found by a recursive directory scan, with its directory. */
  datatype Listed = Listed(dir: Path, file: Path)

  /**
   The environment: `disk` maps each existing file to its metadata (`None` for a
   file that is not a .NET module); `listing` maps each existing directory to its
   recursive `*.dll` enumeration; `resolver` is the dependency resolver keyed by
   (root, reference); `executingDir`/`callingDir` are the directories of the
   executing and calling assemblies; `enableThrows` lists the plugin types whose
   `Enabled` throws.
   */
  datatype Env = Env(
    disk: map<Path, Option<Assembly>>,
    listing: map<Path, seq<Listed>>,
    resolver: map<(Path, Name), Path>,
    executingDir: Option<Path>,
    callingDir: Option<Path>,
    enableThrows: set<TypeRef>)

  function DllName(n: Name): string {
    n + ".dll"
  }

  /** Path.Combine, reduced to joining with a separator. */
  function Combine(dir: Path, file: string): Path {
    if dir == "" then file else dir + "/" + file
  }

  /** Assembly.LoadFrom / LoadFile: succeeds exactly on a file holding a module. */
  function LoadFrom(env: Env, path: Path): (r: Try<Assembly>)
    ensures r.Ok? <==> path in env.disk && env.disk[path].Some?
    ensures r.Ok? ==> env.disk[path] == Some(r.value)
  {
    if path in env.disk && env.disk[path].Some? then Ok(env.disk[path].value) else Throws
  }

  /** Invariant-culture case folding, restricted to ASCII letters. */
  function Lower(c: char): char {
    if 'A' <= c <= 'Z' then (c as int + 32) as char else c
  }

  function Fold(s: string): (r: string)
    ensures |r| == |s|
  {
    seq(|s|, i requires 0 <= i < |s| => Lower(s[i]))
  }

  /** `StringComparison.InvariantCultureIgnoreCase` equality. */
  predicate EqualsIgnoreCase(a: string, b: string) {
    Fold(a) == Fold(b)
  }

  predicate NoDup<T(==)>(s: seq<T>) {
    forall i, j :: 0 <= i < j < |s| ==> s[i] != s[j]
  }

  /** `if (!list.Contains(x)) list.Add(x)` */
  function AddUnique<T(==,!new)>(s: seq<T>, x: T): (r: seq<T>)
    ensures NoDup(s) ==> NoDup(r)
    ensures forall y :: y in r <==> y in s || y == x
    ensures Elems(r) == Elems(s) + {x}
  {
    if x in s then s else s + [x]
  }

  /** `TryAdd` on a dictionary: an existing key keeps its value. */
  function TryAdd<K, V>(m: map<K, V>, k: K, v: V): (r: map<K, V>)
    ensures r.Keys == m.Keys + {k}
    ensures forall j :: j in m ==> r[j] == m[j]
    ensures k !in m ==> r[k] == v
  {
    if k in m then m else m[k := v]
  }
}
