/**
 The plugin table `LoadedAssemblies` (a dictionary keyed by assembly, kept here
 as a sequence of rows in enumeration order), the row edits that unloading
 makes, and the two reports read off the table.
 */
module Tables {
  import opened World

  /** `LoadedAssemblies.TryGetValue`: the row of `a`, if any. */
  function Find(t: seq<LoadedAssembly>, a: Assembly): (r: Option<nat>)
    ensures r.Some? ==> r.value < |t| && t[r.value].asm == a && forall j :: 0 <= j < r.value ==> t[j].asm != a
    ensures r.None? <==> forall j :: 0 <= j < |t| ==> t[j].asm != a
    decreases |t|
  {
    if t == [] then None
    else if t[0].asm == a then Some(0)
    else match Find(t[1..], a)
      case None => None
      case Some(i) => Some(i + 1)
  }

  /** The keys of the table. */
  function Keys(t: seq<LoadedAssembly>): set<Assembly> {
    set e | e in t :: e.asm
  }

  predicate KeysDistinct(t: seq<LoadedAssembly>) {
    forall i, j :: 0 <= i < j < |t| ==> t[i].asm != t[j].asm
  }

  /**
   The table's invariant: one row per assembly, every row holds at least one
   plugin instance, and every instance belongs to its row's assembly.
   */
  predicate Valid(t: seq<LoadedAssembly>) {
    KeysDistinct(t) && (forall i :: 0 <= i < |t| ==> t[i].plugins != []) && InstancesOwned(t)
  }

  lemma KeysAppend(t: seq<LoadedAssembly>, e: LoadedAssembly)
    ensures Keys(t + [e]) == Keys(t) + {e.asm}
  {
    assert forall r :: r in t + [e] <==> r in t || r == e;
  }

  /** `LoadedAssemblies.Remove` on the row at `i`. */
  function RemoveAt(t: seq<LoadedAssembly>, i: nat): seq<LoadedAssembly>
    requires i < |t|
  {
    t[..i] + t[i + 1..]
  }

  /** The position of the first occurrence of `p` in `ps`. */
  function FirstIndex(ps: seq<Plugin>, p: Plugin): (k: nat)
    requires p in ps
    ensures k < |ps| && ps[k] == p && p !in ps[..k]
    decreases |ps|
  {
    if ps[0] == p then 0
    else
      assert ps == [ps[0]] + ps[1..];
      var k' := FirstIndex(ps[1..], p);
      assert ps[..k' + 1] == [ps[0]] + ps[1..][..k'];
      k' + 1
  }

  /** `List.Remove`: the first occurrence of `p`, if any, is removed and the rest keep their order. */
  function RemoveFirst(ps: seq<Plugin>, p: Plugin): (r: seq<Plugin>)
    ensures p in ps ==> r == ps[..FirstIndex(ps, p)] + ps[FirstIndex(ps, p) + 1..]
    ensures p !in ps ==> r == ps
    decreases |ps|
  {
    if ps == [] then []
    else
      assert ps == [ps[0]] + ps[1..];
      if ps[0] == p then ps[1..]
      else
        var rest := RemoveFirst(ps[1..], p);
        if p in ps[1..] then RemovedAfterHead(ps, p, rest); [ps[0]] + rest
        else [ps[0]] + rest
  }

  /** Past a different head, the first occurrence of `p` is one further on. */
  lemma RemovedAfterHead(ps: seq<Plugin>, p: Plugin, rest: seq<Plugin>)
    requires ps != [] && ps[0] != p && p in ps[1..]
    requires rest == ps[1..][..FirstIndex(ps[1..], p)] + ps[1..][FirstIndex(ps[1..], p) + 1..]
    ensures [ps[0]] + rest == ps[..FirstIndex(ps, p)] + ps[FirstIndex(ps, p) + 1..]
  {
    var q := ps[1..];
    var k := FirstIndex(q, p);
    assert FirstIndex(ps, p) == k + 1;
    assert ps[..k + 1] == [ps[0]] + q[..k];
    assert ps[k + 2..] == q[k + 1..];
  }

  /** Removing a present instance takes exactly one copy of it out of the list. */
  lemma RemoveFirstCount(ps: seq<Plugin>, p: Plugin)
    requires p in ps
    ensures multiset(RemoveFirst(ps, p)) == multiset(ps) - multiset{p}
  {
    var k := FirstIndex(ps, p);
    assert ps == ps[..k] + [ps[k]] + ps[k + 1..];
  }

  lemma RemoveFirstSubset(ps: seq<Plugin>, p: Plugin)
    ensures forall q :: q in RemoveFirst(ps, p) ==> q in ps
  {
    forall q | q in RemoveFirst(ps, p) ensures q in ps {
      if p in ps {
        RemoveFirstCount(ps, p);
        assert multiset(RemoveFirst(ps, p))[q] <= multiset(ps)[q];
      }
    }
  }

  /** Row `i` with its instance list replaced by `qs`; the row goes when `qs` is empty. */
  function SetPlugins(t: seq<LoadedAssembly>, i: nat, qs: seq<Plugin>): seq<LoadedAssembly>
    requires i < |t|
  {
    if qs == [] then RemoveAt(t, i) else t[i := t[i].(plugins := qs)]
  }

  /** The table after `UnloadPlugin(p)`. */
  function UnloadPluginTable(t: seq<LoadedAssembly>, p: Plugin): seq<LoadedAssembly> {
    match Find(t, p.asm)
    case None => t
    case Some(i) => SetPlugins(t, i, RemoveFirst(t[i].plugins, p))
  }

  /** Removing a row removes exactly that key and keeps every other row. */
  lemma RemoveAtSpec(t: seq<LoadedAssembly>, i: nat)
    requires Valid(t) && i < |t|
    ensures Valid(RemoveAt(t, i))
    ensures forall e :: e in RemoveAt(t, i) <==> e in t && e.asm != t[i].asm
    ensures Keys(RemoveAt(t, i)) == Keys(t) - {t[i].asm}
  {
    RemoveAtValid(t, i);
    RemoveAtMembers(t, i);
  }

  lemma RemoveAtValid(t: seq<LoadedAssembly>, i: nat)
    requires Valid(t) && i < |t|
    ensures Valid(RemoveAt(t, i))
  {
    var r := RemoveAt(t, i);
    assert forall j :: 0 <= j < |r| ==> r[j] == t[if j < i then j else j + 1];
  }

  lemma RemoveAtDistinct(t: seq<LoadedAssembly>, i: nat)
    requires KeysDistinct(t) && i < |t|
    ensures KeysDistinct(RemoveAt(t, i))
  {
    var r := RemoveAt(t, i);
    assert forall j :: 0 <= j < |r| ==> r[j] == t[if j < i then j else j + 1];
  }

  lemma RemoveAtMembers(t: seq<LoadedAssembly>, i: nat)
    requires KeysDistinct(t) && i < |t|
    ensures forall e :: e in RemoveAt(t, i) <==> e in t && e.asm != t[i].asm
  {
    var r := RemoveAt(t, i);
    forall e | e in r ensures e in t && e.asm != t[i].asm {
      var j :| 0 <= j < |r| && r[j] == e;
      if j < i {
        assert r[j] == t[j];
      } else {
        assert r[j] == t[j + 1];
      }
    }
    forall e | e in t && e.asm != t[i].asm ensures e in r {
      var j :| 0 <= j < |t| && t[j] == e;
      if j < i {
        assert r[j] == e;
      } else {
        assert r[j - 1] == e;
      }
    }
  }

  /**
   Replacing a row's instances by some of its own assembly's instances keeps
   every other row; the row stays, with the new list, exactly when the list is
   not empty.
   */
  lemma SetPluginsSpec(t: seq<LoadedAssembly>, i: nat, qs: seq<Plugin>)
    requires Valid(t) && i < |t|
    requires forall q :: q in qs ==> q.asm == t[i].asm
    ensures var r := SetPlugins(t, i, qs);
      Valid(r) &&
      (forall e :: e in t && e.asm != t[i].asm ==> e in r) &&
      (forall e :: e in r && e.asm != t[i].asm ==> e in t) &&
      (t[i].asm in Keys(r) <==> qs != []) &&
      (forall e :: e in r && e.asm == t[i].asm ==> e == t[i].(plugins := qs))
  {
    var r := SetPlugins(t, i, qs);
    if qs == [] {
      RemoveAtSpec(t, i);
    } else {
      assert |r| == |t|;
      assert forall j :: 0 <= j < |r| ==> r[j] == if j == i then t[i].(plugins := qs) else t[j];
      forall e | e in t && e.asm != t[i].asm ensures e in r {
        var j :| 0 <= j < |t| && t[j] == e;
        assert r[j] == e;
      }
      assert r[i] in r;
    }
  }

  /**
   `UnloadPlugin` on the table: an instance of an untracked assembly changes
   nothing; otherwise one occurrence of the instance leaves its row, the row is
   removed exactly when its list becomes empty, and every other row is kept.
   */
  lemma UnloadPluginSpec(t: seq<LoadedAssembly>, p: Plugin)
    requires Valid(t)
    ensures var r := UnloadPluginTable(t, p);
      Valid(r) &&
      (p.asm !in Keys(t) ==> r == t) &&
      (forall e :: e in t && e.asm != p.asm ==> e in r) &&
      (forall e :: e in r && e.asm != p.asm ==> e in t) &&
      (forall i :: 0 <= i < |t| && t[i].asm == p.asm ==>
         (p.asm in Keys(r) <==> RemoveFirst(t[i].plugins, p) != []) &&
         (forall e :: e in r && e.asm == p.asm ==> e == t[i].(plugins := RemoveFirst(t[i].plugins, p))))
  {
    match Find(t, p.asm)
    case None =>
    case Some(i) =>
      RemoveFirstSubset(t[i].plugins, p);
      SetPluginsSpec(t, i, RemoveFirst(t[i].plugins, p));
      assert forall j :: 0 <= j < |t| && t[j].asm == p.asm ==> j == i;
  }

  /** The number of instances in the rows of `t`. */
  function Count(t: seq<LoadedAssembly>): nat
    decreases |t|
  {
    if t == [] then 0 else Count(t[..|t| - 1]) + |t[|t| - 1].plugins|
  }

  /** The plugin types (`AssemblyQualifiedName`) of a list of instances. */
  function TypesOf(ps: seq<Plugin>): (r: seq<TypeRef>)
    ensures |r| == |ps| && forall k :: 0 <= k < |ps| ==> r[k] == PluginType(ps[k])
  {
    seq(|ps|, k requires 0 <= k < |ps| => PluginType(ps[k]))
  }

  /** `GetReferencedPlugins` over a prefix of a row's dependency list. */
  function ReferencedPlugins(t: seq<LoadedAssembly>, deps: seq<Assembly>): seq<TypeRef>
    decreases |deps|
  {
    if deps == [] then []
    else
      ReferencedPlugins(t, deps[..|deps| - 1]) + RowTypes(t, deps[|deps| - 1])
  }

  /** The plugin types of the row tracking `d`, if any. */
  function RowTypes(t: seq<LoadedAssembly>, d: Assembly): seq<TypeRef> {
    match Find(t, d)
    case None => []
    case Some(i) => TypesOf(t[i].plugins)
  }

  lemma RowTypesComplete(t: seq<LoadedAssembly>, i: nat, q: Plugin)
    requires KeysDistinct(t) && i < |t| && q in t[i].plugins
    ensures PluginType(q) in RowTypes(t, t[i].asm)
  {
    FindUnique(t, i);
    var k :| 0 <= k < |t[i].plugins| && t[i].plugins[k] == q;
    assert TypesOf(t[i].plugins)[k] == PluginType(q);
  }

  lemma RowTypesSound(t: seq<LoadedAssembly>, d: Assembly, x: TypeRef)
    requires x in RowTypes(t, d)
    ensures exists i, q :: 0 <= i < |t| && t[i].asm == d && q in t[i].plugins && PluginType(q) == x
  {
    var i := Find(t, d).value;
    var k :| 0 <= k < |t[i].plugins| && TypesOf(t[i].plugins)[k] == x;
    assert t[i].plugins[k] in t[i].plugins;
  }

  /** With distinct keys, the row of a key is found at its own position. */
  lemma FindUnique(t: seq<LoadedAssembly>, i: nat)
    requires KeysDistinct(t) && i < |t|
    ensures Find(t, t[i].asm) == Some(i)
  {
    var f := Find(t, t[i].asm);
    assert f.Some?;
  }

  /** The plugin types of every still-tracked recorded dependency of a row. */
  function GetReferencedPlugins(t: seq<LoadedAssembly>, e: LoadedAssembly): seq<TypeRef> {
    ReferencedPlugins(t, e.deps)
  }

  /** One row of `GetLoadedPlugins`. */
  datatype LoadedPlugin = LoadedPlugin(plugin: Plugin, enabled: bool, dependencies: seq<TypeRef>)

  function Report(t: seq<LoadedAssembly>, es: seq<LoadedAssembly>): seq<LoadedPlugin>
    decreases |es|
  {
    if es == [] then []
    else
      var e := es[|es| - 1];
      Report(t, es[..|es| - 1]) +
      seq(|e.plugins|, k requires 0 <= k < |e.plugins| => LoadedPlugin(e.plugins[k], true, GetReferencedPlugins(t, e)))
  }

  /** `GetLoadedPlugins`: one report per instance, row by row. */
  function GetLoadedPlugins(t: seq<LoadedAssembly>): seq<LoadedPlugin> {
    Report(t, t)
  }

  /**
   A type is reported as a dependency of a row exactly when it is the type of
   an instance held by a row whose assembly the row recorded as a dependency.
   */
  lemma ReferencedPluginsSpec(t: seq<LoadedAssembly>, deps: seq<Assembly>)
    requires KeysDistinct(t)
    ensures forall x :: x in ReferencedPlugins(t, deps) <==>
      exists i, q :: 0 <= i < |t| && t[i].asm in deps && q in t[i].plugins && PluginType(q) == x
  {
    forall x ensures x in ReferencedPlugins(t, deps) <==>
      exists i, q :: 0 <= i < |t| && t[i].asm in deps && q in t[i].plugins && PluginType(q) == x
    {
      if x in ReferencedPlugins(t, deps) {
        ReferencedSound(t, deps, x);
      }
      if exists i, q :: 0 <= i < |t| && t[i].asm in deps && q in t[i].plugins && PluginType(q) == x {
        var i, q :| 0 <= i < |t| && t[i].asm in deps && q in t[i].plugins && PluginType(q) == x;
        ReferencedComplete(t, deps, i, q);
      }
    }
  }

  lemma {:induction false} ReferencedSound(t: seq<LoadedAssembly>, deps: seq<Assembly>, x: TypeRef)
    requires x in ReferencedPlugins(t, deps)
    ensures exists i, q :: 0 <= i < |t| && t[i].asm in deps && q in t[i].plugins && PluginType(q) == x
    decreases |deps|
  {
    var pre := deps[..|deps| - 1];
    var d := deps[|deps| - 1];
    if x in ReferencedPlugins(t, pre) {
      ReferencedSound(t, pre, x);
      var i, q :| 0 <= i < |t| && t[i].asm in pre && q in t[i].plugins && PluginType(q) == x;
      var k :| 0 <= k < |pre| && pre[k] == t[i].asm;
      assert deps[k] == t[i].asm;
    } else {
      RowTypesSound(t, d, x);
      var i, q :| 0 <= i < |t| && t[i].asm == d && q in t[i].plugins && PluginType(q) == x;
      assert deps[|deps| - 1] == t[i].asm;
    }
  }

  lemma {:induction false} ReferencedComplete(t: seq<LoadedAssembly>, deps: seq<Assembly>, i: nat, q: Plugin)
    requires KeysDistinct(t) && i < |t| && t[i].asm in deps && q in t[i].plugins
    ensures PluginType(q) in ReferencedPlugins(t, deps)
    decreases |deps|
  {
    var pre := deps[..|deps| - 1];
    var k :| 0 <= k < |deps| && deps[k] == t[i].asm;
    if k < |pre| {
      assert pre[k] == t[i].asm;
      ReferencedComplete(t, pre, i, q);
    } else {
      RowTypesComplete(t, i, q);
    }
  }

  /**
   `GetLoadedPlugins` reports each instance of each row once, always as
   enabled, with its row's referenced plugin types.
   */
  lemma {:induction false} ReportSpec(t: seq<LoadedAssembly>, es: seq<LoadedAssembly>)
    ensures |Report(t, es)| == Count(es)
    ensures forall lp :: lp in Report(t, es) <==>
      exists i, q :: 0 <= i < |es| && q in es[i].plugins && lp == LoadedPlugin(q, true, GetReferencedPlugins(t, es[i]))
    decreases |es|
  {
    if es != [] {
      var pre := es[..|es| - 1];
      var e := es[|es| - 1];
      ReportSpec(t, pre);
      ReportLast(t, es);
      forall lp ensures lp in Report(t, es) <==> Reported(t, es, lp) {
        ReportedSplit(t, es, lp);
      }
    }
  }

  /** `lp` reports an instance of row `e`. */
  predicate InRow(t: seq<LoadedAssembly>, e: LoadedAssembly, lp: LoadedPlugin) {
    exists q :: q in e.plugins && lp == LoadedPlugin(q, true, GetReferencedPlugins(t, e))
  }

  /** The reports of the last row are exactly the reports of its instances. */
  lemma ReportLast(t: seq<LoadedAssembly>, es: seq<LoadedAssembly>)
    requires es != []
    ensures forall lp :: lp in Report(t, es) <==> lp in Report(t, es[..|es| - 1]) || InRow(t, es[|es| - 1], lp)
  {
    var e := es[|es| - 1];
    var tail := seq(|e.plugins|, k requires 0 <= k < |e.plugins| => LoadedPlugin(e.plugins[k], true, GetReferencedPlugins(t, e)));
    assert Report(t, es) == Report(t, es[..|es| - 1]) + tail;
    forall lp ensures lp in tail <==> InRow(t, e, lp) {
      if InRow(t, e, lp) {
        var q :| q in e.plugins && lp == LoadedPlugin(q, true, GetReferencedPlugins(t, e));
        var k :| 0 <= k < |e.plugins| && e.plugins[k] == q;
        assert tail[k] == lp;
      }
    }
  }

  /** Some row of `es` reports `lp`. */
  predicate Reported(t: seq<LoadedAssembly>, es: seq<LoadedAssembly>, lp: LoadedPlugin) {
    exists i, q :: 0 <= i < |es| && q in es[i].plugins && lp == LoadedPlugin(q, true, GetReferencedPlugins(t, es[i]))
  }

  /** Some row of `es` reports `lp` exactly when a row before the last does, or the last one does. */
  lemma ReportedSplit(t: seq<LoadedAssembly>, es: seq<LoadedAssembly>, lp: LoadedPlugin)
    requires es != []
    ensures Reported(t, es, lp) <==> Reported(t, es[..|es| - 1], lp) || InRow(t, es[|es| - 1], lp)
  {
    var pre := es[..|es| - 1];
    if Reported(t, es, lp) {
      var i, q :| 0 <= i < |es| && q in es[i].plugins && lp == LoadedPlugin(q, true, GetReferencedPlugins(t, es[i]));
      if i < |pre| {
        assert pre[i] == es[i];
      }
    }
    if Reported(t, pre, lp) {
      var i, q :| 0 <= i < |pre| && q in pre[i].plugins && lp == LoadedPlugin(q, true, GetReferencedPlugins(t, pre[i]));
      assert es[i] == pre[i];
    }
  }

  lemma GetLoadedPluginsSpec(t: seq<LoadedAssembly>)
    ensures |GetLoadedPlugins(t)| == Count(t)
    ensures forall lp :: lp in GetLoadedPlugins(t) <==>
      exists i, q :: 0 <= i < |t| && q in t[i].plugins && lp == LoadedPlugin(q, true, GetReferencedPlugins(t, t[i]))
  {
    ReportSpec(t, t);
  }

  /** The calls one `UnloadPlugin` per instance makes, in order, when every row is found. */
  function UnloadEvents(ps: seq<Plugin>): seq<Event>
    decreases |ps|
  {
    if ps == [] then [] else UnloadEvents(ps[..|ps| - 1]) + [Disabled(ps[|ps| - 1]), CommandsUnloaded(ps[|ps| - 1])]
  }

  /** The calls unloading the row of `x` instance by instance make, if `x` is tracked. */
  function RowEvents(t: seq<LoadedAssembly>, x: Assembly): seq<Event> {
    match Find(t, x)
    case None => []
    case Some(i) => UnloadEvents(t[i].plugins)
  }

  /** The registry keys naming a type of one of the assemblies in `s`. */
  function TypeKeys(s: set<Assembly>): set<TypeRef> {
    set x, t | x in s && t in x.types :: TypeOf(x, t)
  }

  lemma TypeKeysUnion(s: set<Assembly>, u: set<Assembly>)
    ensures TypeKeys(s + u) == TypeKeys(s) + TypeKeys(u)
  {
  }

  /**
   Unloading a row's instances one after another, over a snapshot of its list:
   before step `k` the row holds the snapshot's suffix from `k`, the instance
   is found in that row, and the step leaves the suffix from `k + 1` and
   appends that instance's two events to the log `ev` had become.
   */
  lemma UnloadNext(t: seq<LoadedAssembly>, i: nat, k: nat, ev: seq<Event>)
    requires Valid(t) && i < |t| && k < |t[i].plugins|
    ensures var ps := t[i].plugins;
      var cur := SetPlugins(t, i, ps[k..]);
      Find(cur, ps[k].asm) == Some(i) && ps[k].asm in Keys(cur) &&
      UnloadPluginTable(cur, ps[k]) == SetPlugins(t, i, ps[k + 1..]) &&
      ev + UnloadEvents(ps[..k]) + [Disabled(ps[k])] + [CommandsUnloaded(ps[k])] == ev + UnloadEvents(ps[..k + 1])
  {
    var ps := t[i].plugins;
    var cur := SetPlugins(t, i, ps[k..]);
    UnloadEventsNext(ps, k, ev);
    assert ps[k] in t[i].plugins;
    assert cur == t[i := t[i].(plugins := ps[k..])];
    assert cur[i].asm == ps[k].asm;
    assert forall j :: 0 <= j < i ==> cur[j].asm != ps[k].asm;
    assert Find(cur, ps[k].asm) == Some(i);
    assert cur[i] in cur;
    assert RemoveFirst(ps[k..], ps[k]) == ps[k + 1..];
    if ps[k + 1..] != [] {
      assert cur[i := cur[i].(plugins := ps[k + 1..])] == t[i := t[i].(plugins := ps[k + 1..])];
    } else {
      assert RemoveAt(cur, i) == RemoveAt(t, i);
    }
  }

  lemma UnloadEventsNext(ps: seq<Plugin>, k: nat, ev: seq<Event>)
    requires k < |ps|
    ensures ev + UnloadEvents(ps[..k]) + [Disabled(ps[k])] + [CommandsUnloaded(ps[k])] == ev + UnloadEvents(ps[..k + 1])
  {
    assert ps[..k + 1][..k] == ps[..k];
  }

  /** The registry keys naming the types `ts` of assembly `a`. */
  function TypeKeysOf(a: Assembly, ts: seq<TypeDesc>): set<TypeRef> {
    set t | t in ts :: TypeOf(a, t)
  }

  lemma TypeKeysOne(a: Assembly)
    ensures TypeKeys({a}) == TypeKeysOf(a, a.types)
  {
  }

  lemma MapMinusTwice<K, V>(m: map<K, V>, s: set<K>, u: set<K>)
    ensures (m - s) - u == m - (s + u)
  {
  }

  /**
   Removing the registry entries of the keys dropped in one stage and then
   of those dropped in the next is removing those of all keys dropped.
   */
  lemma DroppedInStages<V>(r0: map<TypeRef, V>, k0: set<Assembly>, k1: set<Assembly>, k2: set<Assembly>)
    requires k2 <= k1 <= k0
    ensures (r0 - TypeKeys(k0 - k1)) - TypeKeys(k1 - k2) == r0 - TypeKeys(k0 - k2)
  {
    MapMinusTwice(r0, TypeKeys(k0 - k1), TypeKeys(k1 - k2));
    TypeKeysUnion(k0 - k1, k1 - k2);
    assert (k0 - k1) + (k1 - k2) == k0 - k2;
  }

  // ---------------------------------------------------------------------------
  // What a cascade from an assembly reaches: the tracked assemblies joined to
  // it by recorded dependencies, through none of the assemblies in `stop`.

  /** A row of `x` records `d` as a dependency. */
  predicate DependsOn(t: seq<LoadedAssembly>, x: Assembly, d: Assembly) {
    exists j :: 0 <= j < |t| && t[j].asm == x && d in t[j].deps
  }

  /** Tracked assemblies outside `stop`, each recorded as a dependency of the one before. */
  predicate Chain(t: seq<LoadedAssembly>, stop: set<Assembly>, p: seq<Assembly>) {
    p != [] &&
    (forall k :: 0 <= k < |p| ==> p[k] in Keys(t) && p[k] !in stop) &&
    (forall k :: 0 <= k < |p| - 1 ==> DependsOn(t, p[k], p[k + 1]))
  }

  /** The tracked assemblies a chain from `a` reaches. */
  ghost function Reach(t: seq<LoadedAssembly>, a: Assembly, stop: set<Assembly>): set<Assembly> {
    set x | x in Keys(t) && exists p :: Chain(t, stop, p) && p[0] == a && p[|p| - 1] == x
  }

  /** Every tracked dependency of an assembly in `r` is in `r` or in `stop`. */
  ghost predicate Closed(t: seq<LoadedAssembly>, stop: set<Assembly>, r: set<Assembly>) {
    forall x, d :: x in r && DependsOn(t, x, d) && d in Keys(t) ==> d in r || d in stop
  }

  lemma ReachRoot(t: seq<LoadedAssembly>, a: Assembly, stop: set<Assembly>)
    requires a in Keys(t) && a !in stop
    ensures a in Reach(t, a, stop)
  {
    assert Chain(t, stop, [a]);
  }

  /** Nothing is reached from an untracked assembly, and nothing in `stop` is ever reached. */
  lemma ReachOutside(t: seq<LoadedAssembly>, a: Assembly, stop: set<Assembly>)
    ensures a !in Keys(t) ==> Reach(t, a, stop) == {}
    ensures forall x :: x in Reach(t, a, stop) ==> x in Keys(t) && x !in stop
  {
    forall x | x in Reach(t, a, stop) ensures a in Keys(t) && x !in stop {
      var p :| Chain(t, stop, p) && p[0] == a && p[|p| - 1] == x;
      assert p[|p| - 1] !in stop;
    }
  }

  /** What a cascade reaches is closed under recorded dependencies. */
  lemma ReachClosed(t: seq<LoadedAssembly>, a: Assembly, stop: set<Assembly>)
    ensures Closed(t, stop, Reach(t, a, stop))
  {
    forall x, d | x in Reach(t, a, stop) && DependsOn(t, x, d) && d in Keys(t) && d !in stop
      ensures d in Reach(t, a, stop)
    {
      var p :| Chain(t, stop, p) && p[0] == a && p[|p| - 1] == x;
      var q := p + [d];
      assert forall k :: 0 <= k < |p| ==> q[k] == p[k];
      assert Chain(t, stop, q);
    }
  }

  /** Every closed set holding `a` holds all that a cascade from `a` reaches: `Reach` is the least one. */
  lemma ClosedHoldsReach(t: seq<LoadedAssembly>, stop: set<Assembly>, r: set<Assembly>, a: Assembly)
    requires a in r && Closed(t, stop, r)
    ensures Reach(t, a, stop) <= r
  {
    forall x | x in Reach(t, a, stop) ensures x in r {
      var p :| Chain(t, stop, p) && p[0] == a && p[|p| - 1] == x;
      ChainInside(t, stop, r, p, |p| - 1);
    }
  }

  lemma {:induction false} ChainInside(t: seq<LoadedAssembly>, stop: set<Assembly>, r: set<Assembly>, p: seq<Assembly>, k: nat)
    requires Chain(t, stop, p) && p[0] in r && Closed(t, stop, r) && k < |p|
    ensures p[k] in r
  {
    if k > 0 {
      ChainInside(t, stop, r, p, k - 1);
      assert DependsOn(t, p[k - 1], p[k]);
    }
  }

  /**
   A cascade from a dependency `d` of `a`, run on a table with fewer rows and
   more assemblies to stop at, reaches only what the cascade from `a` reaches.
   */
  lemma ReachFromDependency(t: seq<LoadedAssembly>, u: seq<LoadedAssembly>, stop: set<Assembly>, ustop: set<Assembly>,
                            a: Assembly, d: Assembly)
    requires forall e :: e in u ==> e in t
    requires stop <= ustop && a in Keys(t) && a !in stop && DependsOn(t, a, d)
    ensures Reach(u, d, ustop) <= Reach(t, a, stop)
  {
    forall x | x in Reach(u, d, ustop) ensures x in Reach(t, a, stop) {
      var p :| Chain(u, ustop, p) && p[0] == d && p[|p| - 1] == x;
      ChainPrepend(t, u, stop, ustop, a, p);
      assert ([a] + p)[|p|] == x;
    }
  }

  lemma ChainPrepend(t: seq<LoadedAssembly>, u: seq<LoadedAssembly>, stop: set<Assembly>, ustop: set<Assembly>,
                     a: Assembly, p: seq<Assembly>)
    requires forall e :: e in u ==> e in t
    requires stop <= ustop && a in Keys(t) && a !in stop && Chain(u, ustop, p) && DependsOn(t, a, p[0])
    ensures Chain(t, stop, [a] + p)
  {
    var q := [a] + p;
    assert forall k :: 0 < k < |q| ==> q[k] == p[k - 1];
    forall k | 0 <= k < |q| - 1 ensures DependsOn(t, q[k], q[k + 1]) {
      if k > 0 {
        assert DependsOn(u, p[k - 1], p[k]);
        DependsOnLift(t, u, p[k - 1], p[k]);
      }
    }
    forall k | 0 < k < |q| ensures q[k] in Keys(t) && q[k] !in stop {
      assert p[k - 1] in Keys(u);
    }
  }

  /** A dependency recorded in a table whose rows are all rows of `t` is recorded in `t`. */
  lemma DependsOnLift(t: seq<LoadedAssembly>, u: seq<LoadedAssembly>, x: Assembly, d: Assembly)
    requires (forall e :: e in u ==> e in t) && DependsOn(u, x, d)
    ensures DependsOn(t, x, d) && x in Keys(u)
  {
    var j :| 0 <= j < |u| && u[j].asm == x && d in u[j].deps;
    assert u[j] in u;
    var j2 :| 0 <= j2 < |t| && t[j2] == u[j];
  }

  /**
   One step of the guarded dependency loop: when the removed rows so far are
   closed and reached from `a`, removing what a cascade from the dependency
   `d` reaches (stopping at `visiting` and `a`) keeps both properties.
   */
  lemma CascadeStep(t0: seq<LoadedAssembly>, t1: seq<LoadedAssembly>, t2: seq<LoadedAssembly>,
                    a: Assembly, visiting: set<Assembly>, d: Assembly)
    requires KeysDistinct(t0)
    requires (forall e :: e in t1 ==> e in t0) && (forall e :: e in t2 ==> e in t1)
    requires a in Keys(t0) && a !in visiting && DependsOn(t0, a, d)
    requires Closed(t0, visiting + {a}, Keys(t0) - Keys(t1))
    requires Keys(t0) - Keys(t1) <= Reach(t0, a, visiting)
    requires Keys(t2) == Keys(t1) - Reach(t1, d, visiting + {a})
    ensures Closed(t0, visiting + {a}, Keys(t0) - Keys(t2))
    ensures Keys(t0) - Keys(t2) <= Reach(t0, a, visiting)
  {
    var v := visiting + {a};
    var rd := Reach(t1, d, v);
    ReachFromDependency(t0, t1, visiting, v, a, d);
    ReachClosed(t1, d, v);
    forall x, e | x in Keys(t0) - Keys(t2) && DependsOn(t0, x, e) && e in Keys(t0)
      ensures e in Keys(t0) - Keys(t2) || e in v
    {
      if x in Keys(t1) {
        assert x in rd;
        var j :| 0 <= j < |t0| && t0[j].asm == x && e in t0[j].deps;
        var r1 :| r1 in t1 && r1.asm == x;
        var j1 :| 0 <= j1 < |t0| && t0[j1] == r1;
        assert j1 == j;
        var i1 :| 0 <= i1 < |t1| && t1[i1] == r1;
        assert DependsOn(t1, x, e);
      }
    }
  }

  /**
   The whole state after one recursive cascade from the dependency `d`, as the
   guarded dependency loop of `a` keeps it: rows only go, the rows of
   `visiting` and `a` stay, the removed rows are closed and reached from `a`,
   and the registry has lost exactly their types.
   */
  lemma DependencyUnloaded<V>(t0: seq<LoadedAssembly>, t1: seq<LoadedAssembly>, t2: seq<LoadedAssembly>,
                              r0: map<TypeRef, V>, r2: map<TypeRef, V>, a: Assembly, visiting: set<Assembly>, d: Assembly)
    requires KeysDistinct(t0)
    requires (forall e :: e in t1 ==> e in t0) && (forall e :: e in t2 ==> e in t1)
    requires forall e :: e in t0 && (e.asm in visiting || e.asm == a) ==> e in t1
    requires forall e :: e in t1 && e.asm !in Reach(t1, d, visiting + {a}) ==> e in t2
    requires a in Keys(t0) && a !in visiting && DependsOn(t0, a, d)
    requires Closed(t0, visiting + {a}, Keys(t0) - Keys(t1))
    requires Keys(t0) - Keys(t1) <= Reach(t0, a, visiting)
    requires Keys(t2) == Keys(t1) - Reach(t1, d, visiting + {a})
    requires r2 == (r0 - TypeKeys(Keys(t0) - Keys(t1))) - TypeKeys(Reach(t1, d, visiting + {a}))
    requires d in Keys(t1) && d != a && d !in visiting
    ensures Keys(t2) <= Keys(t1) && d !in Keys(t2)
    ensures forall e :: e in t2 ==> e in t0
    ensures forall e :: e in t0 && (e.asm in visiting || e.asm == a) ==> e in t2
    ensures Closed(t0, visiting + {a}, Keys(t0) - Keys(t2))
    ensures Keys(t0) - Keys(t2) <= Reach(t0, a, visiting)
    ensures r2 == r0 - TypeKeys(Keys(t0) - Keys(t2))
  {
    ReachOutside(t1, d, visiting + {a});
    ReachRoot(t1, d, visiting + {a});
    CascadeStep(t0, t1, t2, a, visiting, d);
    assert Keys(t1) - Keys(t2) == Reach(t1, d, visiting + {a});
    assert Keys(t1) <= Keys(t0);
    DroppedInStages(r0, Keys(t0), Keys(t1), Keys(t2));
  }

  /**
   The end of the guarded cascade from `a`: once every recorded dependency of
   `a` is stopped at or removed and then `a`'s row goes, the rows removed are
   exactly those a cascade from `a` reaches.
   */
  lemma CascadeRoot(t0: seq<LoadedAssembly>, t1: seq<LoadedAssembly>, t2: seq<LoadedAssembly>,
                    a: Assembly, visiting: set<Assembly>, i: nat)
    requires KeysDistinct(t0) && i < |t0| && t0[i].asm == a && a !in visiting
    requires forall e :: e in t1 ==> e in t0
    requires Closed(t0, visiting + {a}, Keys(t0) - Keys(t1))
    requires Keys(t0) - Keys(t1) <= Reach(t0, a, visiting)
    requires forall d :: d in t0[i].deps ==> d in visiting || d == a || d !in Keys(t1)
    requires Keys(t2) == Keys(t1) - {a}
    ensures Keys(t2) == Keys(t0) - Reach(t0, a, visiting)
  {
    var k0 := Keys(t0);
    var r := k0 - Keys(t2);
    assert Keys(t1) <= k0;
    assert r == (k0 - Keys(t1)) + {a};
    forall x, e | x in r && DependsOn(t0, x, e) && e in k0 ensures e in r || e in visiting {
      if x == a {
        var j :| 0 <= j < |t0| && t0[j].asm == x && e in t0[j].deps;
        assert j == i;
      }
    }
    ReachRoot(t0, a, visiting);
    ClosedHoldsReach(t0, visiting, r, a);
  }

  /**
   The whole state the guarded cascade from the row `i` of `a` leaves: the rows
   removed, the rows kept and the registry entries lost are exactly those of
   the assemblies a cascade from `a` reaches.
   */
  lemma CascadeDone<V>(t0: seq<LoadedAssembly>, t1: seq<LoadedAssembly>, t2: seq<LoadedAssembly>,
                       r0: map<TypeRef, V>, r2: map<TypeRef, V>, a: Assembly, visiting: set<Assembly>, i: nat)
    requires KeysDistinct(t0) && i < |t0| && t0[i].asm == a && a !in visiting
    requires (forall e :: e in t1 ==> e in t0) && (forall e :: e in t2 ==> e in t1)
    requires Closed(t0, visiting + {a}, Keys(t0) - Keys(t1))
    requires Keys(t0) - Keys(t1) <= Reach(t0, a, visiting)
    requires forall d :: d in t0[i].deps ==> d in visiting || d == a || d !in Keys(t1)
    requires a in Keys(t1) && Keys(t2) == Keys(t1) - {a}
    requires r2 == (r0 - TypeKeys(Keys(t0) - Keys(t1))) - TypeKeys({a})
    ensures forall e :: e in t2 ==> e in t0
    ensures Keys(t2) == Keys(t0) - Reach(t0, a, visiting)
    ensures forall e :: e in t0 && e.asm !in Reach(t0, a, visiting) ==> e in t2
    ensures r2 == r0 - TypeKeys(Reach(t0, a, visiting))
  {
    assert Keys(t1) - Keys(t2) == {a};
    CascadeRoot(t0, t1, t2, a, visiting, i);
    KeptRows(t0, t2, Reach(t0, a, visiting));
    assert Keys(t1) <= Keys(t0);
    DroppedInStages(r0, Keys(t0), Keys(t1), Keys(t2));
    ReachOutside(t0, a, visiting);
    assert Keys(t0) - Keys(t2) == Reach(t0, a, visiting);
  }

  /** A log that extends `a` is `a` followed by what came after. */
  lemma PrefixSplit<T>(a: seq<T>, b: seq<T>)
    requires a <= b
    ensures b == a + b[|a|..]
  {
  }

  lemma IndexOf(t: seq<LoadedAssembly>, e: LoadedAssembly) returns (w: nat)
    requires e in t
    ensures w < |t| && t[w] == e
  {
    w :| 0 <= w < |t| && t[w] == e;
  }

  /** When the keys left are the old keys minus `r`, every old row outside `r` is still there. */
  lemma KeptRows(t0: seq<LoadedAssembly>, t2: seq<LoadedAssembly>, r: set<Assembly>)
    requires KeysDistinct(t0) && (forall e :: e in t2 ==> e in t0) && Keys(t2) == Keys(t0) - r
    ensures forall e :: e in t0 && e.asm !in r ==> e in t2
  {
    forall e | e in t0 && e.asm !in r ensures e in t2 {
      assert e.asm in Keys(t2);
      var e2 :| e2 in t2 && e2.asm == e.asm;
      var j :| 0 <= j < |t0| && t0[j] == e;
      var j2 :| 0 <= j2 < |t0| && t0[j2] == e2;
    }
  }

  // ---------------------------------------------------------------------------
  // The cascade as written: every recorded dependency that is still tracked is
  // unloaded first, before anything is removed, with nothing that stops a
  // dependency cycle. `fuel` bounds the recursion depth; `None` means it was
  // exhausted.

  function CascadeAsWritten(t: seq<LoadedAssembly>, a: Assembly, fuel: nat): Option<seq<LoadedAssembly>>
    decreases fuel, 1
  {
    match Find(t, a)
    case None => Some(t)
    case Some(i) =>
      match CascadeDeps(t, t[i].deps, fuel)
      case None => None
      case Some(t1) =>
        match Find(t1, a)
        case None => Some(t1)
        case Some(j) => Some(RemoveAt(t1, j))
  }

  function CascadeDeps(t: seq<LoadedAssembly>, ds: seq<Assembly>, fuel: nat): Option<seq<LoadedAssembly>>
    decreases fuel, 0, |ds|
  {
    if ds == [] then Some(t)
    else match CascadeDeps(t, ds[..|ds| - 1], fuel)
      case None => None
      case Some(t1) =>
        if Find(t1, ds[|ds| - 1]).None? then Some(t1)
        else if fuel == 0 then None
        else CascadeAsWritten(t1, ds[|ds| - 1], fuel - 1)
  }

  /**
   A row that records its own assembly among its dependencies sends the
   unguarded cascade into itself before that row can be removed: no recursion
   depth is enough.
   */
  lemma SelfLoopNeverReturns(t: seq<LoadedAssembly>, i: nat, fuel: nat)
    requires KeysDistinct(t) && i < |t| && t[i].asm in t[i].deps
    ensures CascadeAsWritten(t, t[i].asm, fuel) == None
  {
    SelfLoopFrom(t, t[i], fuel);
  }

  lemma {:induction false} SelfLoopFrom(t: seq<LoadedAssembly>, row: LoadedAssembly, fuel: nat)
    requires KeysDistinct(t) && row in t && row.asm in row.deps
    ensures CascadeAsWritten(t, row.asm, fuel) == None
    decreases fuel, 1
  {
    var i :| 0 <= i < |t| && t[i] == row;
    assert Find(t, row.asm) == Some(i);
    SelfDepsNeverReturn(t, row.deps, fuel, row);
  }

  /** The dependency loop never returns once it reaches the self-dependent row's own assembly. */
  lemma {:induction false} SelfDepsNeverReturn(t: seq<LoadedAssembly>, ds: seq<Assembly>, fuel: nat, row: LoadedAssembly)
    requires KeysDistinct(t) && row in t && row.asm in row.deps && row.asm in ds
    ensures CascadeDeps(t, ds, fuel) == None
    decreases fuel, 0, |ds|
  {
    var pre := ds[..|ds| - 1];
    assert ds == pre + [ds[|ds| - 1]];
    if row.asm in pre {
      SelfDepsNeverReturn(t, pre, fuel, row);
    } else if CascadeDeps(t, pre, fuel).Some? {
      var t1 := CascadeDeps(t, pre, fuel).value;
      CascadeDepsKeepsRow(t, pre, fuel, row);
      var j :| 0 <= j < |t1| && t1[j] == row;
      assert Find(t1, row.asm).Some? by { assert Find(t1, row.asm) == Some(j); }
      if fuel > 0 {
        SelfLoopFrom(t1, row, fuel - 1);
      }
    }
  }

  /** A dependency loop that returns leaves the self-dependent row in place. */
  lemma {:induction false} CascadeDepsKeepsRow(t: seq<LoadedAssembly>, ds: seq<Assembly>, fuel: nat, row: LoadedAssembly)
    requires KeysDistinct(t) && row in t && row.asm in row.deps
    requires CascadeDeps(t, ds, fuel).Some?
    ensures KeysDistinct(CascadeDeps(t, ds, fuel).value) && row in CascadeDeps(t, ds, fuel).value
    decreases fuel, 0, |ds|
  {
    if ds != [] {
      var pre := ds[..|ds| - 1];
      var b := ds[|ds| - 1];
      CascadeDepsKeepsRow(t, pre, fuel, row);
      var t1 := CascadeDeps(t, pre, fuel).value;
      if Find(t1, b).Some? {
        if b == row.asm {
          SelfLoopFrom(t1, row, fuel - 1);
        } else {
          CascadeKeepsRow(t1, b, fuel - 1, row);
        }
      }
    }
  }

  /** A cascade from another assembly that returns leaves the self-dependent row in place. */
  lemma {:induction false} CascadeKeepsRow(t: seq<LoadedAssembly>, b: Assembly, fuel: nat, row: LoadedAssembly)
    requires KeysDistinct(t) && row in t && row.asm in row.deps && b != row.asm
    requires CascadeAsWritten(t, b, fuel).Some?
    ensures KeysDistinct(CascadeAsWritten(t, b, fuel).value) && row in CascadeAsWritten(t, b, fuel).value
    decreases fuel, 1
  {
    match Find(t, b)
    case None =>
    case Some(i) =>
      CascadeDepsKeepsRow(t, t[i].deps, fuel, row);
      var t1 := CascadeDeps(t, t[i].deps, fuel).value;
      match Find(t1, b)
      case None =>
      case Some(j) =>
        RemoveAtDistinct(t1, j);
        RemoveAtMembers(t1, j);
  }
}
