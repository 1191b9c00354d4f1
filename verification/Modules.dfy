/** What loading and unloading do to the list of loaded modules, on values. */
module Modules {

  /** An entry of the module list; handle 0 is the null handle. */
  datatype Module = Module(name: string, handle: int, ffi: bool)

  /** One call of `findOrLoadModule`, together with what its environment would do if the module
      had to be loaded: the handle the platform finds, whether the VM has the plugin built in,
      the loads its initialisers make in turn, and whether they succeed. */
  datatype Attempt = Attempt(name: string, ffi: bool, handle: int, builtIn: bool, nested: seq<Attempt>, ok: bool)

  /** What the outside sees of loading and unloading: handles given out by the platform and given
      back, modules told about an unloading, entries taken out of the list. */
  datatype Event = Acquired(handle: int) | Told(name: string) | Freed(handle: int) | Unlinked(name: string)

  datatype Registry = Registry(
    modules: seq<Module>,
    started: bool,  // the intrinsic module exists
    enabled: bool,  // module loading has not been switched off
    log: seq<Event>)

  datatype Answer = Intrinsic | Found(m: Module) | NotFound

  /** The first entry of that name, or the length of the list. */
  function IndexOf(ms: seq<Module>, name: string): (k: nat)
    ensures k <= |ms|
    ensures k < |ms| ==> ms[k].name == name
    ensures forall j :: 0 <= j < k ==> ms[j].name != name
  {
    if ms == [] || ms[0].name == name then 0 else 1 + IndexOf(ms[1..], name)
  }

  function Without<T>(s: seq<T>, k: nat): seq<T>
    requires k < |s|
  {
    s[..k] + s[k + 1..]
  }

  /** The later list ends in the earlier one: everything new was put in front. */
  predicate EndsIn<T(==)>(later: seq<T>, earlier: seq<T>) {
    |earlier| <= |later| && later[|later| - |earlier|..] == earlier
  }

  function FindOrLoad(g: Registry, a: Attempt): (r: (Registry, Answer))
    ensures |g.modules| <= |r.0.modules|
    decreases a, 1
  {
    var g := g.(started := true);
    if a.name == "" then (g, Intrinsic)
    else
      var k := IndexOf(g.modules, a.name);
      if k < |g.modules| then (g, Found(g.modules[k]))
      else FindAndLoad(g, a)
  }

  /** The null handle is the VM's own: never given out, never given back. */
  function Acquisition(h: int): seq<Event> {
    if h == 0 then [] else [Acquired(h)]
  }

  /** The platform has found the module and it stands in the list: so it is while its
      initialisers run. */
  function Entered(g: Registry, a: Attempt): Registry {
    g.(modules := [Module(a.name, a.handle, a.ffi)] + g.modules, log := g.log + Acquisition(a.handle))
  }

  function FindAndLoad(g: Registry, a: Attempt): (r: (Registry, Answer))
    ensures |g.modules| <= |r.0.modules|
    decreases a, 0
  {
    if !g.enabled || (a.handle == 0 && (a.ffi || !a.builtIn)) then (g, NotFound)
    else if a.ffi then (Entered(g, a), Found(Module(a.name, a.handle, true)))
    else (Initialised(Entered(g, a), a), if a.ok then Found(Module(a.name, a.handle, false)) else NotFound)
  }

  /** An entry is discarded: its handle is given back, then it is unlinked. */
  function Discarding(m: Module): seq<Event> {
    (if m.handle == 0 then [] else [Freed(m.handle)]) + [Unlinked(m.name)]
  }

  /** The initialisers of the first entry have run, and it is out again if they failed. */
  function Initialised(g: Registry, a: Attempt): (r: Registry)
    requires g.modules != []
    ensures |g.modules| - 1 <= |r.modules|
    decreases a.nested, 3
  {
    var during := LoadAll(g, a.nested);
    if a.ok then during
    else during.(modules := Without(during.modules, |during.modules| - |g.modules|),
                 log := during.log + Discarding(Module(a.name, a.handle, a.ffi)))
  }

  /** The loads an initialiser makes, in order. */
  function LoadAll(g: Registry, attempts: seq<Attempt>): (r: Registry)
    ensures |g.modules| <= |r.modules|
    decreases attempts, 2
  {
    if attempts == [] then g else LoadAll(FindOrLoad(g, attempts[0]).0, attempts[1..])
  }

  function Tellings(names: seq<string>): seq<Event> {
    seq(|names|, i requires 0 <= i < |names| => Told(names[i]))
  }

  /** The names told about the unloading of entry `k`: every other one that listens, in order. */
  function Notified(ms: seq<Module>, k: int, listens: Module -> bool): (told: seq<string>) {
    if ms == [] then []
    else (if k != 0 && listens(ms[0]) then [ms[0].name] else []) + Notified(ms[1..], k - 1, listens)
  }

  /** `shutdown` is the answer of the module's shutdown function, true if it has none. The others are
      told first, then the module is discarded. */
  function Unload(g: Registry, name: string, shutdown: bool, listens: Module -> bool): (r: (Registry, bool)) {
    if !g.started || name == "" then (g, false)
    else
      var k := IndexOf(g.modules, name);
      if k == |g.modules| then (g, true)
      else if !g.modules[k].ffi && !shutdown then (g, false)
      else (g.(modules := Without(g.modules, k),
               log := g.log + Tellings(Notified(g.modules, k, listens)) + Discarding(g.modules[k])), true)
  }
}
