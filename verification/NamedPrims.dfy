/** The module list as the program keeps it: a linked list spliced in place. */
module NamedPrims {
  import opened Modules

  class ModuleEntry {
    var next: ModuleEntry?
    const name: string
    const handle: int
    const ffiLoaded: bool

    constructor (name: string, handle: int, ffiLoaded: bool, next: ModuleEntry?)
      ensures this.name == name && this.handle == handle && this.ffiLoaded == ffiLoaded && this.next == next
    {
      this.name, this.handle, this.ffiLoaded, this.next := name, handle, ffiLoaded, next;
    }

    function Value(): Module {
      Module(name, handle, ffiLoaded)
    }
  }

  /** Names, handles and flags never change, so what the entries stand for needs no heap. */
  ghost function Values(entries: seq<ModuleEntry>): (ms: seq<Module>)
    ensures |ms| == |entries|
  {
    seq(|entries|, i requires 0 <= i < |entries| => entries[i].Value())
  }

  /** One round of the walk that tells the others: `told` so far, entry `i` next. */
  lemma OneMoreToTell(ms: seq<Module>, k: nat, listens: Module -> bool, i: nat, told: seq<string>)
    requires i < |ms|
    ensures told + Notified(ms[i..], k - i, listens) ==
            (if i != k && listens(ms[i]) then told + [ms[i].name] else told) + Notified(ms[i + 1..], k - (i + 1), listens)
    ensures Tellings(told + [ms[i].name]) == Tellings(told) + [Told(ms[i].name)]
  {
    assert ms[i..][0] == ms[i] && ms[i..][1..] == ms[i + 1..];
    var rest := Notified(ms[i + 1..], k - i - 1, listens);
    assert told + ([ms[i].name] + rest) == (told + [ms[i].name]) + rest;
  }

  class ModuleList {
    var firstModule: ModuleEntry?
    var squeakModule: ModuleEntry?
    var moduleLoadingEnabled: bool
    var log: seq<Event>  // handles given out and back, modules told, entries unlinked, in order
    ghost var entries: seq<ModuleEntry>  // the list, from firstModule on
    ghost var Repr: set<ModuleEntry>

    /** The entries are linked in order, and only they are. */
    ghost predicate Valid()
      reads this, Repr
    {
      && (forall i :: 0 <= i < |entries| ==> entries[i] in Repr)
      && (squeakModule == null ==> entries == [])
      && firstModule == (if entries == [] then null else entries[0])
      && (forall i, j :: 0 <= i < j < |entries| ==> entries[i] != entries[j])
      && (forall i, j :: 0 <= i < |entries| && j == i + 1 < |entries| ==> entries[i].next == entries[j])
      && (entries != [] ==> entries[|entries| - 1].next == null)
    }

    ghost function Contents(): Registry
      reads this
    {
      Registry(Values(entries), squeakModule != null, moduleLoadingEnabled, log)
    }

    constructor ()
      ensures Valid() && fresh(Repr) && Contents() == Registry([], false, true, [])
    {
      firstModule, squeakModule, moduleLoadingEnabled := null, null, true;
      log := [];
      entries, Repr := [], {};
    }

    method DisableModuleLoading()
      requires Valid()
      modifies this`moduleLoadingEnabled
      ensures Valid() && Contents() == old(Contents()).(enabled := false)
    {
      moduleLoadingEnabled := false;
    }

    method FindLoadedModule(name: string) returns (module_: ModuleEntry?)
      requires Valid()
      ensures name == "" ==> module_ == squeakModule
      ensures name != "" ==>
                var k := IndexOf(Values(entries), name);
                module_ == if k < |entries| then entries[k] else null
    {
      if name == "" {
        return squeakModule;
      }
      module_ := firstModule;
      ghost var i := 0;
      while module_ != null
        invariant 0 <= i <= |entries|
        invariant module_ == if i < |entries| then entries[i] else null
        invariant forall k :: 0 <= k < i ==> Values(entries)[k].name != name
        decreases |entries| - i
      {
        if module_.name == name {
          IndexIs(Values(entries), name, i);
          return;
        }
        module_ := module_.next;
        i := i + 1;
      }
    }

    static lemma IndexIs(ms: seq<Module>, name: string, i: nat)
      requires i < |ms| && ms[i].name == name && forall k :: 0 <= k < i ==> ms[k].name != name
      ensures IndexOf(ms, name) == i
    {
    }

    method AddToModuleList(name: string, handle: int, ffiFlag: bool) returns (entry: ModuleEntry)
      requires Valid() && (squeakModule == null ==> entries == [])
      modifies this`firstModule, this`entries, this`Repr
      ensures Repr == old(Repr) + {entry}
      ensures fresh(entry) && entry.Value() == Module(name, handle, ffiFlag)
      ensures entries == [entry] + old(entries) && firstModule == entry
      ensures squeakModule != null ==> Valid()
      ensures entry.next == old(firstModule)
    {
      entry := new ModuleEntry(name, handle, ffiFlag, firstModule);
      firstModule := entry;
      entries, Repr := [entry] + entries, Repr + {entry};
    }

    /** Unlinks the entry; everything else keeps its place. */
    method RemoveFromList(entry: ModuleEntry, ghost k: nat)
      requires Valid() && k < |entries| && entries[k] == entry
      modifies this`firstModule, this`entries, this`log, Repr
      ensures Valid() && entries == Without(old(entries), k)
      ensures Values(entries) == Without(Values(old(entries)), k)
      ensures log == old(log) + [Unlinked(entry.name)]
    {
      ghost var less := Without(entries, k);
      assert forall i :: 0 <= i < |less| ==> less[i] == entries[if i < k then i else i + 1];
      if entry == firstModule {
        firstModule := entry.next;
      } else {
        var prev := firstModule;
        ghost var i := 0;
        while prev.next != entry
          invariant 0 <= i < k && prev == entries[i]
          decreases k - i
        {
          prev := prev.next;
          i := i + 1;
        }
        assert entries[i].next == entries[i + 1];
        prev.next := entry.next;
      }
      assert k > 0 ==> entries[k - 1].next == entry.next;
      assert forall i :: 0 <= i < |entries| && i != k - 1 ==> entries[i].next == old(entries[i].next);
      assert entry.next == if k + 1 < |entries| then entries[k + 1] else null;
      entries := less;
      log := log + [Unlinked(entry.name)];
    }

    method FindOrLoadModule(a: Attempt) returns (module_: ModuleEntry?)
      requires Valid()
      modifies this`firstModule, this`squeakModule, this`log, this`entries, this`Repr, Repr
      ensures Valid() && EndsIn(entries, old(entries)) && squeakModule != null
      ensures fresh(Repr - old(Repr))
      ensures Contents() == FindOrLoad(old(Contents()), a).0
      ensures Answers(module_, FindOrLoad(old(Contents()), a).1)
      decreases a, 1
    {
      Start();
      module_ := FindLoadedModule(a.name);
      if module_ == null {
        assert FindOrLoad(old(Contents()), a) == FindAndLoad(Contents(), a);
        module_ := FindAndLoadModule(a);
      }
    }

    /** Makes the intrinsic module, which is no member of the list. */
    method Start()
      requires Valid()
      modifies this`firstModule, this`entries, this`Repr, this`squeakModule
      ensures Valid() && squeakModule != null && entries == old(entries)
      ensures Contents() == old(Contents()).(started := true)
      ensures fresh(Repr - old(Repr))
    {
      if squeakModule == null {
        squeakModule := AddToModuleList("", 0, true);
        firstModule := null;
        entries := [];
      }
    }

    ghost predicate Answers(module_: ModuleEntry?, answer: Answer)
      reads this
    {
      match answer
      case Intrinsic => module_ != null && module_ == squeakModule
      case Found(m) => module_ != null && module_.Value() == m
      case NotFound => module_ == null
    }

    method FindAndLoadModule(a: Attempt) returns (module_: ModuleEntry?)
      requires Valid() && squeakModule != null
      modifies this`firstModule, this`squeakModule, this`log, this`entries, this`Repr, Repr
      ensures Valid() && EndsIn(entries, old(entries)) && squeakModule != null
      ensures fresh(Repr - old(Repr))
      ensures Contents() == FindAndLoad(old(Contents()), a).0
      ensures Answers(module_, FindAndLoad(old(Contents()), a).1)
      decreases a, 0
    {
      module_ := null;
      if moduleLoadingEnabled {
        var handle := LoadModule(a);
        if handle != 0 || (!a.ffi && a.builtIn) {
          module_ := Enter(a, handle);
          if !a.ffi {
            module_ := Initialise(module_, a);
          }
        }
      }
    }

    /** The module found, with the handle already logged, is put in the list. */
    method Enter(a: Attempt, handle: int) returns (entry: ModuleEntry)
      requires Valid() && squeakModule != null && handle == a.handle
      modifies this`firstModule, this`entries, this`Repr
      ensures Valid() && squeakModule != null && fresh(Repr - old(Repr)) && old(Repr) <= Repr
      ensures entries == [entry] + old(entries) && entry.Value() == Module(a.name, a.handle, a.ffi)
      ensures Contents() == old(Contents()).(modules := [entry.Value()] + old(Contents()).modules)
    {
      entry := AddToModuleList(a.name, handle, a.ffi);
      assert Values(entries) == [entry.Value()] + old(Values(entries));
    }

    /** The second half of a load: the initialisers of the entry just put in front run, and the
        entry is taken out again if they fail. */
    method Initialise(entry: ModuleEntry, a: Attempt) returns (module_: ModuleEntry?)
      requires Valid() && squeakModule != null
      requires entries != [] && entries[0] == entry && entry.Value() == Module(a.name, a.handle, a.ffi)
      modifies this`firstModule, this`squeakModule, this`log, this`entries, this`Repr, Repr
      ensures Valid() && EndsIn(entries, old(entries)[1..]) && squeakModule != null
      ensures fresh(Repr - old(Repr))
      ensures Contents() == Initialised(old(Contents()), a)
      ensures module_ == if a.ok then entry else null
      decreases a.nested, 3
    {
      ghost var n := |entries|;
      var okay := CallInitializers(a.nested, a.ok);
      ghost var k := |entries| - n;
      assert entries[k] == entries[k..][0] == entry;
      assert entries[k + 1..] == entries[k..][1..] == old(entries)[1..];
      module_ := entry;
      if !okay {
        Discard(entry, k);
        module_ := null;
      }
    }

    /** Gives an entry's handle back, unless it is the VM's own, and takes it out of the list. */
    method Discard(entry: ModuleEntry, ghost k: nat)
      requires Valid() && k < |entries| && entries[k] == entry
      modifies this`firstModule, this`entries, this`log, Repr
      ensures Valid() && entries == Without(old(entries), k)
      ensures Contents() == old(Contents()).(modules := Without(old(Contents()).modules, k),
                                             log := old(log) + Discarding(entry.Value()))
    {
      if entry.handle != 0 {
        FreeModule(entry.handle);
      }
      RemoveFromList(entry, k);
      assert log == old(log) + Discarding(entry.Value());
    }

    /** The initialisers load other modules before they report. */
    method CallInitializers(nested: seq<Attempt>, ok: bool) returns (okay: bool)
      requires Valid() && squeakModule != null
      modifies this`firstModule, this`squeakModule, this`log, this`entries, this`Repr, Repr
      ensures Valid() && EndsIn(entries, old(entries)) && squeakModule != null
      ensures fresh(Repr - old(Repr))
      ensures Contents() == LoadAll(old(Contents()), nested) && okay == ok
      decreases nested, 2
    {
      if nested != [] {
        var _ := FindOrLoadModule(nested[0]);
        var _ := CallInitializers(nested[1..], ok);
      }
      okay := ok;
    }

    method LoadModule(a: Attempt) returns (handle: int)
      modifies this`log
      ensures handle == a.handle && log == old(log) + Acquisition(handle)
    {
      handle := a.handle;
      log := log + Acquisition(handle);
    }

    method FreeModule(handle: int)
      requires handle != 0
      modifies this`log
      ensures log == old(log) + [Freed(handle)]
    {
      log := log + [Freed(handle)];
    }

    /** `shutdown`: what the module's shutdown function answers, true if it has none;
        `listens`: which modules export a function to be told about unloadings. */
    method UnloadModule(name: string, shutdown: bool, listens: Module -> bool) returns (answer: bool)
      requires Valid()
      modifies this, Repr
      ensures Valid()
      ensures (Contents(), answer) == Unload(old(Contents()), name, shutdown, listens)
    {
      if squeakModule == null || name == "" {
        return false;
      }
      var entry := FindLoadedModule(name);
      if entry == null {
        return true;
      }
      if !entry.ffiLoaded && !shutdown {
        return false;
      }
      ghost var k := IndexOf(Values(entries), name);
      NotifyAll(entry, k, listens);
      Discard(entry, k);
      answer := true;
    }

    /** Calls a module's function for being told about unloadings. */
    method Tell(name: string)
      modifies this`log
      ensures log == old(log) + [Told(name)]
    {
      log := log + [Told(name)];
    }

    /** Tells every other module that listens, walking the list from its start. */
    method NotifyAll(entry: ModuleEntry, ghost k: nat, listens: Module -> bool)
      requires Valid() && k < |entries| && entries[k] == entry
      modifies this`log
      ensures log == old(log) + Tellings(Notified(Values(entries), k, listens))
    {
      var temp := firstModule;
      ghost var i, ms, told := 0, Values(entries), [];
      assert ms[0..] == ms;
      while temp != null
        invariant 0 <= i <= |entries|
        invariant temp == if i < |entries| then entries[i] else null
        invariant told + Notified(ms[i..], k - i, listens) == Notified(ms, k, listens)
        invariant log == old(log) + Tellings(told)
        decreases |entries| - i
      {
        assert temp == entry <==> k == i;
        OneMoreToTell(ms, k, listens, i, told);
        if temp != entry && listens(temp.Value()) {
          Tell(temp.name);
          told := told + [temp.name];
        }
        temp := temp.next;
        i := i + 1;
      }
      assert ms[i..] == [] && told == Notified(ms, k, listens);
    }
  }
}
