/** What holds of the module list over any sequence of loads, nested loads, failed loads and
    unloads. */
module ModuleFacts {
  import opened Modules

  ghost predicate Distinct(ms: seq<Module>) {
    forall i, j :: 0 <= i < j < |ms| ==> ms[i].name != ms[j].name
  }

  function Handle(h: int): seq<int> {
    if h == 0 then [] else [h]
  }

  function AcquiredBy(e: Event): seq<int> {
    if e.Acquired? then [e.handle] else []
  }

  /** The handles given out and given back. */
  function AcquiredIn(log: seq<Event>): seq<int> {
    if log == [] then [] else AcquiredBy(log[0]) + AcquiredIn(log[1..])
  }

  function FreedBy(e: Event): seq<int> {
    if e.Freed? then [e.handle] else []
  }

  function FreedIn(log: seq<Event>): seq<int> {
    if log == [] then [] else FreedBy(log[0]) + FreedIn(log[1..])
  }

  lemma {:induction false} LogAppend(a: seq<Event>, b: seq<Event>)
    ensures AcquiredIn(a + b) == AcquiredIn(a) + AcquiredIn(b)
    ensures FreedIn(a + b) == FreedIn(a) + FreedIn(b)
  {
    if a == [] {
      assert a + b == b;
    } else {
      var rest := a[1..];
      assert (a + b)[0] == a[0] && (a + b)[1..] == rest + b;
      LogAppend(rest, b);
      assert AcquiredBy(a[0]) + (AcquiredIn(rest) + AcquiredIn(b)) == (AcquiredBy(a[0]) + AcquiredIn(rest)) + AcquiredIn(b);
      assert FreedBy(a[0]) + (FreedIn(rest) + FreedIn(b)) == (FreedBy(a[0]) + FreedIn(rest)) + FreedIn(b);
    }
  }

  lemma {:induction false} TellingsMoveNothing(names: seq<string>)
    ensures AcquiredIn(Tellings(names)) == [] && FreedIn(Tellings(names)) == []
  {
    if names != [] {
      assert Tellings(names)[1..] == Tellings(names[1..]);
      TellingsMoveNothing(names[1..]);
    }
  }

  lemma DiscardingFrees(m: Module)
    ensures AcquiredIn(Discarding(m)) == [] && FreedIn(Discarding(m)) == Handle(m.handle)
  {
    var freed := if m.handle == 0 then [] else [Freed(m.handle)];
    LogAppend(freed, [Unlinked(m.name)]);
  }

  /** The platform handles the list holds. */
  function Held(ms: seq<Module>): seq<int> {
    if ms == [] then [] else Handle(ms[0].handle) + Held(ms[1..])
  }

  ghost predicate Listed(ms: seq<Module>, name: string) {
    exists k :: 0 <= k < |ms| && ms[k].name == name
  }

  /** Names are distinct and not empty, and every handle the platform gave out is either held by
      exactly one entry or has been given back. */
  ghost predicate Consistent(g: Registry) {
    && Distinct(g.modules)
    && !Listed(g.modules, "")
    && (!g.started ==> g.modules == [])
    && multiset(AcquiredIn(g.log)) == multiset(Held(g.modules)) + multiset(FreedIn(g.log))
  }

  lemma {:induction false} HeldAppend(a: seq<Module>, b: seq<Module>)
    ensures Held(a + b) == Held(a) + Held(b)
  {
    if a == [] {
      assert a + b == b;
    } else {
      assert (a + b)[0] == a[0] && (a + b)[1..] == a[1..] + b;
      HeldAppend(a[1..], b);
    }
  }

  lemma {:induction false} HeldAround(pre: seq<Module>, m: Module, post: seq<Module>)
    ensures Held(pre + ([m] + post)) == Held(pre) + (Handle(m.handle) + Held(post))
  {
    HeldAppend(pre, [m] + post);
    assert ([m] + post)[1..] == post;
  }

  lemma MiddleMovesOut(a: seq<int>, h: seq<int>, b: seq<int>)
    ensures multiset(a + (h + b)) == multiset(a + b) + multiset(h)
  {
  }

  lemma {:induction false} HeldWithout(ms: seq<Module>, k: nat)
    requires k < |ms|
    ensures multiset(Held(ms)) == multiset(Held(Without(ms, k))) + multiset(Handle(ms[k].handle))
  {
    var pre, post := ms[..k], ms[k + 1..];
    assert ms == pre + ([ms[k]] + post);
    HeldAround(pre, ms[k], post);
    HeldAppend(pre, post);
    MiddleMovesOut(Held(pre), Handle(ms[k].handle), Held(post));
  }

  lemma WithoutKeepsDistinct(ms: seq<Module>, k: nat)
    requires k < |ms| && Distinct(ms)
    ensures Distinct(Without(ms, k))
    ensures forall name :: Listed(Without(ms, k), name) <==> Listed(ms, name) && name != ms[k].name
  {
    var less := Without(ms, k);
    forall name ensures Listed(less, name) <==> Listed(ms, name) && name != ms[k].name {
      if Listed(less, name) {
        var j :| 0 <= j < |less| && less[j].name == name;
        assert ms[if j < k then j else j + 1].name == name;
      }
      if Listed(ms, name) && name != ms[k].name {
        var j :| 0 <= j < |ms| && ms[j].name == name;
        assert less[if j < k then j else j - 1].name == name;
      }
    }
  }

  lemma IndexFinds(ms: seq<Module>, name: string)
    ensures IndexOf(ms, name) < |ms| <==> Listed(ms, name)
  {
  }

  /** Removing the entry a load put in: it stands where the nested loads left it. */
  lemma OwnEntry(later: seq<Module>, m: Module, ms: seq<Module>)
    requires EndsIn(later, [m] + ms)
    ensures later[|later| - |ms| - 1] == m
    ensures EndsIn(later, ms)
  {
    var k := |later| - |ms| - 1;
    assert later[k..] == [m] + ms;
    assert later[k] == later[k..][0];
    assert later[k + 1..] == later[k..][1..];
  }

  /** The attempt gets as far as entering the module in the list. */
  predicate Enters(g: Registry, a: Attempt) {
    && a.name != "" && IndexOf(g.modules, a.name) == |g.modules|
    && g.enabled && (a.handle != 0 || (!a.ffi && a.builtIn))
  }

  lemma EntersThenInitialises(g: Registry, a: Attempt)
    requires g.started && Enters(g, a)
    ensures a.ffi ==> FindOrLoad(g, a) == (Entered(g, a), Found(Module(a.name, a.handle, true)))
    ensures !a.ffi ==>
              FindOrLoad(g, a) == (Initialised(Entered(g, a), a),
                                   if a.ok then Found(Module(a.name, a.handle, false)) else NotFound)
  {
    assert g.(started := true) == g;
    assert FindOrLoad(g, a) == FindAndLoad(g, a);
  }

  /** What the initialisers leave of the list, in terms of what they did to it. */
  lemma EntryStaysOrGoes(g: Registry, a: Attempt)
    requires g.started && Enters(g, a) && !a.ffi
    ensures var during, g' := LoadAll(Entered(g, a), a.nested), FindOrLoad(g, a).0;
            if a.ok then g' == during
            else && g'.modules == Without(during.modules, |during.modules| - |g.modules| - 1)
                 && g'.log == during.log + Discarding(Module(a.name, a.handle, a.ffi))
                 && FindOrLoad(g, a).1.NotFound?
  {
    EntersThenInitialises(g, a);
  }

  /** Loading, with whatever it loads in turn, only ever puts entries in front. */
  lemma {:induction false} LoadPutsInFront(g: Registry, a: Attempt)
    ensures EndsIn(FindOrLoad(g, a).0.modules, g.modules)
    decreases a, 1
  {
    var s := g.(started := true);
    if Enters(s, a) {
      assert FindOrLoad(g, a) == FindOrLoad(s, a);
      EntersThenInitialises(s, a);
      if !a.ffi {
        var during := LoadAll(Entered(s, a), a.nested).modules;
        EntryStaysOrGoes(s, a);
        LoadAllPutsInFront(Entered(s, a), a.nested);
        OwnEntry(during, Module(a.name, a.handle, false), g.modules);
        var k := |during| - |g.modules| - 1;
        assert Without(during, k)[k..] == during[k + 1..];
      }
    }
  }

  lemma EndsInTransitive<T>(a: seq<T>, b: seq<T>, c: seq<T>)
    requires EndsIn(a, b) && EndsIn(b, c)
    ensures EndsIn(a, c)
  {
    assert a[|a| - |c|..] == a[|a| - |b|..][|b| - |c|..];
  }

  lemma {:induction false} LoadAllPutsInFront(g: Registry, attempts: seq<Attempt>)
    ensures EndsIn(LoadAll(g, attempts).modules, g.modules)
    decreases attempts, 2
  {
    if attempts != [] {
      var g' := FindOrLoad(g, attempts[0]).0;
      LoadPutsInFront(g, attempts[0]);
      LoadAllPutsInFront(g', attempts[1..]);
      EndsInTransitive(LoadAll(g', attempts[1..]).modules, g'.modules, g.modules);
    }
  }

  lemma {:induction false} FindOrLoadIsConsistent(g: Registry, a: Attempt)
    requires Consistent(g)
    ensures Consistent(FindOrLoad(g, a).0)
    decreases a, 1
  {
    IndexFinds(g.modules, a.name);
    if a.name != "" && !Listed(g.modules, a.name) {
      FindAndLoadIsConsistent(g.(started := true), a);
    }
  }

  lemma RemoveIsConsistent(g: Registry, k: nat, told: seq<string>)
    requires Consistent(g) && g.started && k < |g.modules|
    ensures Consistent(g.(modules := Without(g.modules, k), log := g.log + Tellings(told) + Discarding(g.modules[k])))
  {
    HeldWithout(g.modules, k);
    WithoutKeepsDistinct(g.modules, k);
    TellingsMoveNothing(told);
    DiscardingFrees(g.modules[k]);
    LogAppend(g.log, Tellings(told));
    LogAppend(g.log + Tellings(told), Discarding(g.modules[k]));
  }

  lemma RollBackIsConsistent(g: Registry, during: Registry, a: Attempt)
    requires Consistent(during) && EndsIn(during.modules, [Module(a.name, a.handle, a.ffi)] + g.modules)
    ensures var k := |during.modules| - |g.modules| - 1;
            Consistent(during.(modules := Without(during.modules, k),
                               log := during.log + Discarding(Module(a.name, a.handle, a.ffi))))
  {
    var k := |during.modules| - |g.modules| - 1;
    OwnEntry(during.modules, Module(a.name, a.handle, a.ffi), g.modules);
    RemoveIsConsistent(during, k, []);
    assert during.log + Tellings([]) == during.log;
  }

  lemma InitialisedIsConsistent(g: Registry, a: Attempt)
    requires g.started && Enters(g, a) && !a.ffi && Consistent(LoadAll(Entered(g, a), a.nested))
    ensures Consistent(Initialised(Entered(g, a), a))
  {
    LoadAllPutsInFront(Entered(g, a), a.nested);
    if !a.ok {
      RollBackIsConsistent(g, LoadAll(Entered(g, a), a.nested), a);
    }
  }

  lemma PushIsDistinct(ms: seq<Module>, m: Module)
    requires Distinct(ms) && !Listed(ms, m.name)
    ensures Distinct([m] + ms)
    ensures forall name :: Listed([m] + ms, name) <==> name == m.name || Listed(ms, name)
  {
    var more := [m] + ms;
    assert forall k :: 0 < k < |more| ==> more[k] == ms[k - 1];
    forall name ensures Listed(more, name) <==> name == m.name || Listed(ms, name) {
      if name == m.name { assert more[0].name == name; }
      if Listed(ms, name) {
        var k :| 0 <= k < |ms| && ms[k].name == name;
        assert more[k + 1].name == name;
      }
    }
  }

  lemma AcquisitionIs(h: int)
    ensures AcquiredIn(Acquisition(h)) == Handle(h) && FreedIn(Acquisition(h)) == []
  {
    var e := Acquisition(h);
    assert h != 0 ==> e[1..] == [];
  }

  lemma BothGrow(a: seq<int>, b: seq<int>, f: seq<int>, h: seq<int>)
    requires multiset(a) == multiset(b) + multiset(f)
    ensures multiset(a + h) == multiset(h + b) + multiset(f)
  {
  }

  lemma PushBalances(g: Registry, m: Module)
    requires multiset(AcquiredIn(g.log)) == multiset(Held(g.modules)) + multiset(FreedIn(g.log))
    ensures multiset(AcquiredIn(g.log + Acquisition(m.handle)))
         == multiset(Held([m] + g.modules)) + multiset(FreedIn(g.log + Acquisition(m.handle)))
  {
    LogAppend(g.log, Acquisition(m.handle));
    AcquisitionIs(m.handle);
    HeldAppend([m], g.modules);
    assert [m][1..] == [] && Held([m]) == Handle(m.handle);
    BothGrow(AcquiredIn(g.log), Held(g.modules), FreedIn(g.log), Handle(m.handle));
  }

  lemma PushIsConsistent(g: Registry, m: Module)
    requires Consistent(g) && g.started && m.name != "" && !Listed(g.modules, m.name)
    ensures Consistent(g.(modules := [m] + g.modules, log := g.log + Acquisition(m.handle)))
  {
    PushIsDistinct(g.modules, m);
    PushBalances(g, m);
  }

  lemma {:induction false} FindAndLoadIsConsistent(g: Registry, a: Attempt)
    requires Consistent(g) && g.started && a.name != "" && !Listed(g.modules, a.name)
    ensures Consistent(FindAndLoad(g, a).0)
    decreases a, 0
  {
    IndexFinds(g.modules, a.name);
    if Enters(g, a) {
      assert FindAndLoad(g, a) == FindOrLoad(g, a) by { assert g.(started := true) == g; }
      EntersThenInitialises(g, a);
      PushIsConsistent(g, Module(a.name, a.handle, a.ffi));
      if !a.ffi {
        LoadAllIsConsistent(Entered(g, a), a.nested);
        InitialisedIsConsistent(g, a);
      }
    }
  }

  lemma {:induction false} LoadAllIsConsistent(g: Registry, attempts: seq<Attempt>)
    requires Consistent(g)
    ensures Consistent(LoadAll(g, attempts))
    decreases attempts, 2
  {
    if attempts != [] {
      FindOrLoadIsConsistent(g, attempts[0]);
      LoadAllIsConsistent(FindOrLoad(g, attempts[0]).0, attempts[1..]);
    }
  }

  lemma TakeOut(later: seq<Module>, m: Module, ms: seq<Module>) returns (pushed: seq<Module>)
    requires EndsIn(later, [m] + ms)
    ensures later == pushed + [m] + ms && |pushed| == |later| - |ms| - 1
    ensures Without(later, |pushed|) == pushed + ms && later[|pushed|] == m
  {
    var k := |later| - |ms| - 1;
    pushed := later[..k];
    OwnEntry(later, m, ms);
    assert later == pushed + [m] + ms;
  }

  /** Where the nested loads leave the entry, and the list without it. */
  lemma EntryAmongNested(g: Registry, a: Attempt) returns (pushed: seq<Module>)
    requires Consistent(g) && g.started && Enters(g, a)
    ensures var ms := LoadAll(Entered(g, a), a.nested).modules;
            && |pushed| == |ms| - |g.modules| - 1
            && ms == pushed + [Module(a.name, a.handle, a.ffi)] + g.modules
            && Without(ms, |pushed|) == pushed + g.modules
            && !Listed(Without(ms, |pushed|), a.name)
  {
    var m, g1 := Module(a.name, a.handle, a.ffi), Entered(g, a);
    IndexFinds(g.modules, a.name);
    PushIsConsistent(g, m);
    LoadAllIsConsistent(g1, a.nested);
    LoadAllPutsInFront(g1, a.nested);
    var ms := LoadAll(g1, a.nested).modules;
    pushed := TakeOut(ms, m, g.modules);
    WithoutKeepsDistinct(ms, |pushed|);
  }

  /** A failed load takes out its own entry, wherever nested loads have pushed it, and nothing
      else: the modules its initialisers loaded stay in front, the earlier ones behind. */
  lemma FailedLoadRemovesItsEntry(g: Registry, a: Attempt) returns (pushed: seq<Module>)
    requires Consistent(g) && g.started && Enters(g, a) && !a.ffi && !a.ok
    ensures var (g', answer) := FindOrLoad(g, a);
            var during := LoadAll(Entered(g, a), a.nested);
            && answer.NotFound? && !Listed(g'.modules, a.name)
            && g'.log == during.log + Discarding(Module(a.name, a.handle, a.ffi))
            && during.modules == pushed + [Module(a.name, a.handle, a.ffi)] + g.modules
            && g'.modules == pushed + g.modules
  {
    EntryStaysOrGoes(g, a);
    pushed := EntryAmongNested(g, a);
  }

  /** A load answers the module exactly when the list holds it afterwards. */
  lemma AnsweredMeansListed(g: Registry, a: Attempt)
    requires Consistent(g) && a.name != ""
    ensures var (g', answer) := FindOrLoad(g, a);
            && (answer.Found? <==> Listed(g'.modules, a.name))
            && (answer.Found? ==> answer.m in g'.modules && answer.m.name == a.name)
            && (answer.Found? || answer.NotFound?)
  {
    IndexFinds(g.modules, a.name);
    var s := g.(started := true);
    if Enters(g, a) {
      var m, g1 := Module(a.name, a.handle, a.ffi), Entered(s, a);
      assert FindOrLoad(g, a) == FindOrLoad(s, a);
      EntersThenInitialises(s, a);
      assert g1.modules[0] == m;
      if !a.ffi && a.ok {
        LoadAllPutsInFront(g1, a.nested);
        OwnEntry(LoadAll(g1, a.nested).modules, m, g.modules);
      } else if !a.ffi {
        var _ := FailedLoadRemovesItsEntry(s, a);
      }
    }
  }

  /** The module can be brought in, and its initialisers, if it has any, succeed. */
  predicate Loadable(enabled: bool, a: Attempt) {
    a.name != "" && enabled && (a.handle != 0 || (!a.ffi && a.builtIn)) && (a.ffi || a.ok)
  }

  lemma {:induction false} StartedAndEnabled(g: Registry, a: Attempt)
    ensures FindOrLoad(g, a).0.started && FindOrLoad(g, a).0.enabled == g.enabled
    decreases a, 1
  {
    var s := g.(started := true);
    if Enters(s, a) {
      assert FindOrLoad(g, a) == FindOrLoad(s, a);
      EntersThenInitialises(s, a);
      if !a.ffi {
        AllStartedAndEnabled(Entered(s, a), a.nested);
        EntryStaysOrGoes(s, a);
      }
    }
  }

  /** A name is listed after a load exactly if it was before or can be loaded, and then as asked. */
  lemma LoadsExactlyWhen(g: Registry, a: Attempt)
    requires Consistent(g) && a.name != ""
    ensures var (g', answer) := FindOrLoad(g, a);
            && g'.started
            && (Listed(g'.modules, a.name) <==> Listed(g.modules, a.name) || Loadable(g.enabled, a))
            && (answer.Found? && !Listed(g.modules, a.name) ==> answer.m == Module(a.name, a.handle, a.ffi))
  {
    AnsweredMeansListed(g, a);
    IndexFinds(g.modules, a.name);
    StartedAndEnabled(g, a);
    var s := g.(started := true);
    if Enters(g, a) {
      assert FindOrLoad(g, a) == FindOrLoad(s, a);
      EntersThenInitialises(s, a);
    }
  }

  lemma {:induction false} AllStartedAndEnabled(g: Registry, attempts: seq<Attempt>)
    requires g.started
    ensures LoadAll(g, attempts).started && LoadAll(g, attempts).enabled == g.enabled
    decreases attempts, 2
  {
    if attempts != [] {
      StartedAndEnabled(g, attempts[0]);
      AllStartedAndEnabled(FindOrLoad(g, attempts[0]).0, attempts[1..]);
    }
  }

  lemma ListedStays(later: seq<Module>, earlier: seq<Module>, name: string)
    requires EndsIn(later, earlier) && Listed(earlier, name)
    ensures Listed(later, name)
  {
    var k :| 0 <= k < |earlier| && earlier[k].name == name;
    var d := |later| - |earlier|;
    assert later[d + k] == later[d..][k];
  }

  /** The empty name asks for the intrinsic module, a listed one for its entry; either loads nothing. */
  lemma KnownIsAnswered(g: Registry, a: Attempt)
    requires Consistent(g) && (a.name == "" || Listed(g.modules, a.name))
    ensures var (g', answer) := FindOrLoad(g, a);
            && g' == g.(started := true)
            && (a.name == "" ==> answer == Intrinsic)
            && (a.name != "" ==> answer.Found? && answer.m in g.modules && answer.m.name == a.name)
  {
    IndexFinds(g.modules, a.name);
  }

  /** Of a row of loads every one that can be made is made. */
  lemma {:induction false} AllAreLoaded(g: Registry, attempts: seq<Attempt>, k: nat)
    requires Consistent(g) && k < |attempts| && Loadable(g.enabled, attempts[k])
    ensures Listed(LoadAll(g, attempts).modules, attempts[k].name)
    decreases k
  {
    var g' := FindOrLoad(g, attempts[0]).0;
    FindOrLoadIsConsistent(g, attempts[0]);
    if k == 0 {
      LoadsExactlyWhen(g, attempts[0]);
      LoadAllPutsInFront(g', attempts[1..]);
      ListedStays(LoadAll(g', attempts[1..]).modules, g'.modules, attempts[0].name);
    } else {
      StartedAndEnabled(g, attempts[0]);
      AllAreLoaded(g', attempts[1..], k - 1);
    }
  }

  /** During the initialisers the entry and all that they load are listed. */
  lemma LoadedMeanwhile(g: Registry, a: Attempt, k: nat)
    requires Consistent(g) && g.started && Enters(g, a) && k < |a.nested| && Loadable(g.enabled, a.nested[k])
    ensures Consistent(LoadAll(Entered(g, a), a.nested))
    ensures Listed(LoadAll(Entered(g, a), a.nested).modules, a.nested[k].name)
  {
    IndexFinds(g.modules, a.name);
    PushIsConsistent(g, Module(a.name, a.handle, a.ffi));
    LoadAllIsConsistent(Entered(g, a), a.nested);
    AllAreLoaded(Entered(g, a), a.nested, k);
  }

  lemma OwnNameGoes(g: Registry, a: Attempt, other: string)
    requires Consistent(g) && g.started && Enters(g, a) && !a.ffi && !a.ok && other != a.name
    requires Consistent(LoadAll(Entered(g, a), a.nested))
    requires Listed(LoadAll(Entered(g, a), a.nested).modules, other)
    ensures Listed(FindOrLoad(g, a).0.modules, other)
  {
    var during := LoadAll(Entered(g, a), a.nested).modules;
    var pushed := EntryAmongNested(g, a);
    EntryStaysOrGoes(g, a);
    assert during[|pushed|].name == a.name;
    WithoutKeepsDistinct(during, |pushed|);
  }

  /** So every load an initialiser makes stays, whether or not the initialiser succeeds in the end. */
  lemma NestedLoadsStay(g: Registry, a: Attempt, k: nat)
    requires Consistent(g) && g.started && Enters(g, a) && !a.ffi
    requires k < |a.nested| && Loadable(g.enabled, a.nested[k]) && a.nested[k].name != a.name
    ensures Listed(FindOrLoad(g, a).0.modules, a.nested[k].name)
  {
    LoadedMeanwhile(g, a, k);
    if a.ok {
      EntryStaysOrGoes(g, a);
    } else {
      OwnNameGoes(g, a, a.nested[k].name);
    }
  }

  // ----- unloading

  lemma UnloadIsConsistent(g: Registry, name: string, shutdown: bool, listens: Module -> bool)
    requires Consistent(g)
    ensures Consistent(Unload(g, name, shutdown, listens).0)
  {
    if g.started && name != "" {
      var k := IndexOf(g.modules, name);
      if k < |g.modules| { RemoveIsConsistent(g, k, Notified(g.modules, k, listens)); }
    }
  }

  /** At most one entry has gone from between the others. */
  ghost predicate LessAtMostOne(ms: seq<Module>, less: seq<Module>) {
    exists pre, own, post :: ms == pre + own + post && less == pre + post && |own| <= 1
  }

  lemma WithoutIsLessOne(ms: seq<Module>, k: nat)
    requires k <= |ms|
    ensures LessAtMostOne(ms, if k < |ms| then Without(ms, k) else ms)
  {
    if k < |ms| {
      var pre, own, post := ms[..k], [ms[k]], ms[k + 1..];
      assert ms == pre + own + post && Without(ms, k) == pre + post;
    } else {
      var none: seq<Module> := [];
      assert ms == ms + none + none && ms == ms + none;
    }
  }

  /** No module of that name refuses to shut down. */
  ghost predicate MayGo(ms: seq<Module>, name: string, shutdown: bool) {
    forall m :: m in ms && m.name == name ==> m.ffi || shutdown
  }

  lemma IndexIsUnique(ms: seq<Module>, i: nat)
    requires Distinct(ms) && i < |ms|
    ensures IndexOf(ms, ms[i].name) == i
  {
    var k := IndexOf(ms, ms[i].name);
    assert k <= i;
  }

  lemma OnlyOneDecides(ms: seq<Module>, name: string, shutdown: bool)
    requires Distinct(ms)
    ensures var k := IndexOf(ms, name); MayGo(ms, name, shutdown) <==> (k < |ms| ==> ms[k].ffi || shutdown)
  {
    var k := IndexOf(ms, name);
    forall i | 0 <= i < |ms| && ms[i].name == name ensures i == k {
      IndexIsUnique(ms, i);
    }
    assert k < |ms| ==> ms[k] in ms;
  }

  lemma UnloadAnswers(g: Registry, name: string, shutdown: bool, listens: Module -> bool)
    requires Consistent(g)
    ensures var (g', answer) := Unload(g, name, shutdown, listens);
            && (answer <==> g.started && name != "" && MayGo(g.modules, name, shutdown))
            && (!answer ==> g' == g)
            && (answer ==> var k := IndexOf(g.modules, name);
                  g'.modules == if k < |g.modules| then Without(g.modules, k) else g.modules)
  {
    OnlyOneDecides(g.modules, name, shutdown);
  }

  lemma LessTheOne(ms: seq<Module>, name: string)
    requires Distinct(ms)
    ensures var k := IndexOf(ms, name);
            var less := if k < |ms| then Without(ms, k) else ms;
            && LessAtMostOne(ms, less)
            && forall other :: Listed(less, other) <==> Listed(ms, other) && other != name
  {
    var k := IndexOf(ms, name);
    IndexFinds(ms, name);
    WithoutIsLessOne(ms, k);
    if k < |ms| { WithoutKeepsDistinct(ms, k); }
  }

  /** An unload that answers true leaves exactly the other modules, in their order; one that
      answers false changes nothing. It is refused only for the intrinsic module, before
      anything was loaded, or by the shutdown function of a module the FFI did not load. */
  lemma UnloadRemovesExactlyOne(g: Registry, name: string, shutdown: bool, listens: Module -> bool)
    requires Consistent(g)
    ensures var (g', answer) := Unload(g, name, shutdown, listens);
            && (!answer ==> g' == g)
            && (answer ==> forall other :: Listed(g'.modules, other) <==> Listed(g.modules, other) && other != name)
            && (answer ==> LessAtMostOne(g.modules, g'.modules))
            && (answer <==> g.started && name != "" && MayGo(g.modules, name, shutdown))
  {
    UnloadAnswers(g, name, shutdown, listens);
    LessTheOne(g.modules, name);
  }

  /** Module `other` is among `ms`, is not the entry `k` being unloaded, and listens. */
  ghost predicate Concerned(ms: seq<Module>, k: int, listens: Module -> bool, other: string) {
    exists j :: 0 <= j < |ms| && ms[j].name == other && j != k && listens(ms[j])
  }

  lemma ConcernedSplit(ms: seq<Module>, k: int, listens: Module -> bool, other: string)
    requires ms != []
    ensures Concerned(ms, k, listens, other) <==>
            (ms[0].name == other && k != 0 && listens(ms[0])) || Concerned(ms[1..], k - 1, listens, other)
  {
    var rest := ms[1..];
    if Concerned(rest, k - 1, listens, other) {
      var j :| 0 <= j < |rest| && rest[j].name == other && j != k - 1 && listens(rest[j]);
      assert ms[j + 1] == rest[j];
    }
    if Concerned(ms, k, listens, other) {
      var j :| 0 <= j < |ms| && ms[j].name == other && j != k && listens(ms[j]);
      assert j > 0 ==> rest[j - 1] == ms[j];
    }
  }

  lemma {:induction false} ToldMeansConcerned(ms: seq<Module>, k: int, listens: Module -> bool, other: string)
    ensures other in Notified(ms, k, listens) <==> Concerned(ms, k, listens, other)
  {
    if ms != [] {
      ConcernedSplit(ms, k, listens, other);
      ToldMeansConcerned(ms[1..], k - 1, listens, other);
    }
  }

  lemma HeadIsElsewhere(ms: seq<Module>, other: string)
    requires Distinct(ms) && ms != [] && Listed(ms[1..], other)
    ensures IndexOf(ms, other) == 1 + IndexOf(ms[1..], other)
  {
    var k :| 0 <= k < |ms[1..]| && ms[1..][k].name == other;
    assert ms[k + 1] == ms[1..][k];
  }

  /** Each name stands further down the list than the one before. */
  ghost predicate InListOrder(ms: seq<Module>, names: seq<string>) {
    forall i, j :: 0 <= i < j < |names| ==> IndexOf(ms, names[i]) < IndexOf(ms, names[j])
  }

  lemma InOrderWithHead(ms: seq<Module>, head: seq<string>, later: seq<string>)
    requires Distinct(ms) && ms != [] && (head == [] || head == [ms[0].name])
    requires InListOrder(ms[1..], later) && forall other :: other in later ==> Listed(ms[1..], other)
    ensures InListOrder(ms, head + later)
  {
    var names, d := head + later, |head|;
    forall j | d <= j < |names| ensures IndexOf(ms, names[j]) == 1 + IndexOf(ms[1..], later[j - d]) {
      assert names[j] == later[j - d] && later[j - d] in later;
      HeadIsElsewhere(ms, names[j]);
    }
    assert d == 1 ==> IndexOf(ms, names[0]) == 0;
  }

  lemma {:induction false} ToldInListOrder(ms: seq<Module>, k: int, listens: Module -> bool)
    requires Distinct(ms)
    ensures InListOrder(ms, Notified(ms, k, listens))
  {
    if ms != [] {
      var rest := ms[1..];
      assert forall i :: 0 <= i < |rest| ==> rest[i] == ms[i + 1];
      ToldInListOrder(rest, k - 1, listens);
      forall other | other in Notified(rest, k - 1, listens) ensures Listed(rest, other) {
        ToldMeansConcerned(rest, k - 1, listens, other);
      }
      InOrderWithHead(ms, if k != 0 && listens(ms[0]) then [ms[0].name] else [], Notified(rest, k - 1, listens));
    }
  }

  /** Every other module that listens is told about an unloading, in list order: later notices
      go to entries further down, so nobody is told twice ... */
  lemma ToldOnceInListOrder(ms: seq<Module>, k: int, listens: Module -> bool, i: nat, j: nat)
    requires Distinct(ms) && i < j < |Notified(ms, k, listens)|
    ensures var told := Notified(ms, k, listens); IndexOf(ms, told[i]) < IndexOf(ms, told[j])
  {
    ToldInListOrder(ms, k, listens);
  }

  /** ... and the module that is unloaded is not told at all. */
  lemma UnloadedIsNotTold(ms: seq<Module>, k: nat, listens: Module -> bool)
    requires Distinct(ms) && k < |ms|
    ensures ms[k].name !in Notified(ms, k, listens)
  {
    ToldMeansConcerned(ms, k, listens, ms[k].name);
  }

  /** Some other module of that name listens. */
  ghost predicate OtherListens(ms: seq<Module>, name: string, listens: Module -> bool, other: string) {
    other != name && exists m :: m in ms && m.name == other && listens(m)
  }

  lemma ConcernedIsOther(ms: seq<Module>, name: string, listens: Module -> bool, other: string)
    requires Distinct(ms) && IndexOf(ms, name) < |ms|
    ensures Concerned(ms, IndexOf(ms, name), listens, other) <==> OtherListens(ms, name, listens, other)
  {
    var k := IndexOf(ms, name);
    if Concerned(ms, k, listens, other) {
      var j :| 0 <= j < |ms| && ms[j].name == other && j != k && listens(ms[j]);
      IndexIsUnique(ms, j);
      assert ms[j] in ms;
    }
    if OtherListens(ms, name, listens, other) {
      var m :| m in ms && m.name == other && listens(m);
      var j :| 0 <= j < |ms| && ms[j] == m;
      assert j != k;
    }
  }

  /** Of any two modules told the one told earlier stands earlier in the list. */
  ghost predicate NoticesInOrder(ms: seq<Module>, events: seq<Event>) {
    forall i, j, a, b | 0 <= i < j < |events| && 0 <= a < |ms| && 0 <= b < |ms| ::
      events[i] == Told(ms[a].name) && events[j] == Told(ms[b].name) ==> a < b
  }

  /** The events are notices up to the last ones: the handle, if there is one, given back, and the entry
      unlinked. */
  ghost predicate EndsInRelease(events: seq<Event>, m: Module) {
    var n := |events| - if m.handle == 0 then 1 else 2;
    && n >= 0
    && (forall i :: 0 <= i < n ==> events[i].Told?)
    && (m.handle != 0 ==> events[n] == Freed(m.handle))
    && events[|events| - 1] == Unlinked(m.name)
  }

  lemma ReleaseComesLast(told: seq<string>, m: Module)
    ensures EndsInRelease(Tellings(told) + Discarding(m), m)
  {
  }

  lemma ToldAreNotices(told: seq<string>, m: Module)
    ensures var events := Tellings(told) + Discarding(m);
            && (forall i :: 0 <= i < |events| && events[i].Told? ==> i < |told| && events[i].name == told[i])
            && (forall other :: Told(other) in events <==> other in told)
  {
    var events := Tellings(told) + Discarding(m);
    assert forall i :: |told| <= i < |events| ==> events[i] == Discarding(m)[i - |told|];
    forall other | other in told ensures Told(other) in events {
      var i :| 0 <= i < |told| && told[i] == other;
      assert events[i] == Told(other);
    }
  }

  lemma NoticesStayInOrder(ms: seq<Module>, told: seq<string>, m: Module)
    requires Distinct(ms) && InListOrder(ms, told)
    ensures NoticesInOrder(ms, Tellings(told) + Discarding(m))
  {
    var events := Tellings(told) + Discarding(m);
    ToldAreNotices(told, m);
    forall i, j, a, b | 0 <= i < j < |events| && 0 <= a < |ms| && 0 <= b < |ms|
                        && events[i] == Told(ms[a].name) && events[j] == Told(ms[b].name)
      ensures a < b
    {
      IndexIsUnique(ms, a);
      IndexIsUnique(ms, b);
      assert IndexOf(ms, told[i]) < IndexOf(ms, told[j]);
    }
  }

  /** What an unload adds to the log: every other module that listens is told, and nobody else, once each
      and in list order; then the handle is given back, then the entry unlinked. */
  lemma UnloadTells(g: Registry, name: string, shutdown: bool, listens: Module -> bool) returns (m: Module)
    requires Consistent(g) && Listed(g.modules, name) && Unload(g, name, shutdown, listens).1
    ensures m in g.modules && m.name == name
    ensures var log := Unload(g, name, shutdown, listens).0.log;
            && |g.log| <= |log| && log[..|g.log|] == g.log
            && (var gained := log[|g.log|..];
                && (forall other :: Told(other) in gained <==> OtherListens(g.modules, name, listens, other))
                && NoticesInOrder(g.modules, gained)
                && EndsInRelease(gained, m))
  {
    var ms := g.modules;
    IndexFinds(ms, name);
    var k := IndexOf(ms, name);
    m := ms[k];
    var told := Notified(ms, k, listens);
    var gained := Tellings(told) + Discarding(m);
    ToldInListOrder(ms, k, listens);
    ReleaseComesLast(told, m);
    ToldAreNotices(told, m);
    NoticesStayInOrder(ms, told, m);
    var log := Unload(g, name, shutdown, listens).0.log;
    assert log == g.log + Tellings(told) + Discarding(m) == g.log + gained;
    assert log[|g.log|..] == gained && log[..|g.log|] == g.log;
    forall other ensures other in told <==> OtherListens(ms, name, listens, other) {
      ToldMeansConcerned(ms, k, listens, other);
      ConcernedIsOther(ms, name, listens, other);
    }
  }

  /** A module that loads nothing in turn can be loaded and unloaded again: the list is as before,
      and its handle was given out and, once the others had been told, given back. */
  lemma {:induction false} LoadThenUnload(g: Registry, a: Attempt, listens: Module -> bool)
    requires Consistent(g) && g.started && Enters(g, a) && a.nested == [] && a.ok
    ensures FindOrLoad(g, a).0 == Entered(g, a)
    ensures var m := Module(a.name, a.handle, a.ffi);
            var told := Notified([m] + g.modules, 0, listens);
            Unload(Entered(g, a), a.name, true, listens) ==
              (g.(log := g.log + Acquisition(a.handle) + Tellings(told) + Discarding(m)), true)
  {
    EntersThenInitialises(g, a);
    assert LoadAll(Entered(g, a), a.nested) == Entered(g, a);
    var ms := Entered(g, a).modules;
    assert IndexOf(ms, a.name) == 0;
    assert Without(ms, 0) == g.modules;
  }

  // ----- whole sessions

  datatype Op = LoadOp(a: Attempt) | UnloadOp(name: string, shutdown: bool, listens: Module -> bool) | DisableLoading

  function Do(g: Registry, op: Op): Registry {
    match op
    case LoadOp(a) => FindOrLoad(g, a).0
    case UnloadOp(name, shutdown, listens) => Unload(g, name, shutdown, listens).0
    case DisableLoading => g.(enabled := false)
  }

  function Session(g: Registry, ops: seq<Op>): Registry
    decreases |ops|
  {
    if ops == [] then g else Session(Do(g, ops[0]), ops[1..])
  }

  lemma {:induction false} SessionsAreConsistent(g: Registry, ops: seq<Op>)
    requires Consistent(g)
    ensures Consistent(Session(g, ops))
    decreases |ops|
  {
    if ops != [] {
      match ops[0] {
        case LoadOp(a) => FindOrLoadIsConsistent(g, a);
        case UnloadOp(name, shutdown, listens) => UnloadIsConsistent(g, name, shutdown, listens);
        case DisableLoading =>
      }
      SessionsAreConsistent(Do(g, ops[0]), ops[1..]);
    }
  }

  lemma DisabledLoad(g: Registry, a: Attempt)
    requires !g.enabled
    ensures FindOrLoad(g, a).0 == g.(started := true)
  {
  }

  lemma UnloadAcquiresNothing(g: Registry, name: string, shutdown: bool, listens: Module -> bool)
    ensures AcquiredIn(Unload(g, name, shutdown, listens).0.log) == AcquiredIn(g.log)
  {
    var k := IndexOf(g.modules, name);
    if k < |g.modules| {
      var told := Notified(g.modules, k, listens);
      TellingsMoveNothing(told);
      DiscardingFrees(g.modules[k]);
      LogAppend(g.log, Tellings(told));
      LogAppend(g.log + Tellings(told), Discarding(g.modules[k]));
    }
  }

  lemma DisabledStep(g: Registry, op: Op)
    requires Consistent(g) && !g.enabled
    ensures var g' := Do(g, op);
            && Consistent(g') && !g'.enabled && AcquiredIn(g'.log) == AcquiredIn(g.log)
            && forall name :: Listed(g'.modules, name) ==> Listed(g.modules, name)
  {
    match op
    case LoadOp(a) => DisabledLoad(g, a);
    case UnloadOp(name, shutdown, listens) =>
      UnloadIsConsistent(g, name, shutdown, listens);
      UnloadRemovesExactlyOne(g, name, shutdown, listens);
      UnloadAcquiresNothing(g, name, shutdown, listens);
    case DisableLoading =>
  }

  /** Once loading is switched off no module is ever added again. */
  lemma {:induction false} DisabledSessionsNeverLoad(g: Registry, ops: seq<Op>)
    requires Consistent(g) && !g.enabled
    ensures !Session(g, ops).enabled && AcquiredIn(Session(g, ops).log) == AcquiredIn(g.log)
    ensures forall name :: Listed(Session(g, ops).modules, name) ==> Listed(g.modules, name)
    decreases |ops|
  {
    if ops != [] {
      DisabledStep(g, ops[0]);
      DisabledSessionsNeverLoad(Do(g, ops[0]), ops[1..]);
    }
  }
}
