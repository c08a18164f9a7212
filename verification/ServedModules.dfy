/**
 Which modules the daemon serves, in what order, and what the loader's numbering
 of them means (eligible_modules, opted_in_staged_modules, load_modules and
 resolve_module_dir in zygiskd/src/zygiskd.rs; run_modules_pre and hotplug_worker
 in loader/src/injector/module.cpp).
 */
module ServedModules {
  import opened Options
  import opened Order

  /** A directory below modules/: whether it holds the library of this ABI, and its two flag files. */
  datatype Active = Active(lib: bool, disable: bool, remove: bool)

  /** A directory below modules_update/; `ready` is staged_update_ready. */
  datatype Staged = Staged(ready: bool, lib: bool, disable: bool, remove: bool)

  /** One snapshot of everything a scan looks at. */
  datatype World = World(active: map<string, Active>, staged: map<string, Staged>,
                         hotplugged: set<string>, optedIn: set<string>, master: bool)

  datatype Source = FromActive | FromStaged
  datatype Served = Served(name: string, source: Source)

  predicate Before(a: Served, b: Served) {
    Less(a.name, b.name)
  }

  // --- The rule ---------------------------------------------------------------------------------

  /** A hot-plugged module counts as active only while its opt-in flag exists. */
  predicate ActiveCounts(w: World, name: string) {
    name in w.active && w.active[name].lib && !(name in w.hotplugged && name !in w.optedIn)
  }

  predicate ActiveDisabled(w: World, name: string) {
    name in w.active && (w.active[name].disable || w.active[name].remove)
  }

  predicate OptedInStaged(w: World, name: string) {
    w.master && name in w.staged && w.staged[name].ready && name in w.optedIn
  }

  predicate StagedCounts(w: World, name: string) {
    OptedInStaged(w, name) && w.staged[name].lib
  }

  /** Some copy counts, and no counting active copy is disabled. */
  predicate IsServed(w: World, name: string) {
    (ActiveCounts(w, name) || StagedCounts(w, name)) && !(ActiveCounts(w, name) && ActiveDisabled(w, name))
  }

  /** The staged copy is the newer one. */
  function SourceOf(w: World, name: string): Source {
    if StagedCounts(w, name) then FromStaged else FromActive
  }

  /** The served list in full: sorted strictly by name, exactly the served modules, each from its newest copy. */
  ghost predicate IsServedList(w: World, found: seq<Served>) {
    Sorted(found, Before) &&
    (forall e :: e in found <==> IsServed(w, e.name) && e.source == SourceOf(w, e.name))
  }

  lemma BeforeIsStrict()
    ensures Strict(Before)
  {
    forall x: Served, y: Served | Before(x, y) ensures !Before(y, x) {
      LessIsAsymmetric(x.name, y.name);
    }
    forall x: Served, y: Served, z: Served | Before(x, y) && Before(y, z) ensures Before(x, z) {
      LessIsTransitive(x.name, y.name, z.name);
    }
  }

  /** The list is a function of the snapshot: the order in which directories are enumerated has no influence. */
  lemma EnumerationDoesNotMatter(w: World, a: seq<Served>, b: seq<Served>)
    requires IsServedList(w, a) && IsServedList(w, b)
    ensures a == b
  {
    hide Before, IsServed, SourceOf;
    BeforeIsStrict();
    SortedIsUnique(a, b, Before);
  }

  // --- The scan -----------------------------------------------------------------------------------

  datatype Slot = Slot(source: Source, disabled: bool)

  /** Directory listings: every entry once, in any order. */
  predicate Lists<V>(names: seq<string>, dir: map<string, V>) {
    (forall n :: n in names ==> n in dir) && (forall n :: n in dir ==> n in names)
  }

  /** The first loop: the active directory. */
  method ScanActive(w: World, names: seq<string>) returns (modules: map<string, Slot>)
    requires Lists(names, w.active)
    ensures forall n :: n in modules <==> ActiveCounts(w, n)
    ensures forall n :: n in modules ==> modules[n] == Slot(FromActive, ActiveDisabled(w, n))
  {
    modules := map[];
    for k := 0 to |names|
      invariant forall n :: n in modules <==> n in names[..k] && ActiveCounts(w, n)
      invariant forall n :: n in modules ==> modules[n] == Slot(FromActive, ActiveDisabled(w, n))
    {
      var name := names[k];
      assert names[..k + 1] == names[..k] + [name];
      if w.active[name].lib {
        if name in w.hotplugged && name !in w.optedIn {
          continue;
        }
        modules := modules[name := Slot(FromActive, w.active[name].disable || w.active[name].remove)];
      }
    }
    assert names[..|names|] == names;
  }

  /**
   The second unplug pass. On one snapshot it finds nothing: the first loop has
   already left out every unplugged module.
   */
  method UnplugPass(w: World, modules: map<string, Slot>) returns (unplugged: set<string>, after: map<string, Slot>)
    requires forall n :: n in modules ==> ActiveCounts(w, n)
    ensures unplugged == {} && after == modules
  {
    unplugged := set n | n in modules && !modules[n].disabled && n in w.hotplugged && n !in w.optedIn;
    after := map n | n in modules :: if n in unplugged then modules[n].(disabled := true) else modules[n];
  }

  /** The staged copies win, and inherit the disabled state of a counting active copy. */
  method MergeStaged(w: World, names: seq<string>, modules: map<string, Slot>) returns (merged: map<string, Slot>)
    requires Lists(names, w.staged)
    ensures forall n :: n in merged <==> n in modules || StagedCounts(w, n)
    ensures forall n :: n in merged ==>
              merged[n] == if StagedCounts(w, n) then Slot(FromStaged, n in modules && modules[n].disabled) else modules[n]
  {
    merged := modules;
    if !w.master {
      return;
    }
    for k := 0 to |names|
      invariant forall n :: n in merged <==> n in modules || (n in names[..k] && StagedCounts(w, n))
      invariant forall n :: n in merged ==>
                  merged[n] == if n in names[..k] && StagedCounts(w, n) then Slot(FromStaged, n in modules && modules[n].disabled)
                               else modules[n]
    {
      var name := names[k];
      assert names[..k + 1] == names[..k] + [name];
      if !w.staged[name].ready || name !in w.optedIn || !w.staged[name].lib {
        continue;
      }
      merged := merged[name := Slot(FromStaged, name in merged && merged[name].disabled)];
    }
    assert names[..|names|] == names;
  }

  /** eligible_modules. */
  method EligibleModules(w: World, activeNames: seq<string>, stagedNames: seq<string>) returns (found: seq<Served>)
    requires Lists(activeNames, w.active) && Lists(stagedNames, w.staged)
    ensures IsServedList(w, found)
  {
    hide Lists, Before;
    var modules := ScanActive(w, activeNames);
    var unplugged, kept := UnplugPass(w, modules);
    var merged := MergeStaged(w, stagedNames, kept);
    assert forall n :: n in merged && !merged[n].disabled <==> IsServed(w, n);
    assert forall n :: n in merged ==> merged[n].source == SourceOf(w, n);
    found := SortEntries(merged);
  }

  /** Collects the entries that are not disabled and sorts them by name. */
  method SortEntries(modules: map<string, Slot>) returns (found: seq<Served>)
    ensures Sorted(found, Before)
    ensures forall e :: e in found <==> e.name in modules && !modules[e.name].disabled && e.source == modules[e.name].source
  {
    hide Sorted, Strict;
    found := [];
    BeforeIsStrict();
    var rest := modules.Keys;
    assert Sorted(found, Before) by { SortedEmpty(); }
    while rest != {}
      invariant rest <= modules.Keys
      invariant Sorted(found, Before)
      invariant forall e :: e in found <==> e.name in modules && e.name !in rest && !modules[e.name].disabled && e.source == modules[e.name].source
      decreases |rest|
    {
      var name :| name in rest;
      rest := rest - {name};
      if !modules[name].disabled {
        var e := Served(name, modules[name].source);
        forall y | y in found ensures Before(e, y) || Before(y, e) {
          LessIsTotal(e.name, y.name);
        }
        InsertSorts(found, e, Before);
        found := Insert(found, e, Before);
      }
    }
  }

  lemma SortedEmpty()
    ensures Sorted<Served>([], Before)
  {
  }

  // --- A swap ----------------------------------------------------------------------------------------

  /**
   The snapshot after the hot-plug transaction of `name` has finished: the staged
   copy is active with the disable flag carried over, and its activation is marked.
   */
  function AfterSwap(w: World, name: string): World
    requires name in w.staged
  {
    var c := w.staged[name];
    w.(active := w.active[name := Active(c.lib, c.disable || (name in w.active && w.active[name].disable), c.remove)],
       staged := w.staged - {name}, hotplugged := w.hotplugged + {name})
  }

  /** The active copy of `name` has a library. */
  predicate ActiveLib(w: World, name: string) {
    name in w.active && w.active[name].lib
  }

  /**
   A swap of an opted-in module changes nothing about which names are served exactly
   when: if the new copy has a library, it is held back (by a flag of its own or the
   carried `disable`) just as the old library was by its flags; if it has none,
   there was no enabled old library to lose.
   */
  lemma SwapKeepsNames(w: World, name: string)
    requires OptedInStaged(w, name)
    ensures (forall n :: IsServed(AfterSwap(w, name), n) <==> IsServed(w, n)) <==>
            var c := w.staged[name];
            var carried := name in w.active && w.active[name].disable;
            if c.lib then (c.disable || c.remove || carried <==> ActiveLib(w, name) && ActiveDisabled(w, name))
            else !ActiveLib(w, name) || ActiveDisabled(w, name)
  {
    var v := AfterSwap(w, name);
    assert forall n :: n != name ==> (IsServed(v, n) <==> IsServed(w, n));
    assert IsServed(v, name) <==> v.active[name].lib && !ActiveDisabled(v, name);
  }

  /** For copies without `disable` or `remove`: unless the update drops the library an active copy has. */
  lemma SwapOfPlainCopiesKeepsNames(w: World, name: string)
    requires OptedInStaged(w, name) && !w.staged[name].disable && !w.staged[name].remove && !ActiveDisabled(w, name)
    ensures (forall n :: IsServed(AfterSwap(w, name), n) <==> IsServed(w, n)) <==>
            (w.staged[name].lib || name !in w.active || !w.active[name].lib)
  {
    SwapKeepsNames(w, name);
  }

  // --- Ids -------------------------------------------------------------------------------------------

  /** The entries whose library could be copied into a memfd, as load_modules streams them. */
  function Copied<T>(list: seq<T>, ok: seq<bool>): (r: seq<T>)
    requires |ok| == |list|
  {
    if list == [] then [] else (if ok[0] then [list[0]] else []) + Copied(list[1..], ok[1..])
  }

  /** What the daemon makes of an id without a name: a position in the fresh list, FN nodes after it. */
  function ByIndex<T, N>(modules: seq<T>, nodes: seq<N>, index: nat): Resolved<T, N> {
    if index < |modules| then Module(modules[index])
    else if index - |modules| < |nodes| then Node(nodes[index - |modules|])
    else Unknown
  }

  datatype Resolved<T, N> = Module(module_: T) | Node(node: N) | Unknown

  /** After the first entry that could not be copied, no other could. */
  predicate FailuresAtEnd(ok: seq<bool>) {
    forall i, j :: 0 <= i < j < |ok| && ok[j] ==> ok[i]
  }

  ghost predicate Distinct<T(!new)>(s: seq<T>) {
    forall i, j :: 0 <= i < j < |s| ==> s[i] != s[j]
  }

  /** Every id the loader gives a classic module, its position in the streamed list, names that module. */
  ghost predicate ClassicIdsResolve<T, N(!new)>(modules: seq<T>, ok: seq<bool>, nodes: seq<N>)
    requires |ok| == |modules|
  {
    var streamed := Copied(modules, ok);
    forall i :: 0 <= i < |streamed| ==> ByIndex(modules, nodes, i) == Module(streamed[i])
  }

  /** Every id the loader gives a streamed FN node, offset by the classic count, names that node. */
  ghost predicate NodeIdsResolve<T, N(!new)>(modules: seq<T>, ok: seq<bool>, nodes: seq<N>, sent: nat)
    requires |ok| == |modules| && sent <= |nodes|
  {
    forall i :: 0 <= i < sent ==> ByIndex(modules, nodes, |Copied(modules, ok)| + i) == Node(nodes[i])
  }

  lemma {:induction false} CopiedPrefix<T>(list: seq<T>, ok: seq<bool>)
    requires |ok| == |list|
    ensures |Copied(list, ok)| <= |list|
    ensures |Copied(list, ok)| == |list| <==> forall i :: 0 <= i < |ok| ==> ok[i]
    ensures FailuresAtEnd(ok) ==> Copied(list, ok) == list[..|Copied(list, ok)|]
  {
    if list != [] {
      CopiedPrefix(list[1..], ok[1..]);
      if ok[0] {
        assert forall i :: 0 < i < |ok| ==> ok[i] == ok[1..][i - 1];
        if FailuresAtEnd(ok) {
          assert FailuresAtEnd(ok[1..]);
          assert Copied(list, ok) == [list[0]] + list[1..][..|Copied(list[1..], ok[1..])|];
        }
      } else if FailuresAtEnd(ok) {
        NoneCopied(list[1..], ok[1..]);
      }
    }
  }

  lemma {:induction false} NoneCopied<T>(list: seq<T>, ok: seq<bool>)
    requires |ok| == |list| && forall i :: 0 <= i < |ok| ==> !ok[i]
    ensures Copied(list, ok) == []
  {
    if list != [] {
      NoneCopied(list[1..], ok[1..]);
    }
  }

  lemma {:induction false} CopiedMembers<T>(list: seq<T>, ok: seq<bool>)
    requires |ok| == |list|
    ensures forall x :: x in Copied(list, ok) ==> x in list
    ensures Copied(list, ok) == [] ==> forall i :: 0 <= i < |ok| ==> !ok[i]
  {
    if list != [] {
      CopiedMembers(list[1..], ok[1..]);
      assert forall i :: 0 < i < |ok| ==> ok[i] == ok[1..][i - 1];
    }
  }

  lemma HeadInPrefix<T>(list: seq<T>, n: nat)
    requires n <= |list|
    ensures n > 0 ==> list[0] in list[..n]
  {
    if n > 0 {
      assert list[..n][0] == list[0];
    }
  }

  lemma {:induction false} PrefixOnlyWhenFailuresAtEnd<T(!new)>(list: seq<T>, ok: seq<bool>)
    requires |ok| == |list| && Distinct(list) && |Copied(list, ok)| <= |list|
    requires Copied(list, ok) == list[..|Copied(list, ok)|]
    ensures FailuresAtEnd(ok)
  {
    if list != [] {
      var rest := Copied(list[1..], ok[1..]);
      CopiedMembers(list[1..], ok[1..]);
      CopiedPrefix(list[1..], ok[1..]);
      if ok[0] {
        assert Distinct(list[1..]);
        assert rest == Copied(list, ok)[1..] == list[1..][..|rest|];
        PrefixOnlyWhenFailuresAtEnd(list[1..], ok[1..]);
        assert forall i :: 0 < i < |ok| ==> ok[i] == ok[1..][i - 1];
      } else {
        assert Copied(list, ok) == rest;
        assert list[0] !in list[1..];
        HeadInPrefix(list, |rest|);
        assert rest == [];
        assert forall i :: 0 < i < |ok| ==> ok[i] == ok[1..][i - 1];
      }
    }
  }

  /** Classic ids name the right modules exactly when no library was copied after one that failed. */
  lemma ClassicIdsExactlyWhen<T(!new), N(!new)>(modules: seq<T>, ok: seq<bool>, nodes: seq<N>)
    requires |ok| == |modules| && Distinct(modules)
    ensures ClassicIdsResolve(modules, ok, nodes) <==> FailuresAtEnd(ok)
  {
    CopiedPrefix(modules, ok);
    var streamed := Copied(modules, ok);
    if ClassicIdsResolve(modules, ok, nodes) {
      assert forall i :: 0 <= i < |streamed| ==> ByIndex(modules, nodes, i) == Module(modules[i]);
      assert streamed == modules[..|streamed|];
      PrefixOnlyWhenFailuresAtEnd(modules, ok);
    }
  }

  /** FN ids name the right nodes exactly when every classic library was copied, or no node was sent. */
  lemma NodeIdsExactlyWhen<T(!new), N(!new)>(modules: seq<T>, ok: seq<bool>, nodes: seq<N>, sent: nat)
    requires |ok| == |modules| && sent <= |nodes|
    ensures NodeIdsResolve(modules, ok, nodes, sent) <==> sent == 0 || forall i :: 0 <= i < |ok| ==> ok[i]
  {
    CopiedPrefix(modules, ok);
    if NodeIdsResolve(modules, ok, nodes, sent) && sent > 0 {
      assert ByIndex(modules, nodes, |Copied(modules, ok)| + 0) == Node(nodes[0]);
    }
  }

  // --- Directories by name -----------------------------------------------------------------------------

  predicate IdChar(c: char) {
    'a' <= c <= 'z' || 'A' <= c <= 'Z' || '0' <= c <= '9' || c == '.' || c == '_' || c == '-'
  }

  predicate ValidModuleId(name: string) {
    name != [] && name != ['.'] && name != ['.', '.'] && forall i :: 0 <= i < |name| ==> IdChar(name[i])
  }

  datatype Directory = ModuleDir(source: Source) | NodeDir

  /** resolve_module_dir for a loader that sends the name. */
  function DirByName(w: World, nodeIds: set<string>, name: string): Option<Directory> {
    if !ValidModuleId(name) then None
    else if IsServed(w, name) then Some(ModuleDir(SourceOf(w, name)))
    else if name in w.active then Some(ModuleDir(FromActive))
    else if name in nodeIds then Some(NodeDir)
    else None
  }

  /**
   A module streamed from one snapshot still finds a directory by its name when a
   swap finishes before it asks: the one its copy has been moved to.
   */
  lemma NameSurvivesSwap(w: World, nodeIds: set<string>, name: string, swapped: string)
    requires ValidModuleId(name) && IsServed(w, name) && OptedInStaged(w, swapped)
    ensures DirByName(w, nodeIds, name) == Some(ModuleDir(SourceOf(w, name)))
    ensures DirByName(AfterSwap(w, swapped), nodeIds, name) ==
            Some(ModuleDir(if name == swapped then FromActive else SourceOf(w, name)))
  {
    var v := AfterSwap(w, swapped);
    assert name != swapped ==> (IsServed(v, name) <==> IsServed(w, name)) && SourceOf(v, name) == SourceOf(w, name);
  }

  // --- The live loader in system_server ---------------------------------------------------------------

  class LiveLoader {
    /** hotplug_loaded. */
    var loaded: seq<string>
    /** The modules the worker has initialised, in order. */
    var initialised: seq<string>

    ghost predicate Valid()
      reads this
    {
      (forall i, j :: 0 <= i < j < |initialised| ==> initialised[i] != initialised[j]) &&
      (forall n :: n in initialised ==> n in loaded)
    }

    /** server_specialize_post: what specialization itself loaded. */
    constructor (specialized: seq<string>)
      ensures Valid() && loaded == specialized && initialised == []
    {
      loaded := specialized;
      initialised := [];
    }

    /**
     One wake-up of hotplug_worker; `loads[i]` tells whether library `i` can be
     loaded. No library is initialised twice, nor one that specialization loaded,
     and afterwards every listed module that can be loaded has been.
     */
    method Wake(names: seq<string>, loads: seq<bool>)
      requires Valid() && |loads| == |names|
      modifies this
      ensures Valid()
      ensures old(loaded) <= loaded && old(initialised) <= initialised
      ensures loaded[|old(loaded)|..] == initialised[|old(initialised)|..]
      ensures forall n :: n in initialised[|old(initialised)|..] ==> n in names && n !in old(loaded)
      ensures forall i :: 0 <= i < |names| && loads[i] ==> names[i] in loaded
    {
      var i := 0;
      while i < |names|
        invariant i <= |names| && Valid()
        invariant old(loaded) <= loaded && old(initialised) <= initialised
        invariant loaded[|old(loaded)|..] == initialised[|old(initialised)|..]
        invariant forall n :: n in initialised[|old(initialised)|..] ==> n in names && n !in old(loaded)
        invariant forall k :: 0 <= k < i && loads[k] ==> names[k] in loaded
      {
        if names[i] !in loaded && loads[i] {
          loaded := loaded + [names[i]];
          initialised := initialised + [names[i]];
        }
        i := i + 1;
      }
    }
  }
}
