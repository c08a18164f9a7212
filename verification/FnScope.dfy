/**
 The loader's decision whether a functional node applies to a process
 (list_contains, fn_scope_matches and fn_applies in loader/src/injector/module.cpp),
 against the lists the daemon parsed and joined again for the wire.
 */
module FnScope {
  import opened Texts
  import opened FnNodes

  predicate Padding(c: char) {
    c == ' ' || c == '\t'
  }

  function StripFront(s: string): string {
    if s != [] && Padding(s[0]) then StripFront(s[1..]) else s
  }

  function StripBack(s: string): string {
    if s != [] && Padding(s[|s| - 1]) then StripBack(s[..|s| - 1]) else s
  }

  /** Some comma-separated token of `list`, stripped of padding, is `needle`. */
  predicate ContainsToken(list: string, needle: string) {
    exists i :: 0 <= i < |SplitAt(list, ',')| && StripBack(StripFront(SplitAt(list, ',')[i])) == needle
  }

  /** list_contains. */
  method ListContains(list: string, needle: string) returns (found: bool)
    ensures found <==> ContainsToken(list, needle)
  {
    hide StripBack, StripFront;
    var rest := list;
    ghost var done: nat := 0;
    while true
      invariant done < |SplitAt(list, ',')| && SplitAt(rest, ',') == SplitAt(list, ',')[done..]
      invariant forall i :: 0 <= i < done ==> StripBack(StripFront(SplitAt(list, ',')[i])) != needle
      decreases |rest|
    {
      var comma := IndexOf(rest, ',');
      var token := StripTokens(rest[..comma]);
      assert SplitAt(rest, ',')[0] == SplitAt(list, ',')[done] == rest[..comma];
      if token == needle {
        return true;
      }
      if comma == |rest| {
        assert SplitAt(rest, ',') == [rest];
        assert |SplitAt(list, ',')| == done + 1;
        return false;
      }
      assert SplitAt(rest, ',')[1..] == SplitAt(rest[comma + 1..], ',');
      rest := rest[comma + 1..];
      done := done + 1;
    }
  }

  method StripTokens(token0: string) returns (token: string)
    ensures token == StripBack(StripFront(token0))
  {
    token := token0;
    while token != [] && (token[0] == ' ' || token[0] == '\t')
      invariant StripFront(token) == StripFront(token0)
      decreases |token|
    {
      token := token[1..];
    }
    ghost var front := token;
    while token != [] && (token[|token| - 1] == ' ' || token[|token| - 1] == '\t')
      invariant StripBack(token) == StripBack(front)
      decreases |token|
    {
      token := token[..|token| - 1];
    }
  }

  /** What the loader sees when it looks for `needle` in a list the daemon has parsed. */
  predicate OnWire(items: seq<string>, needle: string) {
    ContainsToken(Join(items, ','), needle)
  }

  lemma StrippedItem(s: string)
    requires Trimmed(s)
    ensures StripBack(StripFront(s)) == s
  {
    assert forall c :: Padding(c) ==> Space(c);
  }

  /**
   The search on the wire agrees with membership in the parsed list, for every
   needle but the empty one in the empty list.
   */
  lemma WireMembership(items: seq<string>, needle: string)
    requires forall i :: 0 <= i < |items| ==> Item(items[i])
    ensures (OnWire(items, needle) <==> needle in items) <==> !(items == [] && needle == [])
  {
    hide StripBack, StripFront, Trimmed;
    if items == [] {
      assert SplitAt(Join(items, ','), ',') == [[]];
      StrippedItem([]);
      assert SplitAt(Join(items, ','), ',')[0] == [];
    } else {
      SplitUndoesJoin(items, ',');
      forall i | 0 <= i < |items| ensures StripBack(StripFront(items[i])) == items[i] {
        StrippedItem(items[i]);
      }
    }
  }

  // --- Scope ----------------------------------------------------------------------------------------

  /** The process name up to its first colon. */
  function Base(process: string): string {
    process[..IndexOf(process, ':')]
  }

  /** fn_scope_matches; the empty name stands for a missing one as well. */
  predicate ScopeMatches(scope: Scope, wireApps: string, process: string) {
    if scope.All? || process == [] then true
    else
      var listed := ContainsToken(wireApps, process) || ContainsToken(wireApps, Base(process));
      if scope.Allowlist? then listed else !listed
  }

  /** The scope as declared: all apps, only the listed packages, or all but those. */
  predicate InScope(scope: Scope, apps: seq<string>, process: string) {
    var listed := process in apps || Base(process) in apps;
    match scope
    case All => true
    case Allowlist => listed
    case Denylist => !listed
  }

  /**
   The loader's answer is the declared one exactly when the scope is `all`, or the
   process has a name whose part before the colon is not empty or some app is listed;
   a process without a name is let through, which only an allowlist objects to.
   */
  lemma ScopeAgreesExactlyWhen(scope: Scope, apps: seq<string>, process: string)
    requires forall i :: 0 <= i < |apps| ==> Item(apps[i])
    ensures (ScopeMatches(scope, Join(apps, ','), process) <==> InScope(scope, apps, process)) <==>
            scope.All? || (if process == [] then scope.Denylist? else Base(process) != [] || apps != [])
  {
    hide ContainsToken, Trimmed, Join;
    WireMembership(apps, process);
    WireMembership(apps, Base(process));
    assert [] !in apps;
  }

  // --- Triggers --------------------------------------------------------------------------------------

  /** fn_applies. */
  predicate Applies(wireTriggers: string, isServer: bool) {
    ContainsToken(wireTriggers, if isServer then "system_server" else "app") || ContainsToken(wireTriggers, "zygote")
  }

  /** A node applies to a process exactly when one of its triggers names the kind of process, or every process. */
  lemma AppliesExactlyWhen(triggers: seq<string>, isServer: bool)
    requires forall i :: 0 <= i < |triggers| ==> Item(triggers[i])
    ensures Applies(Join(triggers, ','), isServer) <==>
            (if isServer then "system_server" else "app") in triggers || "zygote" in triggers
  {
    hide ContainsToken, Item, Join;
    WireMembership(triggers, if isServer then "system_server" else "app");
    WireMembership(triggers, "zygote");
  }
}
