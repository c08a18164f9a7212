/** The scan of the two node roots (scan_fn_nodes in zygiskd/src/fn.rs). */
module FnScan {
  import opened Order

  /** An entry of a root; `sweeps` tells whether removing it from disk succeeds, `priority` is its node's. */
  datatype Entry = Entry(isDir: bool, hasProp: bool, remove: bool, sweeps: bool, priority: int)

  /** The daemon's own node directory, and the root solution's module directory. */
  datatype Root = Own | Modules

  datatype Found = Found(id: string, priority: int, root: Root)

  predicate Before(a: Found, b: Found) {
    a.priority < b.priority || (a.priority == b.priority && Less(a.id, b.id))
  }

  lemma BeforeIsStrict()
    ensures Strict(Before)
  {
    forall x: Found, y: Found | Before(x, y) ensures !Before(y, x) {
      if x.priority == y.priority {
        LessIsAsymmetric(x.id, y.id);
      }
    }
    forall x: Found, y: Found, z: Found | Before(x, y) && Before(y, z) ensures Before(x, z) {
      if x.priority == z.priority {
        LessIsTransitive(x.id, y.id, z.id);
      }
    }
  }

  // --- The rule ---------------------------------------------------------------------------------------

  predicate IsNode(root: Root, e: Entry) {
    e.isDir && (root.Own? || e.hasProp)
  }

  /** A node of the own root that is flagged for removal is swept; one among the modules is only marked. */
  predicate Stays(root: Root, e: Entry) {
    !(e.remove && root.Own? && e.sweeps)
  }

  predicate Holds(dir: map<string, Entry>, root: Root, id: string) {
    id in dir && IsNode(root, dir[id])
  }

  /** An own node hides a module node of the same id, even when it is swept. */
  predicate Listed(own: map<string, Entry>, modules: map<string, Entry>, f: Found) {
    var dir := if f.root.Own? then own else modules;
    Holds(dir, f.root, f.id) && Stays(f.root, dir[f.id]) && f.priority == dir[f.id].priority &&
    (f.root.Modules? ==> !Holds(own, Own, f.id))
  }

  ghost predicate IsScan(own: map<string, Entry>, modules: map<string, Entry>, nodes: seq<Found>) {
    Sorted(nodes, Before) && forall f :: f in nodes <==> Listed(own, modules, f)
  }

  /** Enumeration order has no influence on the scan. */
  lemma ScanIsUnique(own: map<string, Entry>, modules: map<string, Entry>, a: seq<Found>, b: seq<Found>)
    requires IsScan(own, modules, a) && IsScan(own, modules, b)
    ensures a == b
  {
    hide Before, Listed;
    BeforeIsStrict();
    SortedIsUnique(a, b, Before);
  }

  /** No id is listed twice, although there are two roots. */
  lemma IdsAreUnique(own: map<string, Entry>, modules: map<string, Entry>, f: Found, g: Found)
    requires Listed(own, modules, f) && Listed(own, modules, g) && f.id == g.id
    ensures f == g
  {
  }

  // --- The scan ----------------------------------------------------------------------------------------

  ghost predicate DistinctIds(nodes: seq<Found>) {
    forall i, j :: 0 <= i < j < |nodes| ==> nodes[i].id != nodes[j].id
  }

  predicate Lists(names: seq<string>, dir: map<string, Entry>) {
    (forall n :: n in names ==> n in dir) && (forall n :: n in dir ==> n in names)
  }

  /** One root, in whatever order its entries come. */
  method ScanRoot(root: Root, dir: map<string, Entry>, names: seq<string>, seen0: set<string>, nodes0: seq<Found>)
    returns (seen: set<string>, nodes: seq<Found>)
    requires Lists(names, dir) && DistinctIds(nodes0) && forall f :: f in nodes0 ==> f.id in seen0
    ensures forall n :: n in seen <==> n in seen0 || Holds(dir, root, n)
    ensures forall f :: f in nodes <==> f in nodes0 || (f.root == root && f.id !in seen0 && Holds(dir, root, f.id) &&
                                                        Stays(root, dir[f.id]) && f.priority == dir[f.id].priority)
    ensures DistinctIds(nodes) && forall f :: f in nodes ==> f.id in seen
  {
    seen, nodes := seen0, nodes0;
    for k := 0 to |names|
      invariant forall n :: n in seen <==> n in seen0 || (n in names[..k] && Holds(dir, root, n))
      invariant forall f :: f in nodes <==>
                  f in nodes0 || (f.root == root && f.id in names[..k] && f.id !in seen0 && Holds(dir, root, f.id) &&
                                  Stays(root, dir[f.id]) && f.priority == dir[f.id].priority)
      invariant DistinctIds(nodes) && forall f :: f in nodes ==> f.id in seen
    {
      assert names[..k + 1] == names[..k] + [names[k]];
      var id, e := names[k], dir[names[k]];
      if IsNode(root, e) && id !in seen {
        seen := seen + {id};
        if Stays(root, e) {
          nodes := nodes + [Found(id, e.priority, root)];
        }
      }
    }
    assert names[..|names|] == names;
  }

  method SortNodes(nodes: seq<Found>) returns (sorted: seq<Found>)
    requires DistinctIds(nodes)
    ensures Sorted(sorted, Before) && forall f :: f in sorted <==> f in nodes
  {
    hide Before, Strict;
    sorted := [];
    BeforeIsStrict();
    for k := 0 to |nodes|
      invariant Sorted(sorted, Before)
      invariant forall f :: f in sorted <==> f in nodes[..k]
    {
      assert nodes[..k + 1] == nodes[..k] + [nodes[k]];
      forall y | y in sorted ensures Before(nodes[k], y) || Before(y, nodes[k]) {
        var i :| 0 <= i < k && nodes[i] == y;
        Comparable(nodes[k], y);
      }
      InsertSorts(sorted, nodes[k], Before);
      sorted := Insert(sorted, nodes[k], Before);
    }
    assert nodes[..|nodes|] == nodes;
  }

  lemma Comparable(a: Found, b: Found)
    requires a.id != b.id
    ensures Before(a, b) || Before(b, a)
  {
    LessIsTotal(a.id, b.id);
  }

  method ScanFnNodes(own: map<string, Entry>, modules: map<string, Entry>, ownNames: seq<string>, moduleNames: seq<string>)
    returns (nodes: seq<Found>)
    requires Lists(ownNames, own) && Lists(moduleNames, modules)
    ensures IsScan(own, modules, nodes)
  {
    hide Lists, Sorted, Stays, IsNode, Before;
    var seen, all := ScanRoot(Own, own, ownNames, {}, []);
    seen, all := ScanRoot(Modules, modules, moduleNames, seen, all);
    nodes := SortNodes(all);
  }
}
