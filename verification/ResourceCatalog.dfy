/**
The resource catalog: directories and resources linked by parents and by
references that may be restricted to some operations.
*/
module ResourceCatalog {
  import opened Options

  type Key = string

  const FixedOperations: seq<string> := ["read", "create", "update", "delete"]

  datatype HttpPath = HttpPath(method_: string, path: string)

  datatype Feature = Feature(
    permissionResource: string,
    entryKeys: seq<string>,
    buttons: seq<string>,
    http: seq<HttpPath>,
    grpc: seq<string>)

  datatype Entry = Entry(path: string, parentMenuKey: string)

  datatype OperationBinding = OperationBinding(entryKeys: seq<string>, buttonKeys: seq<string>)

  datatype Child = Child(kind: string, key: Key)

  datatype Node = Node(
    kind: string,
    parent: Key,
    sort: int,
    childOrder: seq<Child>,
    frontendVisible: Option<bool>,
    permissionScope: string,
    permissionGroup: string,
    references: seq<Key>,
    referenceOperations: map<Key, seq<string>>,
    entries: map<string, Entry>,
    operations: map<string, OperationBinding>)

  datatype Catalog = Catalog(resources: map<Key, Node>, buttons: map<string, Feature>)

  /** An association stored on an action; no feature list means every registered feature. */
  datatype ResourceBinding = ResourceBinding(resourceKey: Key, operation: string, featureKeys: Option<seq<string>>)

  /** The part of a key in front of its first colon. */
  function Scope(key: string): (scope: string)
    ensures scope <= key && ':' !in scope
    ensures ':' in key ==> scope + ":" <= key
  {
    if key == "" || key[0] == ':' then "" else [key[0]] + Scope(key[1..])
  }

  predicate InScope(key: Key, scope: string) {
    scope + ":" <= key
  }

  ghost function KeysInScope(catalog: Catalog, scope: string): set<Key> {
    set key | key in catalog.resources && InScope(key, scope)
  }

  lemma {:induction false} ScopeIsThePrefix(key: Key, scope: string)
    requires ':' !in scope && InScope(key, scope)
    ensures Scope(key) == scope
  {
    if scope == "" {
      assert key[0] == (scope + ":")[0];
    } else {
      assert key[0] == (scope + ":")[0] == scope[0];
      assert scope[1..] + ":" == (scope + ":")[1..] <= key[1..];
      ScopeIsThePrefix(key[1..], scope[1..]);
    }
  }

  /** One edge of the operation-restricted graph. Only directories have edges. */
  predicate Permits(node: Node, target: Key, operation: string) {
    && target in node.references
    && (target in node.referenceOperations ==> operation in node.referenceOperations[target])
  }

  predicate Step(catalog: Catalog, from: Key, to: Key, operation: string) {
    && from in catalog.resources
    && catalog.resources[from].kind != "resource"
    && ( || (to in catalog.resources && catalog.resources[to].parent == from)
         || Permits(catalog.resources[from], to, operation))
  }

  /** A trail stays on known keys that satisfy the scope filter. */
  ghost predicate Trail(catalog: Catalog, usable: set<Key>, operation: string, trail: seq<Key>) {
    && trail != []
    && (forall i :: 0 <= i < |trail| ==> trail[i] in usable)
    && (forall i :: 0 <= i < |trail| - 1 ==> Step(catalog, trail[i], trail[i + 1], operation))
  }

  predicate Offers(catalog: Catalog, key: Key, operation: string) {
    && key in catalog.resources
    && catalog.resources[key].kind == "resource"
    && operation in catalog.resources[key].operations
  }

  ghost predicate Connects(catalog: Catalog, usable: set<Key>, operation: string, avoid: set<Key>,
                           trail: seq<Key>, from: Key, to: Key) {
    && Trail(catalog, usable, operation, trail)
    && trail[0] == from
    && trail[|trail| - 1] == to
    && (forall i :: 0 <= i < |trail| ==> trail[i] !in avoid)
  }

  /** A resource that offers the operation and can be reached without entering the avoided keys. */
  ghost predicate Reachable(catalog: Catalog, usable: set<Key>, operation: string, avoid: set<Key>, from: Key,
                            to: Key)
  {
    && Offers(catalog, to, operation)
    && exists trail :: Connects(catalog, usable, operation, avoid, trail, from, to)
  }

  lemma {:induction false} CutAtLastVisit(catalog: Catalog, usable: set<Key>, operation: string, avoid: set<Key>,
                        trail: seq<Key>, from: Key, to: Key) returns (next: Key)
    requires Connects(catalog, usable, operation, avoid, trail, from, to)
    requires Offers(catalog, to, operation)
    requires from in catalog.resources && catalog.resources[from].kind != "resource"
    ensures Step(catalog, from, next, operation)
    ensures Reachable(catalog, usable, operation, avoid + {from}, next, to)
    decreases |trail|
  {
    assert |trail| >= 2;
    if again :| 1 <= again < |trail| && trail[again] == from {
      next := CutAtLastVisit(catalog, usable, operation, avoid, trail[again..], from, to);
    } else {
      next := trail[1];
      assert Connects(catalog, usable, operation, avoid + {from}, trail[1..], next, to);
    }
  }

  lemma PrependStep(catalog: Catalog, usable: set<Key>, operation: string, avoid: set<Key>, from: Key, next: Key,
                    to: Key)
    requires from in usable && from !in avoid
    requires Step(catalog, from, next, operation)
    requires Reachable(catalog, usable, operation, avoid + {from}, next, to)
    ensures Reachable(catalog, usable, operation, avoid, from, to)
  {
    var trail :| Connects(catalog, usable, operation, avoid + {from}, trail, next, to);
    assert Connects(catalog, usable, operation, avoid, [from] + trail, from, to);
  }

  lemma FirstKeyUsable(catalog: Catalog, usable: set<Key>, operation: string, avoid: set<Key>, from: Key, to: Key)
    requires Reachable(catalog, usable, operation, avoid, from, to)
    ensures from in usable && from !in avoid
  {
    var trail :| Connects(catalog, usable, operation, avoid, trail, from, to);
    assert trail[0] == from;
  }

  lemma ResourceReachesItself(catalog: Catalog, usable: set<Key>, operation: string, avoid: set<Key>, key: Key)
    requires key in usable && key !in avoid && Offers(catalog, key, operation)
    ensures Reachable(catalog, usable, operation, avoid, key, key)
  {
    assert Connects(catalog, usable, operation, avoid, [key], key, key);
  }

  /** A resource has no edges, so it reaches only itself. */
  lemma ResourceIsTheEnd(catalog: Catalog, usable: set<Key>, operation: string, avoid: set<Key>, key: Key, to: Key)
    requires Reachable(catalog, usable, operation, avoid, key, to)
    requires key in catalog.resources && catalog.resources[key].kind == "resource"
    ensures key == to
  {
    var trail :| Connects(catalog, usable, operation, avoid, trail, key, to);
    assert |trail| > 1 ==> Step(catalog, trail[0], trail[1], operation);
  }

  /** One unfolding of a path-guarded search: what a directory reaches is what its edges reach without it. */
  lemma DirectoryReachesThroughEdges(catalog: Catalog, usable: set<Key>, operation: string, avoid: set<Key>, key: Key,
                                     to: Key)
    requires key in usable && key !in avoid
    requires key in catalog.resources && catalog.resources[key].kind != "resource"
    ensures Reachable(catalog, usable, operation, avoid, key, to)
       <==> exists next :: Step(catalog, key, next, operation) &&
                           Reachable(catalog, usable, operation, avoid + {key}, next, to)
  {
    if Reachable(catalog, usable, operation, avoid, key, to) {
      var trail :| Connects(catalog, usable, operation, avoid, trail, key, to);
      var next := CutAtLastVisit(catalog, usable, operation, avoid, trail, key, to);
    }
    if next :| Step(catalog, key, next, operation) && Reachable(catalog, usable, operation, avoid + {key}, next, to) {
      PrependStep(catalog, usable, operation, avoid, key, next, to);
    }
  }
}
