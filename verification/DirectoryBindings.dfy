/**
A directory expands to bindings of every resource below it, along children and
along references that permit the operation.
*/
module DirectoryBindings {
  import opened Options
  import opened ResourceCatalog
  import opened BindingMerge
  import opened CatalogSearch
  import opened Ordering

  function FullBinding(catalog: Catalog, key: Key, operation: string): ResourceBinding
    requires key in catalog.resources && operation in catalog.resources[key].operations
  {
    ResourceBinding(key, operation, Some(catalog.resources[key].operations[operation].buttonKeys))
  }

  /** The binding a search from key must produce for some operation, with the full feature list. */
  ghost predicate Expected(catalog: Catalog, scope: string, operations: seq<string>, avoid: set<Key>, key: Key,
                           binding: ResourceBinding) {
    && binding.operation in operations
    && Reachable(catalog, KeysInScope(catalog, scope), binding.operation, avoid, key, binding.resourceKey)
    && binding == FullBinding(catalog, binding.resourceKey, binding.operation)
  }

  // ----- The order of the search -----

  function SortOf(catalog: Catalog, key: Key): int {
    if key in catalog.resources then catalog.resources[key].sort else 0
  }

  /** Children by sort number, then by key. */
  function ChildBefore(catalog: Catalog): (Key, Key) -> bool {
    (a: Key, b: Key) => SortOf(catalog, a) < SortOf(catalog, b) ||
                        (SortOf(catalog, a) == SortOf(catalog, b) && StringBelow(a, b))
  }

  lemma ChildrenAreOrdered(catalog: Catalog)
    ensures TotalOrder(ChildBefore(catalog))
  {
    var le := ChildBefore(catalog);
    forall a, b ensures Comparable(le, a, b) {
      StringBelowTotal(a, b);
    }
    forall a, b ensures Antisymmetric(le, a, b) {
      if le(a, b) && le(b, a) {
        StringBelowAntisymmetric(a, b);
      }
    }
    forall a, b, c ensures Transitive(le, a, b, c) {
      if le(a, b) && le(b, c) && SortOf(catalog, a) == SortOf(catalog, c) {
        StringBelowTransitive(a, b, c);
      }
    }
  }

  function ChildrenOf(catalog: Catalog, key: Key): (children: seq<Key>)
    ensures forall child :: child in children <==> child in catalog.resources && catalog.resources[child].parent == key
  {
    ChildrenAreOrdered(catalog);
    Sorted(ChildBefore(catalog), set child | child in catalog.resources && catalog.resources[child].parent == key)
  }

  /** The children are searched by their sort numbers, and by their keys where those are equal, each of them once. */
  lemma ChildrenInOrder(catalog: Catalog, key: Key, i: nat, j: nat)
    requires i < j < |ChildrenOf(catalog, key)|
    ensures var earlier, later := ChildrenOf(catalog, key)[i], ChildrenOf(catalog, key)[j];
            && earlier != later && earlier in catalog.resources && later in catalog.resources
            && var a, b := catalog.resources[earlier].sort, catalog.resources[later].sort;
               a < b || (a == b && StringBelow(earlier, later))
  {
    ChildrenAreOrdered(catalog);
    var le := ChildBefore(catalog);
    var children := set child | child in catalog.resources && catalog.resources[child].parent == key;
    var listed := ChildrenOf(catalog, key);
    assert listed == Sorted(le, children);
    SortedAscends(le, children, i, j);
    var earlier, later := listed[i], listed[j];
    assert earlier in listed && later in listed;
    assert le(earlier, later) && earlier != later;
    assert SortOf(catalog, earlier) == catalog.resources[earlier].sort;
    assert SortOf(catalog, later) == catalog.resources[later].sort;
  }

  /** The bindings of one resource, in the order of the operations. */
  function ListResource(catalog: Catalog, key: Key, operations: seq<string>): seq<ResourceBinding>
    requires key in catalog.resources
  {
    if operations == [] then []
    else
      var last := operations[|operations| - 1];
      ListResource(catalog, key, operations[..|operations| - 1])
      + (if last in catalog.resources[key].operations then [FullBinding(catalog, key, last)] else [])
  }

  function Intersected(node: Node, target: Key, operations: seq<string>): seq<string> {
    Keep(operation => target in node.referenceOperations ==> operation in node.referenceOperations[target], operations)
  }

  /** What a search from a key lists: children before references, never a key of its own path again. */
  function Listing(catalog: Catalog, scope: string, path: set<Key>, key: Key,
                   operations: seq<string>): seq<ResourceBinding>
    decreases catalog.resources.Keys - path, 0, 0
  {
    if key !in catalog.resources || key in path || !InScope(key, scope) || operations == [] then []
    else
      var node := catalog.resources[key];
      if node.kind == "resource" then ListResource(catalog, key, operations)
      else
        var below := path + {key};
        ListChildren(catalog, scope, below, ChildrenOf(catalog, key), operations)
        + ListReferences(catalog, scope, below, node, |node.references|, operations)
  }

  function ListChildren(catalog: Catalog, scope: string, path: set<Key>, children: seq<Key>,
                        operations: seq<string>): seq<ResourceBinding>
    decreases catalog.resources.Keys - path, 1, |children|
  {
    if children == [] then []
    else
      ListChildren(catalog, scope, path, children[..|children| - 1], operations)
      + Listing(catalog, scope, path, children[|children| - 1], operations)
  }

  function ListReferences(catalog: Catalog, scope: string, path: set<Key>, node: Node, n: nat,
                          operations: seq<string>): seq<ResourceBinding>
    requires n <= |node.references|
    decreases catalog.resources.Keys - path, 1, n
  {
    if n == 0 then []
    else
      var target := node.references[n - 1];
      ListReferences(catalog, scope, path, node, n - 1, operations)
      + Listing(catalog, scope, path, target, Intersected(node, target, operations))
  }

  lemma ListOneMore(catalog: Catalog, key: Key, operations: seq<string>, i: nat)
    requires key in catalog.resources && i < |operations|
    ensures ListResource(catalog, key, operations[..i + 1])
         == ListResource(catalog, key, operations[..i])
            + (if operations[i] in catalog.resources[key].operations then [FullBinding(catalog, key, operations[i])]
               else [])
  {
    assert operations[..i + 1][..i] == operations[..i];
  }

  lemma ListOneMoreChild(catalog: Catalog, scope: string, path: set<Key>, children: seq<Key>, i: nat,
                         operations: seq<string>)
    requires i < |children|
    ensures ListChildren(catalog, scope, path, children[..i + 1], operations)
         == ListChildren(catalog, scope, path, children[..i], operations) +
             Listing(catalog, scope, path, children[i], operations)
  {
    assert children[..i + 1][..i] == children[..i];
  }

  lemma ListOneMoreReference(catalog: Catalog, scope: string, path: set<Key>, node: Node, i: nat,
                             operations: seq<string>)
    requires i < |node.references|
    ensures ListReferences(catalog, scope, path, node, i + 1, operations)
         == ListReferences(catalog, scope, path, node, i, operations)
            + Listing(catalog, scope, path, node.references[i], Intersected(node, node.references[i], operations))
  {
  }

  class DirectorySearch {
    const catalog: Catalog
    const scope: string
    var path: set<Key>
    var result: seq<ResourceBinding>

    constructor (catalog: Catalog, scope: string)
      ensures this.catalog == catalog && this.scope == scope
      ensures path == {} && result == []
    {
      this.catalog := catalog;
      this.scope := scope;
      path := {};
      result := [];
    }

    /** Adds exactly the expected bindings, in the order of the search, and gives the path back as it was. */
    method Visit(key: Key, operations: seq<string>)
      modifies this
      ensures path == old(path)
      ensures result == old(result) + Listing(catalog, scope, old(path), key, operations)
      ensures forall b :: b in result <==> b in old(result) || Expected(catalog, scope, operations, old(path), key, b)
      decreases catalog.resources.Keys - path, 0
    {
      hide ListChildren, ListReferences, ListResource, Expected;
      ghost var avoid, before := path, result;
      if key !in catalog.resources || key in path || !InScope(key, scope) || |operations| == 0 {
        NothingExpected(catalog, scope, operations, avoid, key);
        return;
      }
      var node := catalog.resources[key];
      if node.kind == "resource" {
        ListNothing(catalog, key);
        NothingExpected(catalog, scope, operations[..0], avoid, key);
        assert operations[..0] == [];
        for i := 0 to |operations|
          invariant path == avoid
          invariant result == before + ListResource(catalog, key, operations[..i])
          invariant forall b :: b in result <==> b in before || Expected(catalog, scope, operations[..i], avoid, key, b)
        {
          var operation := operations[i];
          ListOneMore(catalog, key, operations, i);
          if operation in node.operations {
            result := result + [FullBinding(catalog, key, operation)];
          }
          forall b {
            ExpectedAtResource(catalog, scope, operations, i, avoid, key, b);
          }
        }
        assert operations[..|operations|] == operations;
        return;
      }
      path := path + {key};
      VisitBelow(key, operations);
      path := path - {key};
      forall b {
        ExpectedThroughEdges(catalog, scope, operations, avoid, key, b);
      }
    }

    method VisitBelow(key: Key, operations: seq<string>)
      requires key in catalog.resources && catalog.resources[key].kind != "resource"
      modifies this
      ensures path == old(path)
      ensures result == old(result) + ListChildren(catalog, scope, old(path), ChildrenOf(catalog, key), operations)
                        + ListReferences(catalog, scope, old(path), catalog.resources[key],
                                         |catalog.resources[key].references|, operations)
      ensures forall b :: b in result <==>
                          b in old(result) || ExpectedBelow(catalog, scope, operations, old(path), key, b)
      decreases catalog.resources.Keys - path, 2
    {
      hide Expected, FromChildren, FromReferences, ExpectedBelow, ListChildren, ListReferences, ChildrenOf;
      ghost var avoid := path;
      var children := ChildrenOf(catalog, key);
      VisitChildren(children, operations);
      VisitReferences(catalog.resources[key], operations);
      forall b {
        BelowIsChildrenAndReferences(catalog, scope, operations, avoid, key, Elements(children), b);
      }
    }

    method VisitChildren(children: seq<Key>, operations: seq<string>)
      modifies this
      ensures path == old(path)
      ensures result == old(result) + ListChildren(catalog, scope, old(path), children, operations)
      ensures forall b :: b in result
                     <==> b in old(result) || FromChildren(catalog, scope, operations, old(path), Elements(children), b)
      decreases catalog.resources.Keys - path, 1
    {
      hide Listing, Expected, FromChildren, ListChildren;
      ghost var avoid, before := path, result;
      assert children[..0] == [];
      NoChildYet(catalog, scope, operations, avoid);
      for i := 0 to |children|
        invariant path == avoid
        invariant result == before + ListChildren(catalog, scope, avoid, children[..i], operations)
        invariant forall b :: b in result <==>
                              b in before || FromChildren(catalog, scope, operations, avoid, Elements(children[..i]), b)
      {
        Visit(children[i], operations);
        ListOneMoreChild(catalog, scope, avoid, children, i, operations);
        assert Elements(children[..i + 1]) == Elements(children[..i]) + {children[i]} by {
          assert children[..i + 1] == children[..i] + [children[i]];
        }
        forall b {
          OneMoreChild(catalog, scope, operations, avoid, Elements(children[..i]), children[i], b);
        }
      }
      assert children[..|children|] == children;
    }

    method VisitReferences(node: Node, operations: seq<string>)
      modifies this
      ensures path == old(path)
      ensures result == old(result) + ListReferences(catalog, scope, old(path), node, |node.references|, operations)
      ensures forall b :: b in result <==>
                          b in old(result) || FromAllReferences(catalog, scope, operations, old(path), node, b)
      decreases catalog.resources.Keys - path, 1
    {
      hide Listing, Expected, Intersected, FromReferences, ListReferences;
      ghost var avoid, before := path, result;
      NoReferenceYet(catalog, scope, operations, avoid, node);
      for i := 0 to |node.references|
        invariant path == avoid
        invariant result == before + ListReferences(catalog, scope, avoid, node, i, operations)
        invariant forall b :: b in result <==>
                              b in before || FromReferences(catalog, scope, operations, avoid, node, i, b)
      {
        var intersection := Intersection(node, node.references[i], operations);
        ListOneMoreReference(catalog, scope, avoid, node, i, operations);
        Visit(node.references[i], intersection);
        forall b {
          OneMoreReference(catalog, scope, operations, intersection, avoid, node, i, b);
        }
      }
    }

    method Intersection(node: Node, target: Key, operations: seq<string>) returns (intersection: seq<string>)
      requires target in node.references
      ensures intersection == Intersected(node, target, operations)
      ensures forall operation :: operation in intersection <==>
                                  operation in operations && Permits(node, target, operation)
    {
      intersection := [];
      ghost var keep := operation => target in node.referenceOperations ==>
                                     operation in node.referenceOperations[target];
      for i := 0 to |operations|
        invariant intersection == Keep(keep, operations[..i])
        invariant forall operation :: operation in intersection
                                 <==> operation in operations[..i] && Permits(node, target, operation)
      {
        if target !in node.referenceOperations || operations[i] in node.referenceOperations[target] {
          intersection := intersection + [operations[i]];
        }
        assert operations[..i + 1] == operations[..i] + [operations[i]];
        KeepLast(keep, operations[..i], operations[i]);
      }
      assert operations[..|operations|] == operations;
    }
  }

  lemma {:induction false} KeepLast<T(!new)>(keep: T -> bool, before: seq<T>, last: T)
    ensures Keep(keep, before + [last]) == Keep(keep, before) + (if keep(last) then [last] else [])
  {
    if before == [] {
      assert [] + [last] == [last];
    } else {
      hide Keep;
      var first, rest := before[0], before[1..];
      assert before == [first] + rest && before + [last] == [first] + (rest + [last]);
      KeepLast(keep, rest, last);
      KeepFirst(keep, first, rest);
      KeepFirst(keep, first, rest + [last]);
    }
  }

  lemma ListNothing(catalog: Catalog, key: Key)
    requires key in catalog.resources
    ensures ListResource(catalog, key, []) == []
  {
  }

  ghost function Elements(keys: seq<Key>): set<Key> {
    set key | key in keys
  }

  ghost predicate FromChildren(catalog: Catalog, scope: string, operations: seq<string>, avoid: set<Key>,
                               done: set<Key>,
                               binding: ResourceBinding) {
    exists child :: child in done && Expected(catalog, scope, operations, avoid, child, binding)
  }

  ghost predicate FromReferences(catalog: Catalog, scope: string, operations: seq<string>, avoid: set<Key>,
                                 node: Node, n: nat,
                                 binding: ResourceBinding)
    requires n <= |node.references|
  {
    exists j :: 0 <= j < n && Permits(node, node.references[j], binding.operation)
                && Expected(catalog, scope, operations, avoid, node.references[j], binding)
  }

  ghost predicate FromAllReferences(catalog: Catalog, scope: string, operations: seq<string>, avoid: set<Key>,
                                    node: Node,
                                    binding: ResourceBinding) {
    FromReferences(catalog, scope, operations, avoid, node, |node.references|, binding)
  }

  lemma NoChildYet(catalog: Catalog, scope: string, operations: seq<string>, avoid: set<Key>)
    ensures ListChildren(catalog, scope, avoid, [], operations) == []
    ensures forall b :: !FromChildren(catalog, scope, operations, avoid, Elements([]), b)
  {
    hide Listing, Expected;
  }

  lemma NoReferenceYet(catalog: Catalog, scope: string, operations: seq<string>, avoid: set<Key>, node: Node)
    ensures ListReferences(catalog, scope, avoid, node, 0, operations) == []
    ensures forall b :: !FromReferences(catalog, scope, operations, avoid, node, 0, b)
  {
    hide Listing, Expected;
  }

  lemma OneMoreChild(catalog: Catalog, scope: string, operations: seq<string>, avoid: set<Key>, done: set<Key>,
                     child: Key,
                     binding: ResourceBinding)
    ensures FromChildren(catalog, scope, operations, avoid, done + {child}, binding)
       <==> (FromChildren(catalog, scope, operations, avoid, done, binding)
             || Expected(catalog, scope, operations, avoid, child, binding))
  {
  }

  lemma OneMoreReference(catalog: Catalog, scope: string, operations: seq<string>, intersection: seq<string>,
                         avoid: set<Key>,
                         node: Node, n: nat, binding: ResourceBinding)
    requires n < |node.references|
    requires forall operation :: operation in intersection
                            <==> operation in operations && Permits(node, node.references[n], operation)
    ensures FromReferences(catalog, scope, operations, avoid, node, n + 1, binding)
       <==> (FromReferences(catalog, scope, operations, avoid, node, n, binding)
             || Expected(catalog, scope, intersection, avoid, node.references[n], binding))
  {
  }

  lemma BelowIsChildrenAndReferences(catalog: Catalog, scope: string, operations: seq<string>, avoid: set<Key>,
                                     key: Key,
                                     children: set<Key>, binding: ResourceBinding)
    requires key in catalog.resources && catalog.resources[key].kind != "resource"
    requires children == set child | child in catalog.resources && catalog.resources[child].parent == key
    ensures ExpectedBelow(catalog, scope, operations, avoid, key, binding)
       <==> (FromChildren(catalog, scope, operations, avoid, children, binding)
             || FromAllReferences(catalog, scope, operations, avoid, catalog.resources[key], binding))
  {
    var node := catalog.resources[key];
    if next :| Step(catalog, key, next, binding.operation) &&
               Expected(catalog, scope, operations, avoid, next, binding) {
      if next !in children {
        var j :| 0 <= j < |node.references| && node.references[j] == next;
      }
    }
    if FromChildren(catalog, scope, operations, avoid, children, binding) {
      var child :| child in children && Expected(catalog, scope, operations, avoid, child, binding);
      assert Step(catalog, key, child, binding.operation);
    }
    if FromReferences(catalog, scope, operations, avoid, node, |node.references|, binding) {
      var j :| 0 <= j < |node.references| && Permits(node, node.references[j], binding.operation)
               && Expected(catalog, scope, operations, avoid, node.references[j], binding);
      assert Step(catalog, key, node.references[j], binding.operation);
    }
  }

  ghost predicate ExpectedBelow(catalog: Catalog, scope: string, operations: seq<string>, avoid: set<Key>, key: Key,
                                binding: ResourceBinding) {
    exists next :: Step(catalog, key, next, binding.operation) &&
                   Expected(catalog, scope, operations, avoid, next, binding)
  }

  lemma NothingExpected(catalog: Catalog, scope: string, operations: seq<string>, avoid: set<Key>, key: Key)
    requires key !in catalog.resources || key in avoid || !InScope(key, scope) || operations == []
    ensures forall b :: !Expected(catalog, scope, operations, avoid, key, b)
  {
    forall b ensures !Expected(catalog, scope, operations, avoid, key, b) {
      if Expected(catalog, scope, operations, avoid, key, b) {
        FirstKeyUsable(catalog, KeysInScope(catalog, scope), b.operation, avoid, key, b.resourceKey);
      }
    }
  }

  lemma ExpectedAtResource(catalog: Catalog, scope: string, operations: seq<string>, i: nat, avoid: set<Key>, key: Key,
                           binding: ResourceBinding)
    requires i < |operations| && key in KeysInScope(catalog, scope) && key !in avoid
    requires catalog.resources[key].kind == "resource"
    ensures Expected(catalog, scope, operations[..i + 1], avoid, key, binding)
       <==> (Expected(catalog, scope, operations[..i], avoid, key, binding)
             || (operations[i] in catalog.resources[key].operations &&
                 binding == FullBinding(catalog, key, operations[i])))
  {
    var usable := KeysInScope(catalog, scope);
    assert operations[..i + 1] == operations[..i] + [operations[i]];
    if Reachable(catalog, usable, binding.operation, avoid, key, binding.resourceKey) {
      ResourceIsTheEnd(catalog, usable, binding.operation, avoid, key, binding.resourceKey);
    }
    if binding.operation in catalog.resources[key].operations {
      ResourceReachesItself(catalog, usable, binding.operation, avoid, key);
    }
  }

  lemma ExpectedThroughEdges(catalog: Catalog, scope: string, operations: seq<string>, avoid: set<Key>, key: Key,
                             binding: ResourceBinding)
    requires key in KeysInScope(catalog, scope) && key !in avoid
    requires catalog.resources[key].kind != "resource"
    ensures Expected(catalog, scope, operations, avoid, key, binding)
       <==> ExpectedBelow(catalog, scope, operations, avoid + {key}, key, binding)
  {
    DirectoryReachesThroughEdges(catalog, KeysInScope(catalog, scope), binding.operation, avoid, key,
                                 binding.resourceKey);
  }

  function Allowed(operation: string): seq<string> {
    if operation == "*" then FixedOperations else [operation]
  }

  /** Exactly the reachable pairs, each once and with its whole feature list. */
  ghost predicate Expands(catalog: Catalog, owner: Key, operation: string, bindings: seq<ResourceBinding>) {
    && (forall b :: b in bindings <==> Expected(catalog, Scope(owner), Allowed(operation), {}, owner, b))
    && (forall i, j :: 0 <= i < j < |bindings| ==>
          bindings[i].resourceKey != bindings[j].resourceKey || bindings[i].operation != bindings[j].operation)
  }

  method DirectoryResourceBindings(catalog: Catalog, owner: Key, operation: string)
    returns (bindings: seq<ResourceBinding>)
    ensures Expands(catalog, owner, operation, bindings)
    ensures var listing := Listing(catalog, Scope(owner), {}, owner, Allowed(operation));
            Merged(listing, bindings) && InOrderOfMention(listing, bindings)
  {
    hide Listing, Merged, InOrderOfMention;
    var search := new DirectorySearch(catalog, Scope(owner));
    search.Visit(owner, Allowed(operation));
    assert search.result == Listing(catalog, Scope(owner), {}, owner, Allowed(operation));
    bindings := MergeBindings(search.result);
    MergeKeepsExpected(catalog, owner, operation, search.result, bindings);
  }

  lemma SameIdentitySameBinding(catalog: Catalog, owner: Key, operation: string, a: ResourceBinding, b: ResourceBinding)
    requires Expected(catalog, Scope(owner), Allowed(operation), {}, owner, a)
    requires Expected(catalog, Scope(owner), Allowed(operation), {}, owner, b)
    requires Identity(a) == Identity(b)
    ensures a == b
  {
    IdentityIsInjective(a, b);
  }

  lemma MergeKeepsExpected(catalog: Catalog, owner: Key, operation: string, found: seq<ResourceBinding>,
                           merged: seq<ResourceBinding>)
    requires forall b :: b in found <==> Expected(catalog, Scope(owner), Allowed(operation), {}, owner, b)
    requires Merged(found, merged)
    ensures Expands(catalog, owner, operation, merged)
  {
    forall i | 0 <= i < |merged| ensures merged[i] in found {
      MergedEntryIsItsPart(catalog, owner, operation, found, merged, i);
    }
    forall b | b in found ensures b in merged {
      var k :| 0 <= k < |found| && found[k] == b;
      assert Present(merged, Identity(found[k]));
      var i :| 0 <= i < |merged| && Identity(merged[i]) == Identity(b);
      SameIdentitySameBinding(catalog, owner, operation, merged[i], b);
    }
  }

  lemma MergedEntryIsItsPart(catalog: Catalog, owner: Key, operation: string, found: seq<ResourceBinding>,
                             merged: seq<ResourceBinding>, i: nat)
    requires forall b :: b in found <==> Expected(catalog, Scope(owner), Allowed(operation), {}, owner, b)
    requires Merged(found, merged) && i < |merged|
    ensures merged[i] in found
  {
    var entry := merged[i];
    assert Named(found, entry);
    var k :| 0 <= k < |found| && found[k].resourceKey == entry.resourceKey && found[k].operation == entry.operation;
    var part := found[k];
    assert Expected(catalog, Scope(owner), Allowed(operation), {}, owner, part);
    assert Identity(part) == Identity(entry);
    forall b | Part(found, Identity(entry), b) ensures b.featureKeys == Some(part.featureKeys.value) {
      SameIdentitySameBinding(catalog, owner, operation, part, b);
    }
    CollectedUniform(found, Identity(entry), part.featureKeys.value);
  }

  /** Parents and references stay inside one scope, as Validate demands. */
  ghost predicate ScopesClosed(catalog: Catalog) {
    forall from, to, operation :: Step(catalog, from, to, operation) && to in catalog.resources ==>
      ':' in to && Scope(to) == Scope(from)
  }

  lemma {:induction false} TrailKeepsScope(catalog: Catalog, operation: string, trail: seq<Key>)
    requires ScopesClosed(catalog) && Trail(catalog, catalog.resources.Keys, operation, trail)
    requires InScope(trail[0], Scope(trail[0]))
    ensures Trail(catalog, KeysInScope(catalog, Scope(trail[0])), operation, trail)
    decreases |trail|
  {
    if |trail| > 1 {
      assert Step(catalog, trail[0], trail[1], operation);
      var rest := trail[1..];
      assert Trail(catalog, catalog.resources.Keys, operation, rest);
      TrailKeepsScope(catalog, operation, rest);
      forall i | 0 <= i < |trail| ensures trail[i] in KeysInScope(catalog, Scope(trail[0])) {
        assert i > 0 ==> trail[i] == rest[i - 1];
      }
    }
  }

  lemma ReachesInScope(catalog: Catalog, operation: string, owner: Key, to: Key)
    requires ScopesClosed(catalog) && ':' in owner
    ensures Reachable(catalog, catalog.resources.Keys, operation, {}, owner, to)
       <==> Reachable(catalog, KeysInScope(catalog, Scope(owner)), operation, {}, owner, to)
  {
    var usable := KeysInScope(catalog, Scope(owner));
    if Reachable(catalog, catalog.resources.Keys, operation, {}, owner, to) {
      var trail :| Connects(catalog, catalog.resources.Keys, operation, {}, trail, owner, to);
      TrailKeepsScope(catalog, operation, trail);
      assert Connects(catalog, usable, operation, {}, trail, owner, to);
    }
    if Reachable(catalog, usable, operation, {}, owner, to) {
      var trail :| Connects(catalog, usable, operation, {}, trail, owner, to);
      assert Connects(catalog, catalog.resources.Keys, operation, {}, trail, owner, to);
    }
  }

  /** On a catalog whose edges stay in scope the two searches agree. */
  lemma ExpandsIffSupported(catalog: Catalog, owner: Key, operation: string, bindings: seq<ResourceBinding>)
    requires ScopesClosed(catalog) && ':' in owner && operation != "*"
    requires Expands(catalog, owner, operation, bindings)
    ensures bindings != [] <==> Supported(catalog, operation, {}, owner)
  {
    if bindings != [] {
      assert bindings[0] in bindings;
      ReachesInScope(catalog, operation, owner, bindings[0].resourceKey);
    }
    if to :| Reachable(catalog, catalog.resources.Keys, operation, {}, owner, to) {
      ReachesInScope(catalog, operation, owner, to);
      var binding := FullBinding(catalog, to, operation);
      assert Expected(catalog, Scope(owner), Allowed(operation), {}, owner, binding);
    }
  }
}
