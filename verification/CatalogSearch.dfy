/**
The two path-guarded searches: does a reference target support an operation,
and which bindings does a directory expand to.
*/
module CatalogSearch {
  import opened ResourceCatalog

  ghost predicate Supported(catalog: Catalog, operation: string, avoid: set<Key>, key: Key) {
    exists to :: Reachable(catalog, catalog.resources.Keys, operation, avoid, key, to)
  }

  class SupportSearch {
    const catalog: Catalog
    var path: set<Key>

    constructor (catalog: Catalog)
      ensures this.catalog == catalog && path == {}
    {
      this.catalog := catalog;
      path := {};
    }

    /** Terminates on every catalog, cyclic or not, and gives the path back as it was. */
    method Supports(key: Key, operation: string) returns (found: bool)
      modifies this
      ensures path == old(path)
      ensures found <==> Supported(catalog, operation, old(path), key)
      decreases catalog.resources.Keys - path, 0
    {
      ghost var usable := catalog.resources.Keys;
      ghost var avoid := path;
      if key !in catalog.resources || key in path {
        if to :| Reachable(catalog, usable, operation, avoid, key, to) {
          FirstKeyUsable(catalog, usable, operation, avoid, key, to);
        }
        return false;
      }
      if catalog.resources[key].kind == "resource" {
        found := operation in catalog.resources[key].operations;
        if found {
          ResourceReachesItself(catalog, usable, operation, avoid, key);
        } else if to :| Reachable(catalog, usable, operation, avoid, key, to) {
          ResourceIsTheEnd(catalog, usable, operation, avoid, key, to);
        }
        return;
      }
      path := path + {key};
      found := SupportsBelow(key, operation);
      path := path - {key};
      SupportedThroughEdges(catalog, operation, avoid, key);
    }

    method SupportsBelow(key: Key, operation: string) returns (found: bool)
      requires key in catalog.resources && catalog.resources[key].kind != "resource"
      modifies this
      ensures path == old(path)
      ensures found <==> exists next :: Step(catalog, key, next, operation) &&
                                        Supported(catalog, operation, old(path), next)
      decreases catalog.resources.Keys - path, 1
    {
      var node := catalog.resources[key];
      var children := set child | child in catalog.resources && catalog.resources[child].parent == key;
      while children != {}
        invariant path == old(path)
        invariant forall child :: child in children ==>
                                  child in catalog.resources && catalog.resources[child].parent == key
        invariant forall child :: child in catalog.resources && catalog.resources[child].parent == key &&
                                  child !in children
                                  ==> !Supported(catalog, operation, path, child)
      {
        var child :| child in children;
        found := Supports(child, operation);
        if found { return; }
        children := children - {child};
      }
      for i := 0 to |node.references|
        invariant path == old(path)
        invariant forall j :: 0 <= j < i && Permits(node, node.references[j], operation)
                              ==> !Supported(catalog, operation, path, node.references[j])
      {
        var target := node.references[i];
        if target in node.referenceOperations && operation !in node.referenceOperations[target] {
          continue;
        }
        found := Supports(target, operation);
        if found { return; }
      }
      found := false;
    }
  }

  lemma SupportedThroughEdges(catalog: Catalog, operation: string, avoid: set<Key>, key: Key)
    requires key in catalog.resources && key !in avoid
    requires catalog.resources[key].kind != "resource"
    ensures Supported(catalog, operation, avoid, key)
       <==> exists next :: Step(catalog, key, next, operation) && Supported(catalog, operation, avoid + {key}, next)
  {
    ghost var usable := catalog.resources.Keys;
    if to :| Reachable(catalog, usable, operation, avoid, key, to) {
      DirectoryReachesThroughEdges(catalog, usable, operation, avoid, key, to);
    }
    if next, to :| Step(catalog, key, next, operation) &&
                   Reachable(catalog, usable, operation, avoid + {key}, next, to) {
      DirectoryReachesThroughEdges(catalog, usable, operation, avoid, key, to);
    }
  }
}
